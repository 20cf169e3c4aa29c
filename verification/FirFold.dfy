/**
  FIR filters with symmetric coefficients: half of them is kept, and the response is
  computed from that half. Coefficients and frequencies are exact reals, and the
  trigonometric functions are parameters of which only the laws used are assumed.
*/
module FirFold {

  datatype FirType = FirAsym | FirSym1 | FirSym2

  ghost predicate Even(c: real -> real) {
    forall x :: c(-x) == c(x)
  }

  ghost predicate Odd(s: real -> real) {
    forall x :: s(-x) == -s(x)
  }

  // ------------------------------------------------------ centred sums

  function Angle(w: real, x: real): real {
    w * x
  }

  lemma AngleLaws(w: real, x: real, y: real)
    ensures Angle(w, -x) == -Angle(w, x) && Angle(w, x - y) == Angle(w, x) - Angle(w, y) && Angle(w, 0.0) == 0.0
  {
  }

  /** The term of coefficient `k`, at its distance from the centre `h`. */
  function Term(a: seq<real>, g: real -> real, w: real, h: real, k: nat): real
    requires k < |a|
  {
    a[k] * g(Angle(w, k as real - h))
  }

  /** The terms from `lo` to `hi` */
  function Sum(a: seq<real>, g: real -> real, w: real, h: real, lo: nat, hi: nat): real
    requires lo <= hi <= |a|
    decreases hi - lo
  {
    if lo == hi then 0.0 else Sum(a, g, w, h, lo, hi - 1) + Term(a, g, w, h, hi - 1)
  }

  lemma {:induction false} SumSplit(a: seq<real>, g: real -> real, w: real, h: real, lo: nat, mid: nat, hi: nat)
    requires lo <= mid <= hi <= |a|
    ensures Sum(a, g, w, h, lo, hi) == Sum(a, g, w, h, lo, mid) + Sum(a, g, w, h, mid, hi)
    decreases hi - mid
  {
    if mid < hi {
      SumSplit(a, g, w, h, lo, mid, hi - 1);
    }
  }

  /** The middle of a filter with `n` coefficients */
  function Centre(n: nat): real {
    (n as real - 1.0) / 2.0
  }

  /** The coefficient at `k` and the one at the same distance from the other end are equal. */
  predicate Paired(a: seq<real>, k: nat)
    requires k < |a|
  {
    a[k] == a[|a| - 1 - k]
  }

  ghost predicate Symmetric(a: seq<real>) {
    forall k: nat :: k < |a| ==> Paired(a, k)
  }

  lemma Negate(x: real, y: real)
    ensures x * -y == -(x * y)
  {
  }

  lemma MirrorTerm(a: seq<real>, g: real -> real, w: real, k: nat, even: bool)
    requires k < |a| && Paired(a, k) && if even then Even(g) else Odd(g)
    ensures var t := Term(a, g, w, Centre(|a|), k);
      Term(a, g, w, Centre(|a|), |a| - 1 - k) == if even then t else -t
  {
    hide Angle;
    var d := k as real - Centre(|a|);
    assert (|a| - 1 - k) as real - Centre(|a|) == -d;
    AngleLaws(w, d, d);
    var x := Angle(w, d);
    Negate(a[k], g(x));
    assert if even then g(-x) == g(x) else g(-x) == -g(x);
  }

  /** The last terms of a symmetric filter add up to the first: unchanged for an even function, negated for an odd one. */
  lemma {:induction false} Mirror(a: seq<real>, g: real -> real, w: real, j: nat, even: bool)
    requires Symmetric(a) && j <= |a| && if even then Even(g) else Odd(g)
    ensures var first, last := Sum(a, g, w, Centre(|a|), 0, j), Sum(a, g, w, Centre(|a|), |a| - j, |a|);
      last == if even then first else -first
    decreases j
  {
    hide Term, Centre, Even, Odd, Paired;
    if j > 0 {
      Mirror(a, g, w, j - 1, even);
      var k := |a| - j;
      SumSplit(a, g, w, Centre(|a|), k, k + 1, |a|);
      assert Paired(a, j - 1);
      MirrorTerm(a, g, w, j - 1, even);
    }
  }

  /** The response at `w` of a filter given in full, centred: its real and its imaginary part. */
  function Centred(a: seq<real>, c: real -> real, s: real -> real, w: real): (real, real) {
    (Sum(a, c, w, Centre(|a|), 0, |a|), -Sum(a, s, w, Centre(|a|), 0, |a|))
  }

  /** In a symmetric filter the odd part vanishes. */
  lemma OddPart(a: seq<real>, s: real -> real, w: real)
    requires Symmetric(a) && Odd(s)
    ensures Sum(a, s, w, Centre(|a|), 0, |a|) == 0.0
  {
    Mirror(a, s, w, |a|, false);
  }

  // ----------------------------------------------------- the two halves

  /** The loop of `fir_sym_trans` over the kept half, for an odd and for an even number of coefficients. */
  function HalfSum(a: seq<real>, c: real -> real, w: real, half: real, na: nat, k: nat): real
    requires k <= na <= |a|
  {
    if k == 0 then 0.0
    else HalfSum(a, c, w, half, na, k - 1) + a[k - 1] * c(Angle(w, (na - k) as real + half))
  }

  lemma NoHalf(a: seq<real>, c: real -> real, w: real, na: nat)
    requires na <= |a|
    ensures HalfSum(a, c, w, 0.0, na, 0) == 0.0 && HalfSum(a, c, w, 0.5, na, 0) == 0.0
  {
  }

  lemma HalfStep(a: seq<real>, c: real -> real, w: real, half: real, na: nat, k: nat, x: real)
    requires k < na <= |a| && x == (na - (k + 1)) as real + half
    ensures HalfSum(a, c, w, half, na, k + 1) == HalfSum(a, c, w, half, na, k) + a[k] * c(Angle(w, x))
  {
    hide Angle;
  }

  /** The kept half adds up to the first half of the centred sum. */
  lemma {:induction false} HalfIsFirst(a: seq<real>, c: real -> real, w: real, half: real, na: nat, k: nat)
    requires Even(c) && k <= na <= |a| && na as real - 1.0 + half == Centre(|a|)
    ensures HalfSum(a, c, w, half, na, k) == Sum(a, c, w, Centre(|a|), 0, k)
    decreases k
  {
    if k > 0 {
      hide Angle;
      HalfIsFirst(a, c, w, half, na, k - 1);
      var d := (na - k) as real + half;
      assert (k - 1) as real - Centre(|a|) == -d;
      AngleLaws(w, d, d);
      assert c(-Angle(w, d)) == c(Angle(w, d));
    }
  }

  /** `fir_sym_trans` without the gain: the real part from the first `na` coefficients. */
  function SymSum(t: FirType, a: seq<real>, c: real -> real, w: real, na: nat): real
    requires na <= |a| && (t.FirSym1? ==> na > 0) && !t.FirAsym?
  {
    if t.FirSym1? then a[na - 1] + 2.0 * HalfSum(a, c, w, 0.0, na, na - 1) else 2.0 * HalfSum(a, c, w, 0.5, na, na)
  }

  /** What folding makes of a filter. */
  function FoldedType(n: nat): FirType {
    if n % 2 == 0 then FirSym2 else FirSym1
  }

  function FoldedCount(n: nat): nat {
    if n % 2 == 0 then n / 2 else (n + 1) / 2
  }

  /** Folding preserves the response, for any number of coefficients. */
  lemma FoldPreserves(a: seq<real>, c: real -> real, s: real -> real, w: real)
    requires Symmetric(a) && Even(c) && c(0.0) == 1.0 && Odd(s)
    ensures Centred(a, c, s, w) == (SymSum(FoldedType(|a|), a, c, w, FoldedCount(|a|)), 0.0)
  {
    hide Sum, HalfSum, Centre, Even, Odd, Paired, Term, Symmetric;
    var n, h, na := |a|, Centre(|a|), FoldedCount(|a|);
    OddPart(a, s, w);
    Middle(n);
    if n % 2 == 0 {
      HalfIsFirst(a, c, w, 0.5, na, na);
      SumSplit(a, c, w, h, 0, na, n);
      Mirror(a, c, w, na, true);
    } else {
      var m := na - 1;
      HalfIsFirst(a, c, w, 0.0, na, m);
      SumSplit(a, c, w, h, 0, m, n);
      SumSplit(a, c, w, h, m, m + 1, n);
      Mirror(a, c, w, m, true);
      MiddleTerm(a, c, w, m);
    }
  }

  /** The kept half ends at the middle. */
  lemma Middle(n: nat)
    ensures n % 2 == 0 ==> FoldedCount(n) as real - 1.0 + 0.5 == Centre(n) && n - FoldedCount(n) == FoldedCount(n)
    ensures n % 2 == 1 ==> var m := FoldedCount(n) - 1;
      m >= 0 && m as real == Centre(n) && FoldedCount(n) as real - 1.0 + 0.0 == Centre(n) && n - (m + 1) == m
  {
  }

  lemma MiddleTerm(a: seq<real>, c: real -> real, w: real, m: nat)
    requires m < |a| && m as real == Centre(|a|) && c(0.0) == 1.0
    ensures Sum(a, c, w, Centre(|a|), m, m + 1) == a[m]
  {
    hide Centre;
    var h := Centre(|a|);
    var d := m as real - h;
    hide Angle;
    AngleLaws(w, d, d);
    assert d == 0.0 && Term(a, c, w, h, m) == a[m] * c(0.0);
    assert Sum(a, c, w, h, m, m) == 0.0;
    assert Sum(a, c, w, h, m, m + 1) == Sum(a, c, w, h, m, m) + Term(a, c, w, h, m);
  }

  /**
    The uncentred sums of `fir_asym_trans`, rotated by the angle to the centre, are the
    centred ones, for functions with the subtraction laws of cosine and sine.
  */
  lemma {:induction false} RotationCentres(a: seq<real>, c: real -> real, s: real -> real, w: real, h: real, n: nat)
    requires n <= |a|
    requires forall x, y :: Turned(c, s, x, y)
    ensures var re, im := Sum(a, c, w, 0.0, 0, n), -Sum(a, s, w, 0.0, 0, n);
      && Sum(a, c, w, h, 0, n) == re * c(Angle(w, h)) - im * s(Angle(w, h))
      && -Sum(a, s, w, h, 0, n) == re * s(Angle(w, h)) + im * c(Angle(w, h))
  {
    hide Sum, Term, Angle, Turned;
    SumNone(a, c, s, w, h);
    if n > 0 {
      RotationCentres(a, c, s, w, h, n - 1);
      var k := n - 1;
      var y := Angle(w, h);
      assert Turned(c, s, Angle(w, k as real), y);
      TermTurned(a, c, s, w, h, k);
      SumMore(a, c, s, w, 0.0, k);
      SumMore(a, c, s, w, h, k);
      RotateSum(Sum(a, c, w, 0.0, 0, k), -Sum(a, s, w, 0.0, 0, k), Term(a, c, w, 0.0, k), Term(a, s, w, 0.0, k), c(y), s(y),
                Sum(a, c, w, h, 0, k), -Sum(a, s, w, h, 0, k));
    } else {
      NoSum(c(Angle(w, h)), s(Angle(w, h)));
    }
  }

  lemma SumNone(a: seq<real>, c: real -> real, s: real -> real, w: real, h: real)
    ensures Sum(a, c, w, 0.0, 0, 0) == Sum(a, s, w, 0.0, 0, 0) == Sum(a, c, w, h, 0, 0) == Sum(a, s, w, h, 0, 0) == 0.0
  {
  }

  lemma SumMore(a: seq<real>, c: real -> real, s: real -> real, w: real, h: real, k: nat)
    requires k < |a|
    ensures Sum(a, c, w, h, 0, k + 1) == Sum(a, c, w, h, 0, k) + Term(a, c, w, h, k)
    ensures Sum(a, s, w, h, 0, k + 1) == Sum(a, s, w, h, 0, k) + Term(a, s, w, h, k)
  {
  }

  lemma TermTurned(a: seq<real>, c: real -> real, s: real -> real, w: real, h: real, k: nat)
    requires k < |a| && Turned(c, s, Angle(w, k as real), Angle(w, h))
    ensures var p, q, y := Term(a, c, w, 0.0, k), Term(a, s, w, 0.0, k), Angle(w, h);
      Term(a, c, w, h, k) == p * c(y) + q * s(y) && Term(a, s, w, h, k) == q * c(y) - p * s(y)
  {
    hide Angle;
    var x, y := Angle(w, k as real), Angle(w, h);
    AngleLaws(w, k as real, h);
    assert k as real - 0.0 == k as real;
    RotateTerm(a[k], c(x), s(x), c(y), s(y));
  }

  ghost predicate Turned(c: real -> real, s: real -> real, x: real, y: real) {
    c(x - y) == c(x) * c(y) + s(x) * s(y) && s(x - y) == s(x) * c(y) - c(x) * s(y)
  }

  lemma RotateTerm(a: real, cx: real, sx: real, cy: real, sy: real)
    ensures a * (cx * cy + sx * sy) == (a * cx) * cy + (a * sx) * sy
    ensures a * (sx * cy - cx * sy) == (a * sx) * cy - (a * cx) * sy
  {
  }

  lemma RotateSum(re: real, im: real, p: real, q: real, cy: real, sy: real, re': real, im': real)
    requires re' == re * cy - im * sy && im' == re * sy + im * cy
    ensures re' + (p * cy + q * sy) == (re + p) * cy - (im - q) * sy
    ensures im' - (q * cy - p * sy) == (re + p) * sy + (im - q) * cy
  {
  }

  lemma NoSum(cy: real, sy: real)
    ensures 0.0 * cy - 0.0 * sy == 0.0 == 0.0 * sy + 0.0 * cy
  {
  }

  // ----------------------------------------------------- normalization

  // How far the sum of the coefficients may be from 1.
  const NORM_TOL: real := 0.02

  /** The sum of the first `n` coefficients: the response at zero frequency. */
  function Total(a: seq<real>, n: nat): real
    requires n <= |a|
  {
    if n == 0 then 0.0 else Total(a, n - 1) + a[n - 1]
  }

  predicate NormalTotal(sum: real) {
    1.0 - NORM_TOL <= sum <= 1.0 + NORM_TOL
  }

  /** The coefficients, divided by their sum where that is too far from 1. */
  function Normalized(a: seq<real>): (r: seq<real>)
    requires |a| > 0 ==> Total(a, |a|) != 0.0
    ensures |r| == |a|
  {
    var sum := Total(a, |a|);
    if |a| == 0 || NormalTotal(sum) then a else Scaled(a, sum)
  }

  function Scaled(a: seq<real>, q: real): (r: seq<real>)
    requires q != 0.0
    ensures |r| == |a| && forall k :: 0 <= k < |a| ==> r[k] == a[k] / q
  {
    seq(|a|, k requires 0 <= k < |a| => a[k] / q)
  }

  lemma {:induction false} ScaledTotal(a: seq<real>, q: real, n: nat)
    requires q != 0.0 && n <= |a|
    ensures Total(Scaled(a, q), n) == Total(a, n) / q
  {
    hide Scaled;
    if n > 0 {
      ScaledTotal(a, q, n - 1);
      DividedSum(Total(a, n - 1), a[n - 1], q);
    }
  }

  lemma DividedSum(x: real, y: real, q: real)
    requires q != 0.0
    ensures (x + y) / q == x / q + y / q
  {
  }

  /**
    Normalizing leaves the sum at most 0.02 from 1. A sum that is no further from 1
    leaves the coefficients as they are, and any other is made 1 in their proportions.
    Whether the filter is symmetric is kept.
  */
  lemma NormalizedFacts(a: seq<real>)
    requires |a| > 0 ==> Total(a, |a|) != 0.0
    ensures var r, sum := Normalized(a), Total(a, |a|);
      && (|a| > 0 ==> NormalTotal(Total(r, |r|)) && 0.98 <= Total(r, |r|) <= 1.02)
      && (0.98 <= sum <= 1.02 ==> r == a)
      && (|a| > 0 && !(0.98 <= sum <= 1.02) ==> Total(r, |r|) == 1.0 && forall k :: 0 <= k < |a| ==> r[k] * sum == a[k])
      && (Symmetric(r) <==> Symmetric(a))
  {
    hide Scaled, Symmetric, Total;
    var sum := Total(a, |a|);
    if |a| > 0 && !NormalTotal(sum) {
      ScaledTotal(a, sum, |a|);
      ToOne(sum);
      ScaledSymmetric(a, sum);
      var r := Normalized(a);
      forall k | 0 <= k < |a| ensures r[k] * sum == a[k] {
        TimesBack(a[k], sum);
      }
    }
  }

  lemma TimesBack(x: real, q: real)
    requires q != 0.0
    ensures x / q * q == x
  {
  }

  lemma ToOne(sum: real)
    requires sum != 0.0
    ensures NormalTotal(sum / sum) && sum / sum == 1.0
  {
  }

  lemma ScaledSymmetric(a: seq<real>, q: real)
    requires q != 0.0
    ensures Symmetric(Scaled(a, q)) <==> Symmetric(a)
  {
    hide Scaled;
    var r := Scaled(a, q);
    forall k: nat | k < |a| ensures Paired(r, k) <==> Paired(a, k) {
      SameQuotient(a[k], a[|a| - 1 - k], q);
    }
    hide Paired;
    if Symmetric(r) {
      forall k: nat | k < |a| ensures Paired(a, k) { assert Paired(r, k); }
    }
  }

  lemma NotZero(sum: real)
    requires NormalTotal(sum)
    ensures sum != 0.0
  {
  }

  lemma SameQuotient(x: real, y: real, q: real)
    requires q != 0.0
    ensures x / q == y / q <==> x == y
  {
    assert x / q * q == x && y / q * q == y;
  }

  // --------------------------------------------------------- the blockette

  /** A FIR blockette: the first `ncoeffs` coefficients are in use. */
  class Fir {
    var kind: FirType
    var coeffs: array<real>
    var ncoeffs: nat
    const h0: real

    ghost predicate Valid()
      reads this
    {
      ncoeffs <= coeffs.Length && (kind.FirSym1? ==> ncoeffs > 0)
    }

    constructor (coeffs: array<real>, h0: real)
      ensures Valid() && kind == FirAsym && this.coeffs == coeffs && ncoeffs == coeffs.Length && this.h0 == h0
    {
      kind := FirAsym;
      this.coeffs := coeffs;
      ncoeffs := coeffs.Length;
      this.h0 := h0;
    }

    /** The first part of `check_symmetry`; a sum of zero would leave no numbers, and is reported instead. */
    method Normalize() returns (ok: bool)
      requires Valid()
      modifies coeffs
      ensures ok <==> ncoeffs == 0 || old(Total(coeffs[..ncoeffs], ncoeffs)) != 0.0
      ensures ok ==> coeffs[..ncoeffs] == Normalized(old(coeffs[..ncoeffs]))
      ensures coeffs[ncoeffs..] == old(coeffs[ncoeffs..])
      ensures !ok ==> coeffs[..] == old(coeffs[..])
    {
      hide NormalTotal;
      var nc, sum := ncoeffs, 0.0;
      ghost var a := coeffs[..nc];
      for k := 0 to nc
        invariant sum == Total(a, k)
      {
        sum := sum + coeffs[k];
      }
      if nc == 0 || NormalTotal(sum) {
        if nc > 0 { NotZero(sum); }
        return true;
      }
      if sum == 0.0 {
        return false;
      }
      for k := 0 to nc
        invariant forall j :: 0 <= j < k ==> coeffs[j] == a[j] / sum
        invariant forall j :: k <= j < nc ==> coeffs[j] == a[j]
        invariant coeffs[nc..] == old(coeffs[nc..])
      {
        coeffs[k] := coeffs[k] / sum;
      }
      assert coeffs[..nc] == Scaled(a, sum);
      ok := true;
    }

    /** `check_symmetry`: the filter is normalized, and folded exactly if it is symmetric. */
    method CheckSymmetry() returns (ok: bool)
      requires Valid()
      modifies this`kind, this`ncoeffs, coeffs
      ensures Valid()
      ensures ok <==> old(ncoeffs) == 0 || old(Total(coeffs[..ncoeffs], ncoeffs)) != 0.0
      ensures ok ==> coeffs[..old(ncoeffs)] == Normalized(old(coeffs[..ncoeffs]))
      ensures ok && old(kind).FirAsym? && old(Symmetric(coeffs[..ncoeffs])) ==>
        kind == FoldedType(old(ncoeffs)) && ncoeffs == FoldedCount(old(ncoeffs))
      ensures !(ok && old(kind).FirAsym? && old(Symmetric(coeffs[..ncoeffs]))) ==>
        kind == old(kind) && ncoeffs == old(ncoeffs)
    {
      ok := Normalize();
      if ok {
        NormalizedFacts(old(coeffs[..ncoeffs]));
        Fold();
      }
    }

    /** The part of `check_symmetry` that folds: exactly the symmetric filters are folded. */
    method Fold()
      requires Valid()
      modifies this`kind, this`ncoeffs
      ensures Valid()
      ensures old(kind).FirAsym? && Symmetric(coeffs[..old(ncoeffs)]) ==>
        kind == FoldedType(old(ncoeffs)) && ncoeffs == FoldedCount(old(ncoeffs))
      ensures !(old(kind).FirAsym? && Symmetric(coeffs[..old(ncoeffs)])) ==>
        kind == old(kind) && ncoeffs == old(ncoeffs)
    {
      if kind != FirAsym {
        return;
      }
      var nc := ncoeffs;
      ghost var a := coeffs[..nc];
      if nc % 2 == 0 {
        var n0 := nc / 2;
        var k := 0;
        while k < n0
          invariant 0 <= k <= n0
          invariant forall j: nat :: n0 <= j < n0 + k ==> Paired(a, j)
        {
          if coeffs[n0 + k] != coeffs[n0 - k - 1] {
            assert !Paired(a, n0 + k);
            return;
          }
          k := k + 1;
        }
        BothSides(a, n0);
        kind := FirSym2;
        ncoeffs := n0;
      } else {
        var n0 := (nc - 1) / 2;
        var k := 1;
        while k < nc - n0
          invariant 1 <= k <= nc - n0
          invariant forall j: nat :: n0 <= j < n0 + k ==> Paired(a, j)
        {
          if coeffs[n0 + k] != coeffs[n0 - k] {
            assert !Paired(a, n0 + k);
            return;
          }
          k := k + 1;
        }
        BothSides(a, n0);
        kind := FirSym1;
        ncoeffs := nc - n0;
      }
    }

    /** `fir_sym_trans` for the cosine `c`, at `wsint` */
    method SymTrans(c: real -> real, wsint: real) returns (re: real, im: real)
      requires Valid() && kind != FirAsym
      ensures re == SymSum(kind, coeffs[..], c, wsint, ncoeffs) * h0 && im == 0.0
    {
      hide HalfSum;
      var na, r := ncoeffs, 0.0;
      ghost var a := coeffs[..];
      NoHalf(a, c, wsint, na);
      if kind == FirSym1 {
        var k := 0;
        while k < na - 1
          invariant 0 <= k <= na - 1 && r == HalfSum(a, c, wsint, 0.0, na, k)
        {
          var fact := na - (k + 1);
          HalfStep(a, c, wsint, 0.0, na, k, fact as real);
          r := r + coeffs[k] * c(Angle(wsint, fact as real));
          k := k + 1;
        }
        re := (coeffs[k] + 2.0 * r) * h0;
      } else {
        var k := 0;
        while k < na
          invariant 0 <= k <= na && r == HalfSum(a, c, wsint, 0.5, na, k)
        {
          var fact := na - (k + 1);
          HalfStep(a, c, wsint, 0.5, na, k, fact as real + 0.5);
          r := r + coeffs[k] * c(Angle(wsint, fact as real + 0.5));
          k := k + 1;
        }
        re := 2.0 * r * h0;
      }
      im := 0.0;
    }
  }

  /** Symmetry tested from the middle on is symmetry. */
  lemma BothSides(a: seq<real>, n0: nat)
    requires 2 * n0 <= |a| <= 2 * n0 + 1
    requires forall j: nat :: n0 <= j < |a| ==> Paired(a, j)
    ensures Symmetric(a)
  {
    forall k: nat | k < |a| ensures Paired(a, k) {
      if k < n0 {
        assert Paired(a, |a| - 1 - k);
      }
    }
  }

  /** The response of a filter read as asymmetric, from its kept half where it was folded. */
  method FoldAndTransform(f: Fir, c: real -> real, ghost s: real -> real, wsint: real) returns (folded: bool, re: real, im: real)
    requires f.Valid() && f.kind == FirAsym && Even(c) && c(0.0) == 1.0 && Odd(s)
    modifies f`kind, f`ncoeffs, f.coeffs
    ensures var a := old(f.coeffs[..f.ncoeffs]);
      && (folded <==> (|a| > 0 ==> Total(a, |a|) != 0.0) && Symmetric(a))
      && (folded ==> var r := Centred(Normalized(a), c, s, wsint); re == r.0 * f.h0 && im == r.1 * f.h0)
  {
    hide Sum, HalfSum, SymSum, Even, Odd, Symmetric, Normalized, Total;
    ghost var was := f.coeffs[..f.ncoeffs];
    var ok := f.CheckSymmetry();
    folded := f.kind != FirAsym;
    re, im := 0.0, 0.0;
    if folded {
      NormalizedFacts(was);
      ghost var a := Normalized(was);
      FoldPreserves(a, c, s, wsint);
      re, im := f.SymTrans(c, wsint);
      SameHalf(f.kind, a, f.coeffs[..], c, wsint, f.ncoeffs);
    }
  }

  lemma SameHalf(t: FirType, a: seq<real>, b: seq<real>, c: real -> real, w: real, na: nat)
    requires na <= |a| <= |b| && a == b[..|a|] && (t.FirSym1? ==> na > 0) && !t.FirAsym?
    ensures SymSum(t, a, c, w, na) == SymSum(t, b, c, w, na)
  {
    SameHalfSum(a, b, c, w, 0.0, na, if na > 0 then na - 1 else 0);
    SameHalfSum(a, b, c, w, 0.5, na, na);
  }

  lemma {:induction false} SameHalfSum(a: seq<real>, b: seq<real>, c: real -> real, w: real, half: real, na: nat, k: nat)
    requires k <= na <= |a| <= |b| && a == b[..|a|]
    ensures HalfSum(a, c, w, half, na, k) == HalfSum(b, c, w, half, na, k)
  {
    if k > 0 {
      SameHalfSum(a, b, c, w, half, na, k - 1);
    }
  }
}
