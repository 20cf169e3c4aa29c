/**
  FIR filters whose coefficients are used one by one. The response is summed from the
  first coefficient on and turned to the middle afterwards, by way of modulus and
  angle; a filter with equal coefficients has a closed form of its own.
*/
module FirAsym {
  import opened FirFold

  /** The laws used of cosine and sine. */
  ghost predicate Trig(c: real -> real, s: real -> real) {
    Even(c) && Odd(s) && c(0.0) == 1.0 && forall x, y :: Turned(c, s, x, y)
  }

  function Modulus(sqrt: real -> real, re: real, im: real): real {
    sqrt(re * re + im * im)
  }

  /** Modulus and angle, as C's sqrt and atan2 give them, lead back to the number. */
  ghost predicate Polar(c: real -> real, s: real -> real, sqrt: real -> real, atan2: (real, real) -> real) {
    forall re, im ::
      Modulus(sqrt, re, im) * c(atan2(im, re)) == re && Modulus(sqrt, re, im) * s(atan2(im, re)) == im
  }

  predicate AllEqual(a: seq<real>) {
    |a| > 0 && forall k :: 0 <= k < |a| ==> a[k] == a[0]
  }

  // ------------------------------------------------- the closed form

  lemma Plus(c: real -> real, s: real -> real, x: real, y: real)
    requires Trig(c, s)
    ensures c(x + y) == c(x) * c(y) - s(x) * s(y) && s(x + y) == s(x) * c(y) + c(x) * s(y)
    ensures s(x + y) - s(x - y) == 2.0 * (s(y) * c(x))
  {
    assert Turned(c, s, x, -y) && Turned(c, s, x, y);
    assert c(-y) == c(y) && s(-y) == -s(y) && x - -y == x + y;
    Negate(s(x), s(y));
    Negate(c(x), s(y));
  }

  lemma ThreeTerms(a: real, d: real, x: real, p: real, q: real)
    requires 2.0 * (d * x) == p - q
    ensures 2.0 * d * (a * x) == a * p - a * q
  {
    assert 2.0 * d * (a * x) == a * (2.0 * (d * x));
  }

  /** Twice the sine of half the step, times the sum, is what the ends of the range leave. */
  lemma {:induction false} Telescope(a: seq<real>, c: real -> real, s: real -> real, w: real, h: real, n: nat)
    requires AllEqual(a) && n <= |a| && Trig(c, s)
    ensures 2.0 * s(Angle(w, 0.5)) * Sum(a, c, w, h, 0, n) ==
      a[0] * s(Angle(w, n as real - h - 0.5)) - a[0] * s(Angle(w, 0.0 - h - 0.5))
  {
    hide Angle, Trig;
    if n > 0 {
      Telescope(a, c, s, w, h, n - 1);
      var k := n - 1;
      var x, d := Angle(w, k as real - h), Angle(w, 0.5);
      HalfStepOn(w, k as real - h);
      assert n as real - h - 0.5 == k as real - h + 0.5;
      Plus(c, s, x, d);
      ThreeTerms(a[0], s(d), c(x), s(x + d), s(x - d));
      Distribute(2.0 * s(d), Sum(a, c, w, h, 0, k), Term(a, c, w, h, k));
    }
  }

  lemma HalfStepOn(w: real, x: real)
    ensures Angle(w, x + 0.5) == Angle(w, x) + Angle(w, 0.5) && Angle(w, x - 0.5) == Angle(w, x) - Angle(w, 0.5)
  {
  }

  lemma Distribute(x: real, y: real, z: real)
    ensures x * (y + z) == x * y + x * z
  {
  }

  /** Such a filter is symmetric: where filters are folded first, it never comes here. */
  lemma EqualSymmetric(a: seq<real>)
    requires AllEqual(a)
    ensures Symmetric(a)
  {
  }

  /** The centred sum of equal coefficients, cleared of the quotient. */
  lemma EqualSum(a: seq<real>, c: real -> real, s: real -> real, w: real)
    requires AllEqual(a) && Trig(c, s)
    ensures s(w / 2.0) * Centred(a, c, s, w).0 == s(w / 2.0 * |a| as real) * a[0]
    ensures Centred(a, c, s, w).1 == 0.0
  {
    hide Sum, Symmetric;
    var n, h := |a| as real, Centre(|a|);
    Telescope(a, c, s, w, h, |a|);
    assert n - h - 0.5 == n / 2.0 && 0.0 - h - 0.5 == -(n / 2.0);
    assert Angle(w, 0.5) == w / 2.0 && Angle(w, n / 2.0) == w / 2.0 * n && Angle(w, -(n / 2.0)) == -(w / 2.0 * n);
    assert s(-(w / 2.0 * n)) == -s(w / 2.0 * n);
    EqualSymmetric(a);
    OddPart(a, s, w);
    Negate(a[0], s(w / 2.0 * n));
  }

  /** At zero frequency every coefficient counts in full. */
  lemma {:induction false} ZeroSum(a: seq<real>, c: real -> real, h: real, n: nat)
    requires AllEqual(a) && n <= |a| && c(0.0) == 1.0
    ensures Sum(a, c, 0.0, h, 0, n) == n as real * a[0]
  {
    if n > 0 {
      ZeroSum(a, c, h, n - 1);
      assert Angle(0.0, (n - 1) as real - h) == 0.0;
    }
  }

  /** What the closed form gives; nothing where it divides by zero. */
  datatype Closed = NoNumber | Number(re: real)

  function ClosedForm(n: nat, a: real, s: real -> real, w: real): Closed {
    if w == 0.0 then Number(1.0)
    else if s(w / 2.0) == 0.0 then NoNumber
    else Number(s(w / 2.0 * n as real) / s(w / 2.0) * a)
  }

  /**
    The closed form leaves the gain out. It is the response, gain times centred sum,
    exactly if: at zero frequency, gain and coefficients multiply to 1; elsewhere, where
    it is a number at all, the gain is 1 or the sum vanishes.
  */
  lemma ClosedFormExactly(a: seq<real>, c: real -> real, s: real -> real, w: real, h0: real)
    requires AllEqual(a) && Trig(c, s) && ClosedForm(|a|, a[0], s, w).Number?
    ensures var (re, im) := Centred(a, c, s, w);
      && im * h0 == 0.0
      && (ClosedForm(|a|, a[0], s, w).re == re * h0 <==>
          if w == 0.0 then |a| as real * a[0] * h0 == 1.0 else h0 == 1.0 || s(w / 2.0 * |a| as real) * a[0] == 0.0)
    ensures w != 0.0 ==> ClosedForm(|a|, a[0], s, w).re == Centred(a, c, s, w).0
  {
    hide Sum, Trig;
    EqualSum(a, c, s, w);
    var re := Centred(a, c, s, w).0;
    if w == 0.0 {
      ZeroIs(a, c, s);
    } else {
      Quotient(s(w / 2.0), re, s(w / 2.0 * |a| as real), a[0]);
      TimesOne(re, h0);
      NoFactor(s(w / 2.0), re);
    }
  }

  lemma ZeroIs(a: seq<real>, c: real -> real, s: real -> real)
    requires AllEqual(a) && Trig(c, s)
    ensures Centred(a, c, s, 0.0).0 == |a| as real * a[0]
  {
    ZeroSum(a, c, Centre(|a|), |a|);
  }

  lemma Quotient(d: real, x: real, p: real, a: real)
    requires d != 0.0 && d * x == p * a
    ensures p / d * a == x
  {
    assert p / d * a == p * a / d == d * x / d == x;
  }

  lemma TimesOne(x: real, h: real)
    ensures x == x * h <==> h == 1.0 || x == 0.0
  {
    if x == x * h && x != 0.0 {
      assert x * h / x == h;
    }
  }

  lemma NoFactor(d: real, x: real)
    requires d != 0.0
    ensures d * x == 0.0 <==> x == 0.0
  {
    if d * x == 0.0 {
      assert d * x / d == x;
    }
  }

  // ---------------------------------------------------------- the loops

  /** Modulus and angle, the angle turned on by `y`, and back. */
  lemma TurnedOn(c: real -> real, s: real -> real, sqrt: real -> real, atan2: (real, real) -> real, re: real, im: real, y: real)
    requires Trig(c, s) && Polar(c, s, sqrt, atan2)
    ensures var m, p := Modulus(sqrt, re, im), atan2(im, re) + y;
      m * c(p) == re * c(y) - im * s(y) && m * s(p) == re * s(y) + im * c(y)
  {
    hide Trig, Modulus;
    var m, q := Modulus(sqrt, re, im), atan2(im, re);
    assert m * c(q) == re && m * s(q) == im;
    Plus(c, s, q, y);
    Spread(m, c(q), s(q), c(y), s(y));
  }

  lemma Spread(m: real, cq: real, sq: real, cy: real, sy: real)
    ensures m * (cq * cy - sq * sy) == m * cq * cy - m * sq * sy
    ensures m * (sq * cy + cq * sy) == m * sq * cy + m * cq * sy
  {
  }

  /**
    `fir_asym_trans` at `w` radians a sample, for the functions of C's mathematics
    library given: the gain times the centred sum, or the closed form.
  */
  method AsymTrans(f: Fir, c: real -> real, s: real -> real, sqrt: real -> real, atan2: (real, real) -> real, w: real)
    returns (ok: bool, re: real, im: real)
    requires f.Valid() && Trig(c, s) && Polar(c, s, sqrt, atan2)
    ensures var a := f.coeffs[..f.ncoeffs];
      if AllEqual(a) then
        (ok <==> ClosedForm(|a|, a[0], s, w).Number?) && (ok ==> re == ClosedForm(|a|, a[0], s, w).re && im == 0.0)
      else
        ok && var r := Centred(a, c, s, w); re == r.0 * f.h0 && im == r.1 * f.h0
  {
    hide Trig, Polar, Centred, ClosedForm;
    var na := f.ncoeffs;
    ghost var a := f.coeffs[..na];
    ok, re, im := true, 0.0, 0.0;
    var k := 1;
    while k < na && f.coeffs[k] == f.coeffs[0]
      invariant 1 <= k && (na > 0 ==> k <= na)
      invariant forall j :: 0 <= j < k && j < na ==> a[j] == a[0]
    {
      k := k + 1;
    }
    if k == na {
      assert |a| == na && a[0] == f.coeffs[0];
      ClosedCases(na, f.coeffs[0], s, w);
      if w == 0.0 {
        re := 1.0;
      } else if s(w / 2.0) == 0.0 {
        ok := false;
      } else {
        re := s(w / 2.0 * na as real) / s(w / 2.0) * f.coeffs[0];
      }
      return;
    }
    assert !AllEqual(a) by { if na > 0 { assert a[k] != a[0]; } }
    re, im := AsymSums(f, c, s, sqrt, atan2, w);
  }

  lemma ClosedCases(n: nat, a: real, s: real -> real, w: real)
    ensures w == 0.0 ==> ClosedForm(n, a, s, w) == Number(1.0)
    ensures w != 0.0 && s(w / 2.0) == 0.0 ==> ClosedForm(n, a, s, w) == NoNumber
    ensures w != 0.0 && s(w / 2.0) != 0.0 ==> ClosedForm(n, a, s, w) == Number(s(w / 2.0 * n as real) / s(w / 2.0) * a)
  {
  }

  /** The part of it that adds up the coefficients, and turns the sum by way of modulus and angle. */
  method AsymSums(f: Fir, c: real -> real, s: real -> real, sqrt: real -> real, atan2: (real, real) -> real, w: real)
    returns (re: real, im: real)
    requires f.Valid() && Trig(c, s) && Polar(c, s, sqrt, atan2)
    ensures var r := Centred(f.coeffs[..f.ncoeffs], c, s, w); re == r.0 * f.h0 && im == r.1 * f.h0
  {
    hide Trig, Polar, Sum, Term, Angle, Modulus, Centred;
    var na := f.ncoeffs;
    ghost var a := f.coeffs[..na];
    var r, i := 0.0, 0.0;
    SumNone(a, c, s, w, 0.0);
    for j := 0 to na
      invariant r == Sum(a, c, w, 0.0, 0, j) && i == -Sum(a, s, w, 0.0, 0, j)
    {
      var y := Angle(w, j as real);
      var p, q := f.coeffs[j] * c(y), f.coeffs[j] * -s(y);
      FirstTerm(a, c, s, w, j);
      assert p == Term(a, c, w, 0.0, j) && q == -Term(a, s, w, 0.0, j);
      SumMore(a, c, s, w, 0.0, j);
      r, i := r + p, i + q;
    }
    var y := Angle(w, (na as real - 1.0) / 2.0);
    var mod, pha := Modulus(sqrt, r, i), atan2(i, r) + y;
    TurnedOn(c, s, sqrt, atan2, r, i, y);
    Centres(a, c, s, w);
    re, im := mod * c(pha) * f.h0, mod * s(pha) * f.h0;
  }

  lemma FirstTerm(a: seq<real>, c: real -> real, s: real -> real, w: real, k: nat)
    requires k < |a|
    ensures Term(a, c, w, 0.0, k) == a[k] * c(Angle(w, k as real))
    ensures Term(a, s, w, 0.0, k) == -(a[k] * -s(Angle(w, k as real)))
  {
    hide Angle;
    assert k as real - 0.0 == k as real;
    Negate(a[k], s(Angle(w, k as real)));
  }

  lemma Centres(a: seq<real>, c: real -> real, s: real -> real, w: real)
    requires Trig(c, s)
    ensures var re, im, y := Sum(a, c, w, 0.0, 0, |a|), -Sum(a, s, w, 0.0, 0, |a|), Angle(w, (|a| as real - 1.0) / 2.0);
      Centred(a, c, s, w).0 == re * c(y) - im * s(y) && Centred(a, c, s, w).1 == re * s(y) + im * c(y)
  {
    hide Sum, Angle, Turned;
    RotationCentres(a, c, s, w, Centre(|a|), |a|);
    assert Centre(|a|) == (|a| as real - 1.0) / 2.0;
  }
}
