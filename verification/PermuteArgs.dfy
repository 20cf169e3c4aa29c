/**
  `permute_args`: the exchange of two adjacent blocks of an array, in place, by
  walking gcd-many cycles.
*/
module PermuteArgs {

  // ------------------------------------------------- number theory

  function GcdOf(a: nat, b: nat): (g: nat)
    requires b > 0
    ensures g > 0
    decreases b
  {
    if a % b == 0 then b else GcdOf(b, a % b)
  }

  ghost predicate Divides(d: nat, a: nat)
    requires d > 0
  {
    exists k: nat :: a == k * d
  }

  lemma DividesSum(d: nat, a: nat, b: nat, q: nat)
    requires d > 0 && Divides(d, a) && Divides(d, b)
    ensures Divides(d, q * a + b)
  {
    var i: nat :| a == i * d;
    var j: nat :| b == j * d;
    assert q * a + b == (q * i + j) * d by {
      assert q * (i * d) == (q * i) * d;
    }
  }

  lemma NonNegative(x: int, d: nat)
    requires d > 0 && x * d >= 0
    ensures x >= 0
  {
  }

  lemma DividesRemainder(d: nat, a: nat, b: nat)
    requires d > 0 && b > 0 && Divides(d, a) && Divides(d, b)
    ensures Divides(d, a % b)
  {
    var i: nat :| a == i * d;
    var j: nat :| b == j * d;
    var q := a / b;
    assert a % b == a - q * b;
    assert a - q * b == (i - q * j) * d by {
      assert q * (j * d) == (q * j) * d;
    }
    NonNegative(i - q * j, d);
  }

  /** The result is a common divisor, and every common divisor divides it. */
  lemma {:induction false} GcdIsGreatest(a: nat, b: nat)
    requires b > 0
    ensures Divides(GcdOf(a, b), a) && Divides(GcdOf(a, b), b)
    ensures forall d: nat :: d > 0 && Divides(d, a) && Divides(d, b) ==> Divides(d, GcdOf(a, b))
    decreases b
  {
    if a % b == 0 {
      assert a == (a / b) * b;
      assert b == 1 * b;
    } else {
      var r := a % b;
      GcdIsGreatest(b, r);
      var g := GcdOf(b, r);
      DividesSum(g, b, r, a / b);
      assert (a / b) * b + r == a;
      forall d: nat | d > 0 && Divides(d, a) && Divides(d, b)
        ensures Divides(d, g)
      {
        DividesRemainder(d, a, b);
      }
    }
  }

  /** The result is an integer combination of its arguments. */
  lemma {:induction false} Bezout(a: nat, b: nat) returns (u: int, v: int)
    requires b > 0
    ensures u * a + v * b == GcdOf(a, b)
    decreases b
  {
    if a % b == 0 {
      u, v := 0, 1;
    } else {
      var q, r := a / b, a % b;
      var u', v' := Bezout(b, r);
      u, v := v', u' - v' * q;
      assert a == q * b + r;
      assert v' * a == v' * (q * b) + v' * r;
      assert (u' - v' * q) * b == u' * b - (v' * q) * b;
      assert v' * (q * b) == (v' * q) * b;
    }
  }

  /** `gcd` */
  method Gcd(a0: nat, b0: nat) returns (b: nat)
    requires b0 > 0
    ensures b == GcdOf(a0, b0)
  {
    var a: nat := a0;
    b := b0;
    var c := a % b;
    while c != 0
      invariant b > 0 && c == a % b && GcdOf(a, b) == GcdOf(a0, b0)
      decreases c
    {
      a := b;
      b := c;
      c := a % b;
    }
  }

  // ------------------------------------------------------- the cycles

  /** Where the exchange of a block of `n` and a block of `p` elements moves position `q`. */
  function Step(n: nat, p: nat, q: nat): (r: nat)
    requires q < n + p
    ensures r < n + p
  {
    if q >= n then q - n else q + p
  }

  function Orbit(n: nat, p: nat, q: nat, j: nat): (r: nat)
    requires q < n + p
    ensures r < n + p
  {
    if j == 0 then q else Step(n, p, Orbit(n, p, q, j - 1))
  }

  /** The position after `j` steps, up to a multiple of the whole length. */
  lemma {:induction false} OrbitIs(n: nat, p: nat, q: nat, j: nat) returns (k: int)
    requires q < n + p
    ensures Orbit(n, p, q, j) == q + j * p - k * (n + p)
  {
    if j == 0 {
      k := 0;
    } else {
      k := OrbitIs(n, p, q, j - 1);
      OneMore(j - 1, p);
      OneMore(k, n + p);
      if Orbit(n, p, q, j - 1) >= n {
        k := k + 1;
      }
    }
  }

  lemma OneMore(j: int, p: int)
    ensures (j + 1) * p == j * p + p
  {
  }

  lemma Sign(z: int, m: int)
    requires m > 0
    ensures z >= 1 ==> z * m >= m
    ensures z <= -1 ==> z * m <= 0 - m
  {
  }

  lemma SameResidue(x: nat, y: nat, z: int, m: nat)
    requires x < m && y < m && x - y == z * m
    ensures x == y && z == 0
  {
    Sign(z, m);
  }

  /** The data of one exchange: block lengths, their gcd, and the length of each of its cycles. */
  datatype Blocks = Blocks(n: nat, p: nat, g: nat, cycle: nat) {
    ghost predicate Valid() {
      && n > 0 && p > 0 && g == GcdOf(n, p)
      && n + p == cycle * g && cycle > 0
    }
  }

  lemma MakeBlocks(n: nat, p: nat) returns (b: Blocks)
    requires n > 0 && p > 0
    ensures b == Blocks(n, p, GcdOf(n, p), (n + p) / GcdOf(n, p)) && b.Valid()
    ensures b.g <= n
  {
    var g := GcdOf(n, p);
    GcdIsGreatest(n, p);
    var i: nat :| n == i * g;
    var j: nat :| p == j * g;
    Distribute(i, j, g);
    Quotient(n + p, i + j, g);
    Sign(i, g);
    b := Blocks(n, p, g, i + j);
  }

  lemma Distribute(x: int, y: int, m: int)
    ensures (x + y) * m == x * m + y * m
  {
  }

  lemma Quotient(x: nat, q: nat, m: nat)
    requires m > 0 && x == q * m
    ensures x / m == q
  {
    var d, r := x / m, x % m;
    assert x == d * m + r;
    assert (q - d) * m == q * m - d * m;
    Sign(q - d, m);
  }

  lemma CycleOfP(b: Blocks) returns (pg: nat)
    requires b.Valid()
    ensures b.cycle * b.p == pg * (b.n + b.p)
  {
    GcdIsGreatest(b.n, b.p);
    pg :| b.p == pg * b.g;
    assert b.cycle * (pg * b.g) == pg * (b.cycle * b.g);
  }

  /** After `cycle` steps every position is back. */
  lemma OrbitCloses(b: Blocks, q: nat)
    requires b.Valid() && q < b.n + b.p
    ensures Orbit(b.n, b.p, q, b.cycle) == q
  {
    var m := b.n + b.p;
    var k := OrbitIs(b.n, b.p, q, b.cycle);
    var pg := CycleOfP(b);
    assert pg * m - k * m == (pg - k) * m;
    SameResidue(Orbit(b.n, b.p, q, b.cycle), q, pg - k, m);
  }

  lemma Associate(x: int, y: int, z: int)
    ensures x * (y * z) == (x * y) * z
  {
  }

  /** `x` times a combination of `m` and `p`. */
  lemma Combine(x: int, u: int, w: int, m: int, p: int)
    ensures x * (u * m + w * p) == (x * u) * m + (x * w) * p
  {
    assert x * (u * m + w * p) == x * (u * m) + x * (w * p);
    Associate(x, u, m);
    Associate(x, w, p);
  }

  /** The gcd as a combination of the whole length and the second block's length. */
  lemma BezoutWhole(b: Blocks) returns (u: int, w: int)
    requires b.Valid()
    ensures b.g == u * (b.n + b.p) + w * b.p
  {
    var v;
    u, v := Bezout(b.n, b.p);
    w := v - u;
    assert u * (b.n + b.p) == u * b.n + u * b.p;
    assert (v - u) * b.p == v * b.p - u * b.p;
  }

  /** Not earlier. */
  lemma OrbitOpen(b: Blocks, q: nat, j: nat)
    requires b.Valid() && q < b.n + b.p && 0 < j < b.cycle
    ensures Orbit(b.n, b.p, q, j) != q
  {
    var m := b.n + b.p;
    var k := OrbitIs(b.n, b.p, q, j);
    if j * b.p == k * m {
      var u, w := BezoutWhole(b);
      Combine(j, u, w, m, b.p);
      Rearrange(w, j, b.p, k, m);
      var z := j * u + w * k;
      Distribute(j * u, w * k, m);
      Associate(z, b.cycle, b.g);
      assert j * b.g == (z * b.cycle) * b.g;
      Cancel(j, z * b.cycle, b.g);
      Sign(z, b.cycle);
    }
  }

  lemma Rearrange(w: int, j: int, p: int, k: int, m: int)
    requires j * p == k * m
    ensures (j * w) * p == (w * k) * m
  {
    Associate(w, j, p);
    Associate(w, k, m);
  }

  lemma Cancel(x: int, y: int, g: nat)
    requires g > 0 && x * g == y * g
    ensures x == y
  {
    assert (x - y) * g == x * g - y * g;
    Sign(x - y, g);
  }

  lemma DivMod(x: int, c: nat) returns (h: int, j: nat)
    requires c > 0
    ensures x == h * c + j && j < c && j == x % c
  {
    h, j := x / c, x % c;
  }

  lemma CoverAlgebra(t: int, u: int, w: int, h: int, j: int, cycle: int, p: int, pg: int, m: int, k: int)
    requires t * w == h * cycle + j && cycle * p == pg * m
    ensures t * (u * m + w * p) - (j * p - k * m) == (t * u + h * pg + k) * m
  {
    Combine(t, u, w, m, p);
    Distribute(h * cycle, j, p);
    Associate(h, cycle, p);
    Associate(h, pg, m);
    Distribute(t * u, h * pg, m);
    Distribute(t * u + h * pg, k, m);
  }

  /** Every position that differs from `q` by a multiple of the gcd is reached within one cycle. */
  lemma OrbitCovers(b: Blocks, q: nat, r: nat, t: int) returns (j: nat)
    requires b.Valid() && q < b.n + b.p && r < b.n + b.p && r == q + t * b.g
    ensures j < b.cycle && Orbit(b.n, b.p, q, j) == r
  {
    var u, w := BezoutWhole(b);
    var h;
    h, j := DivMod(t * w, b.cycle);
    var k := OrbitIs(b.n, b.p, q, j);
    var pg := CycleOfP(b);
    CoverAlgebra(t, u, w, h, j, b.cycle, b.p, pg, b.n + b.p, k);
    SameResidue(r, Orbit(b.n, b.p, q, j), t * u + h * pg + k, b.n + b.p);
  }

  /** Positions on a cycle differ by multiples of the gcd. */
  lemma {:induction false} OrbitResidue(b: Blocks, q: nat, j: nat)
    requires b.Valid() && q < b.n + b.p
    ensures Orbit(b.n, b.p, q, j) % b.g == q % b.g
    decreases j
  {
    if j > 0 {
      OrbitResidue(b, q, j - 1);
      StepResidue(b, Orbit(b.n, b.p, q, j - 1));
    }
  }

  lemma StepResidue(b: Blocks, q: nat)
    requires b.Valid() && q < b.n + b.p
    ensures Step(b.n, b.p, q) % b.g == q % b.g
  {
    GcdIsGreatest(b.n, b.p);
    hide Divides;
    DividedResidue(b.g, b.n, q);
    DividedResidue(b.g, b.p, q);
  }

  lemma DividedResidue(d: nat, a: nat, q: int)
    requires d > 0 && Divides(d, a)
    ensures (q + a) % d == q % d && (q - a) % d == q % d
  {
    var k: nat :| a == k * d;
    AddMultiple(q, k, d);
    AddMultiple(q - a, k, d);
  }

  lemma AddMultiple(q: int, i: int, g: nat)
    requires g > 0
    ensures (q + i * g) % g == q % g
  {
    var d, m := q / g, q % g;
    assert q == d * g + m;
    assert q + i * g == (d + i) * g + m;
    QuotientUnique(q + i * g, d + i, m, g);
  }

  lemma QuotientUnique(x: int, d: int, m: int, g: nat)
    requires g > 0 && x == d * g + m && 0 <= m < g
    ensures x % g == m
  {
    var d', m' := x / g, x % g;
    assert (d - d') * g == d * g - d' * g;
    Sign(d - d', g);
  }

  lemma {:induction false} OrbitAdd(n: nat, p: nat, q: nat, i: nat, j: nat)
    requires q < n + p
    ensures Orbit(n, p, q, i + j) == Orbit(n, p, Orbit(n, p, q, i), j)
    decreases j
  {
    if j > 0 {
      OrbitAdd(n, p, q, i, j - 1);
    }
  }

  /** The positions of one cycle are distinct. */
  lemma OrbitDistinct(b: Blocks, q: nat, i: nat, j: nat)
    requires b.Valid() && q < b.n + b.p && i < j < b.cycle
    ensures Orbit(b.n, b.p, q, i) != Orbit(b.n, b.p, q, j)
  {
    OrbitAdd(b.n, b.p, q, i, j - i);
    OrbitOpen(b, Orbit(b.n, b.p, q, i), j - i);
  }

  /** The cycles through `n + i`, `i < g`, meet every position: the one with its residue does. */
  lemma CyclesCover(b: Blocks, i: nat, q: nat) returns (j: nat)
    requires b.Valid() && i < b.g && q < b.n + b.p && q % b.g == i && i < b.p
    ensures j < b.cycle && Orbit(b.n, b.p, b.n + i, j) == q
  {
    CycleStart(b, i);
    var h, _ := DivMod(q, b.g);
    var h', _ := DivMod(b.n + i, b.g);
    Distribute(h - h', h', b.g);
    j := OrbitCovers(b, b.n + i, q, h - h');
  }

  lemma CycleStart(b: Blocks, i: nat)
    requires b.Valid() && i < b.g
    ensures (b.n + i) % b.g == i && b.g <= b.p
  {
    GcdIsGreatest(b.n, b.p);
    hide Divides, Blocks.Valid, GcdOf;
    DividedResidue(b.g, b.n, i);
    SmallResidue(i, b.g);
    DividesAtMost(b.g, b.p);
  }

  lemma SmallResidue(i: nat, g: nat)
    requires i < g
    ensures i % g == i
  {
  }

  lemma DividesAtMost(d: nat, a: nat)
    requires d > 0 && a > 0 && Divides(d, a)
    ensures d <= a
  {
    var k: nat :| a == k * d;
    Sign(k, d);
  }

  // ------------------------------------------------- the blocks' contents

  /** Which cycle a position lies on. */
  function CycleOf(b: Blocks, q: nat): nat
    requires b.g > 0
  {
    q % b.g
  }

  /** The position reached after `k` steps on cycle `i`. */
  function Pos(b: Blocks, i: nat, k: nat): (r: nat)
    requires i < b.p
    ensures r < b.n + b.p
  {
    Orbit(b.n, b.p, b.n + i, k)
  }

  /** The cycles below `i` have been walked: their elements are in place, the others untouched. */
  ghost predicate Walked<T>(b: Blocks, w: seq<T>, was: seq<T>, i: nat)
    requires b.g > 0
  {
    && |w| == |was| == b.n + b.p
    && (forall q: nat :: q < |w| && CycleOf(b, q) < i ==> w[Step(b.n, b.p, q)] == was[q])
    && (forall q: nat :: q < |w| && CycleOf(b, q) >= i ==> w[q] == was[q])
  }

  /** On cycle `i`, `j` swaps have been made. */
  ghost predicate Walking<T>(b: Blocks, w: seq<T>, was: seq<T>, i: nat, j: nat)
    requires i < b.p
  {
    && |w| == |was| == b.n + b.p
    && (forall k: nat :: k < j ==> w[Step(b.n, b.p, Pos(b, i, k))] == was[Pos(b, i, k)])
    && (j < b.cycle ==> w[Pos(b, i, 0)] == was[Pos(b, i, j)])
    && (forall k: nat :: j < k < b.cycle ==> w[Pos(b, i, k)] == was[Pos(b, i, k)])
  }

  /** Positions off cycle `i` are unchanged. */
  ghost predicate KeptOff<T>(b: Blocks, w: seq<T>, before: seq<T>, i: nat)
    requires b.g > 0
  {
    |w| == |before| && forall q: nat :: q < |w| && CycleOf(b, q) != i ==> w[q] == before[q]
  }

  /** The facts about cycle `i` that the swaps rest on. */
  lemma CycleFacts(b: Blocks, i: nat)
    requires b.Valid() && i < b.p && i < b.g
    ensures Pos(b, i, 0) == b.n + i
    ensures forall k: nat :: CycleOf(b, Pos(b, i, k)) == i
    ensures forall k: nat, l: nat :: k < l < b.cycle ==> Pos(b, i, k) != Pos(b, i, l)
    ensures Pos(b, i, b.cycle) == Pos(b, i, 0)
  {
    CycleStart(b, i);
    forall k: nat ensures CycleOf(b, Pos(b, i, k)) == i { OrbitResidue(b, b.n + i, k); }
    forall k: nat, l: nat | k < l < b.cycle ensures Pos(b, i, k) != Pos(b, i, l) { OrbitDistinct(b, b.n + i, k, l); }
    OrbitCloses(b, b.n + i);
  }

  lemma PosNext(b: Blocks, i: nat, k: nat)
    requires i < b.p
    ensures Pos(b, i, k + 1) == Step(b.n, b.p, Pos(b, i, k))
  {
  }

  function Swapped<T>(w: seq<T>, x: nat, y: nat): (r: seq<T>)
    requires x < |w| && y < |w|
    ensures |r| == |w|
  {
    w[x := w[y]][y := w[x]]
  }

  lemma SwapNext<T>(b: Blocks, w: seq<T>, was: seq<T>, i: nat, j: nat)
    requires b.Valid() && i < b.p && i < b.g && j < b.cycle && Walking(b, w, was, i, j)
    ensures Walking(b, Swapped(w, Pos(b, i, j + 1), Pos(b, i, 0)), was, i, j + 1)
  {
    CycleFacts(b, i);
    hide Blocks.Valid, Pos, CycleOf;
    var x, y := Pos(b, i, j + 1), Pos(b, i, 0);
    var w' := Swapped(w, x, y);
    PosNext(b, i, j);
    forall k: nat | k < j + 1
      ensures w'[Step(b.n, b.p, Pos(b, i, k))] == was[Pos(b, i, k)]
    {
      PosNext(b, i, k);
    }
  }

  lemma SameCycle(b: Blocks, q: nat)
    requires b.Valid() && q < b.n + b.p
    ensures b.g > 0 && Step(b.n, b.p, q) < b.n + b.p && CycleOf(b, Step(b.n, b.p, q)) == CycleOf(b, q)
  {
    StepResidue(b, q);
  }

  lemma OnCycle(b: Blocks, i: nat, q: nat) returns (j: nat)
    requires b.Valid() && b.g <= b.n && i < b.g && i < b.p && q < b.n + b.p && CycleOf(b, q) == i
    ensures j < b.cycle && Pos(b, i, j) == q
  {
    j := CyclesCover(b, i, q);
  }

  lemma CycleDone<T>(b: Blocks, before: seq<T>, w: seq<T>, was: seq<T>, i: nat)
    requires b.Valid() && b.g <= b.n && i < b.g && i < b.p
    requires Walked(b, before, was, i) && Walking(b, w, was, i, b.cycle)
    requires KeptOff(b, w, before, i)
    ensures Walked(b, w, was, i + 1)
  {
    hide CycleOf, Pos, Step, Blocks.Valid, GcdOf;
    forall q: nat | q < |w| && CycleOf(b, q) < i + 1
      ensures w[Step(b.n, b.p, q)] == was[q]
    {
      SameCycle(b, q);
      if CycleOf(b, q) == i {
        var j := OnCycle(b, i, q);
      }
    }
  }

  /** Walking all cycles exchanges the blocks. */
  lemma AllWalked<T>(b: Blocks, w: seq<T>, was: seq<T>)
    requires b.Valid() && b.g > 0 && Walked(b, w, was, b.g)
    ensures w == was[b.n..] + was[..b.n]
  {
    hide GcdOf, Blocks.Valid;
    forall r: nat | r < b.n + b.p
      ensures w[r] == if r < b.p then was[b.n + r] else was[r - b.p]
    {
      var q := if r < b.p then b.n + r else r - b.p;
      CycleBelow(b, q);
      StepBack(b, q, r);
    }
  }

  lemma CycleBelow(b: Blocks, q: nat)
    requires b.Valid()
    ensures b.g > 0 && CycleOf(b, q) < b.g
  {
  }

  lemma StepBack(b: Blocks, q: nat, r: nat)
    requires r < b.n + b.p && q == if r < b.p then b.n + r else r - b.p
    ensures Step(b.n, b.p, q) == r
  {
  }

  method SwapAt<T>(nargv: array<T>, i: nat, j: nat)
    requires i < nargv.Length && j < nargv.Length
    modifies nargv
    ensures nargv[..] == Swapped(old(nargv[..]), i, j)
  {
    var swap := nargv[i];
    nargv[i] := nargv[j];
    nargv[j] := swap;
  }

  /** One round of the outer loop: the swaps along cycle `i`. */
  method WalkCycle<T>(nonoptStart: nat, nonoptEnd: nat, optEnd: nat, nargv: array<T>, i: nat, cyclelen: nat,
                      ghost b: Blocks, ghost was: seq<T>)
    requires nonoptStart < nonoptEnd < optEnd <= nargv.Length
    requires b.n == nonoptEnd - nonoptStart && b.p == optEnd - nonoptEnd && cyclelen == b.cycle
    requires b.Valid() && b.g <= b.n && i < b.g
    requires Walked(b, nargv[nonoptStart..optEnd], was, i)
    modifies nargv
    ensures Walked(b, nargv[nonoptStart..optEnd], was, i + 1)
    ensures nargv[..nonoptStart] == old(nargv[..nonoptStart]) && nargv[optEnd..] == old(nargv[optEnd..])
  {
    hide Pos, CycleOf, Walked, Walking, KeptOff, GcdOf, Swapped, Step;
    CycleStart(b, i);
    CycleFacts(b, i);
    var nnonopts := nonoptEnd - nonoptStart;
    var nopts := optEnd - nonoptEnd;
    var cstart := nonoptEnd + i;
    var pos := cstart;
    ghost var before := nargv[nonoptStart..optEnd];
    CycleBegins(b, before, was, i);
    KeptAll(b, before, i);
    for j := 0 to cyclelen
      invariant pos == nonoptStart + Pos(b, i, j)
      invariant Walking(b, nargv[nonoptStart..optEnd], was, i, j)
      invariant KeptOff(b, nargv[nonoptStart..optEnd], before, i)
      invariant nargv[..nonoptStart] == old(nargv[..nonoptStart]) && nargv[optEnd..] == old(nargv[optEnd..])
    {
      ghost var w, all := nargv[nonoptStart..optEnd], nargv[..];
      SwapNext(b, w, was, i, j);
      NextPos(b, i, j);
      if pos >= nonoptEnd {
        pos := pos - nnonopts;
      } else {
        pos := pos + nopts;
      }
      SwapAt(nargv, pos, cstart);
      SwapSlice(all, nonoptStart, optEnd, pos, cstart);
      SwapKeeps(b, w, before, i, j);
    }
    CycleDone(b, before, nargv[nonoptStart..optEnd], was, i);
  }

  lemma KeptAll<T>(b: Blocks, w: seq<T>, i: nat)
    requires b.g > 0
    ensures KeptOff(b, w, w, i)
  {
  }

  lemma SwapKeeps<T>(b: Blocks, w: seq<T>, before: seq<T>, i: nat, j: nat)
    requires b.Valid() && i < b.p && i < b.g && |w| == b.n + b.p && KeptOff(b, w, before, i)
    ensures KeptOff(b, Swapped(w, Pos(b, i, j + 1), Pos(b, i, 0)), before, i)
  {
    CycleFacts(b, i);
    hide Pos, CycleOf, Blocks.Valid;
  }

  /** A swap inside a slice leaves what is outside. */
  lemma SwapSlice<T>(w: seq<T>, lo: nat, hi: nat, x: nat, y: nat)
    requires lo <= x < hi <= |w| && lo <= y < hi
    ensures Swapped(w, x, y)[lo..hi] == Swapped(w[lo..hi], x - lo, y - lo)
    ensures Swapped(w, x, y)[..lo] == w[..lo] && Swapped(w, x, y)[hi..] == w[hi..]
  {
  }

  lemma NextPos(b: Blocks, i: nat, j: nat)
    requires i < b.p
    ensures Pos(b, i, j + 1) == if Pos(b, i, j) >= b.n then Pos(b, i, j) - b.n else Pos(b, i, j) + b.p
  {
  }

  /**
    `permute_args`: exchanges the block from `nonoptStart` to `nonoptEnd` with the
    block from there to `optEnd`, keeping the order in each.
  */
  method Permute<T>(nonoptStart: nat, nonoptEnd: nat, optEnd: nat, nargv: array<T>)
    requires nonoptStart < nonoptEnd < optEnd <= nargv.Length
    modifies nargv
    ensures nargv[..] == old(nargv[..nonoptStart] + nargv[nonoptEnd..optEnd] + nargv[nonoptStart..nonoptEnd] + nargv[optEnd..])
  {
    hide Walked, GcdOf, Blocks.Valid, Step, CycleOf;
    var nnonopts := nonoptEnd - nonoptStart;
    var nopts := optEnd - nonoptEnd;
    var ncycle := Gcd(nnonopts, nopts);
    var cyclelen := (optEnd - nonoptStart) / ncycle;
    ghost var b := MakeBlocks(nnonopts, nopts);
    ghost var all := nargv[..];
    ghost var was := nargv[nonoptStart..optEnd];
    WalkStart(b, was);
    for i := 0 to ncycle
      invariant Walked(b, nargv[nonoptStart..optEnd], was, i)
      invariant nargv[..nonoptStart] == all[..nonoptStart] && nargv[optEnd..] == all[optEnd..]
    {
      WalkCycle(nonoptStart, nonoptEnd, optEnd, nargv, i, cyclelen, b, was);
    }
    AllWalked(b, nargv[nonoptStart..optEnd], was);
    ghost var v := nargv[..];
    assert v[..nonoptStart] == nargv[..nonoptStart] && v[optEnd..] == nargv[optEnd..];
    assert v[nonoptStart..optEnd] == nargv[nonoptStart..optEnd] && all[nonoptStart..optEnd] == was;
    Glue(v, all, nonoptStart, nonoptEnd, optEnd);
  }

  lemma Glue<T>(v: seq<T>, all: seq<T>, s: nat, m: nat, e: nat)
    requires s < m < e <= |v| == |all| && v[..s] == all[..s] && v[e..] == all[e..]
    requires var was := all[s..e]; v[s..e] == was[m - s..] + was[..m - s]
    ensures v == all[..s] + all[m..e] + all[s..m] + all[e..]
  {
    assert all[s..e][m - s..] == all[m..e] && all[s..e][..m - s] == all[s..m];
    assert v == v[..s] + v[s..e] + v[e..];
  }

  lemma WalkStart<T>(b: Blocks, was: seq<T>)
    requires b.Valid() && |was| == b.n + b.p
    ensures Walked(b, was, was, 0)
  {
  }

  lemma CycleBegins<T>(b: Blocks, before: seq<T>, was: seq<T>, i: nat)
    requires b.Valid() && i < b.p && i < b.g && Walked(b, before, was, i)
    ensures Walking(b, before, was, i, 0)
  {
    CycleFacts(b, i);
    hide Pos, CycleOf;
  }
}
