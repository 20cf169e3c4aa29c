/**
  The nodes of Mini-XML trees and, beside their links, the abstract forest the
  links stand for: the child sequence of every node.
*/
module MxmlForest {
  import opened Basics
  import opened MxmlAttr

  /** What a node holds besides its links. */
  datatype Value =
    | Element(name: seq<byte>, attrs: seq<Attr>)
    | Opaque(text: seq<byte>)

  class Node {
    const value: Value
    var next: Node?
    var prev: Node?
    var parent: Node?
    var child: Node?
    var lastChild: Node?
    var refCount: int
    /** Not yet handed to `free`. */
    ghost var alive: bool

    /** A node with no links, as `calloc` leaves it. */
    constructor (value: Value)
      ensures this.value == value && alive && refCount == 1
      ensures next == null && prev == null && parent == null && child == null && lastChild == null
    {
      this.value := value;
      next, prev, parent, child, lastChild := null, null, null, null, null;
      refCount := 1;
      alive := true;
    }
  }

  // ------------------------------------------------------------ siblings

  /** The position of `n`; the length of `s` where it does not occur. */
  function Pos(s: seq<Node>, n: Node): (k: nat)
    ensures k <= |s| && (k < |s| ==> s[k] == n) && (k == |s| ==> n !in s)
    ensures forall j :: 0 <= j < k ==> s[j] != n
  {
    if |s| == 0 || s[0] == n then 0 else 1 + Pos(s[1..], n)
  }

  ghost predicate Distinct(s: seq<Node>) {
    forall i, j :: 0 <= i < j < |s| ==> s[i] != s[j]
  }

  lemma PosIs(s: seq<Node>, k: nat)
    requires Distinct(s) && k < |s|
    ensures Pos(s, s[k]) == k
  {
  }

  function Nth(s: seq<Node>, k: int): Node? {
    if 0 <= k < |s| then s[k] else null
  }

  function First(s: seq<Node>): Node? {
    Nth(s, 0)
  }

  function Last(s: seq<Node>): Node? {
    Nth(s, |s| - 1)
  }

  /** The neighbours of `n` in `s`. */
  function Before(s: seq<Node>, n: Node): Node? {
    Nth(s, Pos(s, n) - 1)
  }

  function Behind(s: seq<Node>, n: Node): Node? {
    Nth(s, Pos(s, n) + 1)
  }

  function Without(s: seq<Node>, n: Node): (r: seq<Node>) {
    var k := Pos(s, n);
    if k == |s| then s else s[..k] + s[k + 1..]
  }

  function Inserted(s: seq<Node>, k: nat, n: Node): seq<Node>
    requires k <= |s|
  {
    s[..k] + [n] + s[k..]
  }

  /** Taking `n` out joins its neighbours and nothing else. */
  lemma WithoutLinks(s: seq<Node>, n: Node)
    requires Distinct(s) && n in s
    ensures var r := Without(s, n);
      && Distinct(r) && n !in r && (forall m :: m in s && m != n <==> m in r)
      && First(r) == (if Before(s, n) == null then Behind(s, n) else First(s))
      && Last(r) == (if Behind(s, n) == null then Before(s, n) else Last(s))
      && forall m :: m in r ==>
        && Before(r, m) == (if m == Behind(s, n) then Before(s, n) else Before(s, m))
        && Behind(r, m) == (if m == Before(s, n) then Behind(s, n) else Behind(s, m))
  {
    WithoutHas(s, n);
    var r, k := Without(s, n), Pos(s, n);
    forall m | m in r
      ensures Before(r, m) == (if m == Behind(s, n) then Before(s, n) else Before(s, m))
      ensures Behind(r, m) == (if m == Before(s, n) then Behind(s, n) else Behind(s, m))
    {
      WithoutNeighbors(s, n, Pos(r, m));
    }
    hide Pos, Distinct;
    assert forall j :: 0 <= j < |r| ==> r[j] == s[if j < k then j else j + 1];
  }

  lemma WithoutHas(s: seq<Node>, n: Node)
    requires Distinct(s) && n in s
    ensures var r := Without(s, n); Distinct(r) && n !in r && forall m :: m in s && m != n <==> m in r
  {
    var r, k := Without(s, n), Pos(s, n);
    assert forall j :: 0 <= j < |r| ==> r[j] == s[if j < k then j else j + 1];
    forall m | m in s && m != n ensures m in r {
      var j := Pos(s, m);
      assert r[if j < k then j else j - 1] == m;
    }
  }

  lemma WithoutOnly(s: seq<Node>, n: Node, c: Node)
    requires Distinct(s) && n in s && c in Without(s, n)
    ensures c in s && c != n
  {
    WithoutHas(s, n);
    var r, k := Without(s, n), Pos(s, n);
    var j :| 0 <= j < |r| && r[j] == c;
    assert r[j] == s[if j < k then j else j + 1];
  }

  lemma WithoutNeighbors(s: seq<Node>, n: Node, j: nat)
    requires Distinct(s) && n in s && j < |Without(s, n)|
    ensures var r := Without(s, n);
      && Before(r, r[j]) == (if r[j] == Behind(s, n) then Before(s, n) else Before(s, r[j]))
      && Behind(r, r[j]) == (if r[j] == Before(s, n) then Behind(s, n) else Behind(s, r[j]))
  {
    WithoutHas(s, n);
    var r, k := Without(s, n), Pos(s, n);
    var j' := if j < k then j else j + 1;
    WithoutNth(s, n, j);
    WithoutNth(s, n, j as int - 1);
    WithoutNth(s, n, j as int + 1);
    hide Pos, Before, Behind, Without, Nth, Distinct;
    NeighborsAt(r, j);
    NeighborsAt(s, j');
    NeighborsAt(s, k);
    OneNth(s, j', k as int + 1);
    OneNth(s, j', k as int - 1);
  }

  lemma WithoutNth(s: seq<Node>, n: Node, i: int)
    requires n in s && -1 <= i < |s|
    ensures var k := Pos(s, n); Nth(Without(s, n), i) == Nth(s, if i < k then i else i + 1)
    ensures 0 <= i < |s| - 1 ==> Without(s, n)[i] == s[if i < Pos(s, n) then i else i + 1]
  {
    hide Pos;
  }

  lemma OneNth(s: seq<Node>, i: nat, j: int)
    requires Distinct(s) && i < |s|
    ensures Nth(s, j) == s[i] <==> j == i
  {
  }

  lemma NeighborsAt(s: seq<Node>, k: nat)
    requires Distinct(s) && k < |s|
    ensures Pos(s, s[k]) == k && Before(s, s[k]) == Nth(s, k - 1) && Behind(s, s[k]) == Nth(s, k + 1)
  {
    PosIs(s, k);
  }

  lemma InsertedDistinct(s: seq<Node>, k: nat, n: Node)
    requires Distinct(s) && n !in s && k <= |s|
    ensures Distinct(Inserted(s, k, n))
  {
    var r := Inserted(s, k, n);
    assert forall j :: 0 <= j < |r| ==> r[j] == if j < k then s[j] else if j == k then n else s[j - 1];
  }

  lemma InsertedNeighbors(s: seq<Node>, k: nat, n: Node, j: nat)
    requires Distinct(s) && n !in s && k <= |s| && j < |s|
    ensures var r := Inserted(s, k, n);
      && Before(r, s[j]) == (if s[j] == Nth(s, k) then n else Before(s, s[j]))
      && Behind(r, s[j]) == (if s[j] == Nth(s, k - 1) then n else Behind(s, s[j]))
  {
    hide Pos, Before, Behind;
    var r := Inserted(s, k, n);
    InsertedDistinct(s, k, n);
    var j' := if j < k then j else j + 1;
    assert r[j'] == s[j];
    NeighborsAt(r, j');
    NeighborsAt(s, j);
    hide Distinct;
    if k < |s| { PosIs(s, k); }
    if 0 < k { PosIs(s, k - 1); }
  }

  /** Putting `n` in at `k` links it with the nodes on both sides and changes nothing else. */
  lemma InsertedLinks(s: seq<Node>, k: nat, n: Node)
    requires Distinct(s) && n !in s && k <= |s|
    ensures var r, before, behind := Inserted(s, k, n), Nth(s, k - 1), Nth(s, k);
      && Distinct(r) && (forall m :: m in r <==> m in s || m == n)
      && First(r) == (if k == 0 then n else First(s))
      && Last(r) == (if k == |s| then n else Last(s))
      && Before(r, n) == before && Behind(r, n) == behind
      && forall m :: m in s ==>
        && Before(r, m) == (if m == behind then n else Before(s, m))
        && Behind(r, m) == (if m == before then n else Behind(s, m))
  {
    var r := Inserted(s, k, n);
    assert forall j :: 0 <= j < |r| ==> r[j] == if j < k then s[j] else if j == k then n else s[j - 1];
    forall m | m in s ensures m in r {
      var j := Pos(s, m);
      assert r[if j < k then j else j + 1] == m;
    }
    InsertedDistinct(s, k, n);
    PosIs(r, k);
    hide Pos, Distinct;
    forall m | m in s
      ensures Before(r, m) == (if m == Nth(s, k) then n else Before(s, m))
      ensures Behind(r, m) == (if m == Nth(s, k - 1) then n else Behind(s, m))
    {
      InsertedNeighbors(s, k, n, Pos(s, m));
    }
  }

  // ------------------------------------------------------------- forests

  /** Children of each node, parent of each node that has one, and a measure that falls from parent to child. */
  datatype Forest = Forest(kids: map<Node, seq<Node>>, par: map<Node, Node>, rank: map<Node, nat>)

  ghost predicate Wf(f: Forest) {
    && f.rank.Keys == f.kids.Keys && f.par.Keys <= f.kids.Keys
    && (forall p :: p in f.kids ==> Distinct(f.kids[p]))
    && (forall p, c :: p in f.kids && c in f.kids[p] ==> c in f.par && f.par[c] == p)
    && (forall c :: c in f.par ==> f.par[c] in f.kids && c in f.kids[f.par[c]] && f.rank[c] < f.rank[f.par[c]])
  }

  lemma Ranked(f: Forest, n: Node)
    requires Wf(f) && n in f.kids
    ensures n in f.rank
  {
  }

  /** How far `n` is below `top`, at most. */
  ghost function Gap(f: Forest, top: Node, n: Node): int
    requires Wf(f) && top in f.kids && n in f.kids
  {
    f.rank[top] as int - f.rank[n] as int
  }

  ghost function Kid(f: Forest, p: Node, i: nat): (c: Node)
    requires Wf(f) && p in f.kids && i < |f.kids[p]|
    ensures c in f.par && f.par[c] == p && c in f.kids && f.rank[c] < f.rank[p] && c in f.kids[p]
  {
    f.kids[p][i]
  }

  /** `n` is `top` or below it. */
  ghost predicate Within(f: Forest, top: Node, n: Node)
    requires Wf(f) && top in f.kids && n in f.kids
    decreases Gap(f, top, n)
  {
    n == top || (n in f.par && f.rank[n] < f.rank[top] && Within(f, top, f.par[n]))
  }

  /** The nodes at and below `n` in document order, and the last children of `n` from the `i`-th on. */
  ghost function Pre(f: Forest, n: Node): seq<Node>
    requires Wf(f) && n in f.kids
    decreases f.rank[n], |f.kids[n]| + 1
  {
    [n] + PreFrom(f, n, 0)
  }

  ghost function PreFrom(f: Forest, n: Node, i: nat): seq<Node>
    requires Wf(f) && n in f.kids && i <= |f.kids[n]|
    decreases f.rank[n], |f.kids[n]| - i
  {
    if i == |f.kids[n]| then [] else Pre(f, Kid(f, n, i)) + PreFrom(f, n, i + 1)
  }

  /** The same with every node after its children. */
  ghost function Post(f: Forest, n: Node): seq<Node>
    requires Wf(f) && n in f.kids
    decreases f.rank[n], |f.kids[n]| + 1
  {
    PostFrom(f, n, 0) + [n]
  }

  ghost function PostFrom(f: Forest, n: Node, i: nat): seq<Node>
    requires Wf(f) && n in f.kids && i <= |f.kids[n]|
    decreases f.rank[n], |f.kids[n]| - i
  {
    if i == |f.kids[n]| then [] else Post(f, Kid(f, n, i)) + PostFrom(f, n, i + 1)
  }

  /** The children of the parent of `n`. */
  ghost function Siblings(f: Forest, n: Node): (s: seq<Node>)
    requires Wf(f) && n in f.par
    ensures n in s && Distinct(s)
  {
    f.kids[f.par[n]]
  }

  // -------------------------------------------------- what lies below

  lemma {:induction false} WithinTrans(f: Forest, a: Node, b: Node, n: Node)
    requires Wf(f) && a in f.kids && b in f.kids && n in f.kids && Within(f, a, b) && Within(f, b, n)
    ensures Within(f, a, n)
    decreases Gap(f, b, n)
  {
    if n != b {
      WithinTrans(f, a, b, f.par[n]);
      WithinRank(f, a, f.par[n]);
    }
  }

  lemma WithinRank(f: Forest, a: Node, n: Node)
    requires Wf(f) && a in f.kids && n in f.kids && Within(f, a, n)
    ensures f.rank[n] <= f.rank[a] && (n != a ==> f.rank[n] < f.rank[a])
  {
  }

  /** Two nodes above the same one are above each other. */
  lemma {:induction false} WithinLine(f: Forest, a: Node, b: Node, n: Node)
    requires Wf(f) && a in f.kids && b in f.kids && n in f.kids && Within(f, a, n) && Within(f, b, n)
    ensures Within(f, a, b) || Within(f, b, a)
    decreases Gap(f, a, n)
  {
    if n != a && n != b {
      WithinLine(f, a, b, f.par[n]);
    }
  }

  /** The parts below two children of one node have nothing in common. */
  lemma {:induction false} ChildrenApart(f: Forest, p: Node, c: Node, c': Node, n: Node)
    requires Wf(f) && p in f.kids && c in f.kids[p] && c' in f.kids[p] && n in f.kids
    requires Within(f, c, n) && Within(f, c', n)
    ensures c == c'
  {
    WithinLine(f, c, c', n);
    if c != c' {
      assert f.par[c] == p && f.par[c'] == p;
      if Within(f, c, c') {
        WithinRank(f, c, p);
      } else {
        WithinRank(f, c', p);
      }
    }
  }

  /** Which child of `p` a node below it is at or below. */
  lemma {:induction false} ChildAbove(f: Forest, p: Node, n: Node) returns (i: nat)
    requires Wf(f) && p in f.kids && n in f.kids && Within(f, p, n) && n != p
    ensures i < |f.kids[p]| && Within(f, Kid(f, p, i), n)
    decreases Gap(f, p, n)
  {
    if f.par[n] == p {
      i := Pos(f.kids[p], n);
    } else {
      i := ChildAbove(f, p, f.par[n]);
      WithinRank(f, Kid(f, p, i), f.par[n]);
    }
  }

  /** `Pre` lists exactly the nodes at and below. */
  lemma {:induction false} PreHas(f: Forest, n: Node, m: Node)
    requires Wf(f) && n in f.kids
    ensures m in Pre(f, n) <==> m in f.kids && Within(f, n, m)
    decreases f.rank[n], |f.kids[n]| + 1
  {
    PreFromHas(f, n, 0, m);
    if m in f.kids && Within(f, n, m) && m != n {
      var i := ChildAbove(f, n, m);
      assert Below(f, n, 0, m);
    }
    if Below(f, n, 0, m) {
      var i: nat :| i < |f.kids[n]| && Within(f, Kid(f, n, i), m);
      WithinTrans(f, n, Kid(f, n, i), m);
    }
  }

  ghost predicate Below(f: Forest, n: Node, i: nat, m: Node)
    requires Wf(f) && n in f.kids && i <= |f.kids[n]|
  {
    m in f.kids && exists j: nat :: i <= j < |f.kids[n]| && Within(f, Kid(f, n, j), m)
  }

  lemma {:induction false} PreFromHas(f: Forest, n: Node, i: nat, m: Node)
    requires Wf(f) && n in f.kids && i <= |f.kids[n]|
    ensures m in PreFrom(f, n, i) <==> Below(f, n, i, m)
    decreases f.rank[n], |f.kids[n]| - i
  {
    if i < |f.kids[n]| {
      PreHas(f, Kid(f, n, i), m);
      PreFromHas(f, n, i + 1, m);
    }
  }

  lemma DistinctJoin(s: seq<Node>, t: seq<Node>)
    requires Distinct(s) && Distinct(t) && forall m :: m in s ==> m !in t
    ensures Distinct(s + t)
  {
    forall i, j | 0 <= i < j < |s + t| ensures (s + t)[i] != (s + t)[j] {
      if i < |s| <= j {
        assert s[i] in s && t[j - |s|] in t;
      }
    }
  }

  /** No node is listed twice. */
  lemma {:induction false} PreDistinct(f: Forest, n: Node)
    requires Wf(f) && n in f.kids
    ensures Distinct(Pre(f, n))
    decreases f.rank[n], |f.kids[n]| + 1
  {
    PreFromDistinct(f, n, 0);
    PreFromHas(f, n, 0, n);
    DistinctJoin([n], PreFrom(f, n, 0));
  }

  lemma PreFromMore(f: Forest, p: Node, i: nat)
    requires Wf(f) && p in f.kids && i <= |f.kids[p]|
    ensures PreFrom(f, p, i) == if i == |f.kids[p]| then [] else Pre(f, Kid(f, p, i)) + PreFrom(f, p, i + 1)
  {
  }

  lemma PostFromMore(f: Forest, p: Node, i: nat)
    requires Wf(f) && p in f.kids && i <= |f.kids[p]|
    ensures PostFrom(f, p, i) == if i == |f.kids[p]| then [] else Post(f, Kid(f, p, i)) + PostFrom(f, p, i + 1)
  {
  }

  /** No node at or below a child is below a later one. */
  lemma {:induction false} ApartFrom(f: Forest, n: Node, i: nat)
    requires Wf(f) && n in f.kids && i < |f.kids[n]|
    ensures forall m :: m in Pre(f, Kid(f, n, i)) ==> m !in PreFrom(f, n, i + 1)
  {
    hide Wf, Pre, PreFrom, Within, Distinct;
    var c := Kid(f, n, i);
    forall m | m in Pre(f, c) ensures m !in PreFrom(f, n, i + 1) {
      PreHas(f, c, m);
      PreFromHas(f, n, i + 1, m);
      if Below(f, n, i + 1, m) {
        var j: nat :| i + 1 <= j < |f.kids[n]| && Within(f, Kid(f, n, j), m);
        KidsDiffer(f, n, i, j);
        ChildrenApart(f, n, c, Kid(f, n, j), m);
      }
    }
  }

  lemma KidsDiffer(f: Forest, n: Node, i: nat, j: nat)
    requires Wf(f) && n in f.kids && i < j < |f.kids[n]|
    ensures Kid(f, n, i) != Kid(f, n, j)
  {
  }

  lemma NoneDistinct()
    ensures Distinct([])
  {
  }

  lemma {:induction false} PreFromDistinct(f: Forest, n: Node, i: nat)
    requires Wf(f) && n in f.kids && i <= |f.kids[n]|
    ensures Distinct(PreFrom(f, n, i))
    decreases f.rank[n], |f.kids[n]| - i
  {
    hide Wf, Pre, PreFrom, Distinct;
    Ranked(f, n);
    PreFromMore(f, n, i);
    if i < |f.kids[n]| {
      PreDistinct(f, Kid(f, n, i));
      PreFromDistinct(f, n, i + 1);
      ApartFrom(f, n, i);
      DistinctJoin(Pre(f, Kid(f, n, i)), PreFrom(f, n, i + 1));
    } else {
      NoneDistinct();
    }
  }

  /** The two orders list the same nodes. */
  lemma {:induction false} PostIsPre(f: Forest, n: Node)
    requires Wf(f) && n in f.kids
    ensures multiset(Post(f, n)) == multiset(Pre(f, n))
    decreases f.rank[n], |f.kids[n]| + 1
  {
    PostFromIsPre(f, n, 0);
  }

  lemma SameJoined(a: seq<Node>, b: seq<Node>, c: seq<Node>, d: seq<Node>)
    requires multiset(a) == multiset(c) && multiset(b) == multiset(d)
    ensures multiset(a + b) == multiset(c + d)
  {
  }

  lemma {:induction false} PostFromIsPre(f: Forest, n: Node, i: nat)
    requires Wf(f) && n in f.kids && i <= |f.kids[n]|
    ensures multiset(PostFrom(f, n, i)) == multiset(PreFrom(f, n, i))
    decreases f.rank[n], |f.kids[n]| - i
  {
    hide *;
    Ranked(f, n);
    PreFromMore(f, n, i);
    PostFromMore(f, n, i);
    if i < |f.kids[n]| {
      PostIsPre(f, Kid(f, n, i));
      PostFromIsPre(f, n, i + 1);
      SameJoined(Post(f, Kid(f, n, i)), PostFrom(f, n, i + 1), Pre(f, Kid(f, n, i)), PreFrom(f, n, i + 1));
    }
  }

  lemma DistinctMultiset(s: seq<Node>, t: seq<Node>)
    requires Distinct(s) && multiset(s) == multiset(t)
    ensures Distinct(t) && (forall m :: m in s ==> m in t) && forall i :: 0 <= i < |t| ==> t[i] in s
  {
    forall m | m in s ensures m in t {
      assert m in multiset(t);
    }
    forall i | 0 <= i < |t| ensures t[i] in s {
      assert t[i] in multiset(s);
    }
    if i, j :| 0 <= i < j < |t| && t[i] == t[j] {
      var m := t[i];
      assert t == t[..j] + [t[j]] + t[j + 1..];
      assert multiset(t)[m] >= multiset(t[..j])[m] + 1;
      assert m in t[..j];
      OnceEach(s, m);
    }
  }

  lemma {:induction false} OnceEach(s: seq<Node>, m: Node)
    requires Distinct(s)
    ensures multiset(s)[m] <= 1
  {
    if |s| > 0 {
      OnceEach(s[1..], m);
      assert s == [s[0]] + s[1..];
    }
  }

  /** `Post` lists exactly the nodes at and below, each once. */
  lemma PostLists(f: Forest, n: Node)
    requires Wf(f) && n in f.kids
    ensures Distinct(Post(f, n))
    ensures forall i :: 0 <= i < |Post(f, n)| ==> Post(f, n)[i] in f.kids && Within(f, n, Post(f, n)[i])
    ensures forall m :: m in f.kids && Within(f, n, m) ==> m in Post(f, n)
  {
    PostIsPre(f, n);
    PreDistinct(f, n);
    DistinctMultiset(Pre(f, n), Post(f, n));
    forall m | m in f.kids && Within(f, n, m) ensures m in Post(f, n) {
      PreHas(f, n, m);
    }
    forall i | 0 <= i < |Post(f, n)| ensures Post(f, n)[i] in f.kids && Within(f, n, Post(f, n)[i]) {
      PreHas(f, n, Post(f, n)[i]);
    }
  }

  lemma SliceBehind(s: seq<Node>, t: seq<Node>, a: nat, b: nat)
    requires a <= b <= |t|
    ensures (s + t)[|s| + a..|s| + b] == t[a..b]
  {
  }

  lemma PostAt(f: Forest, n: Node, i: nat)
    requires Wf(f) && n in f.kids && i < |PostFrom(f, n, 0)|
    ensures |Post(f, n)| == |PostFrom(f, n, 0)| + 1 && Post(f, n)[|PostFrom(f, n, 0)|] == n
    ensures Post(f, n)[i] == PostFrom(f, n, 0)[i]
  {
    hide PostFrom;
  }

  lemma PostEnd(f: Forest, n: Node)
    requires Wf(f) && n in f.kids
    ensures |Post(f, n)| == |PostFrom(f, n, 0)| + 1 && Post(f, n)[|PostFrom(f, n, 0)|] == n
  {
    hide PostFrom;
  }

  lemma InSlice(s: seq<Node>, a: nat, k: seq<Node>, i: nat)
    requires a + |k| <= |s| && s[a..a + |k|] == k && i < |k|
    ensures s[a + i] == k[i]
  {
    assert s[a..a + |k|][i] == s[a + i];
  }

  /** Where the nodes of the `j`-th child stand in the list of the whole. */
  lemma {:induction false} PostPart(f: Forest, n: Node, i: nat, j: nat) returns (a: nat)
    requires Wf(f) && n in f.kids && i <= j < |f.kids[n]|
    ensures var k := Post(f, Kid(f, n, j)); a + |k| <= |PostFrom(f, n, i)| && PostFrom(f, n, i)[a..a + |k|] == k
    decreases j - i
  {
    hide Wf, Distinct, Post, PostFrom;
    PostFromMore(f, n, i);
    if i == j {
      a := 0;
    } else {
      a := PostPart(f, n, i + 1, j);
      var len := |Post(f, Kid(f, n, j))|;
      SliceBehind(Post(f, Kid(f, n, i)), PostFrom(f, n, i + 1), a, a + len);
      a := a + |Post(f, Kid(f, n, i))|;
    }
  }

  /** The nodes below an earlier child are listed before those below a later one. */
  lemma {:induction false} PostSiblings(f: Forest, n: Node, i: nat, j: nat, k: nat) returns (a: nat, b: nat)
    requires Wf(f) && n in f.kids && i <= j < k < |f.kids[n]|
    ensures var s, p, q := PostFrom(f, n, i), Post(f, Kid(f, n, j)), Post(f, Kid(f, n, k));
      && a + |p| <= b && b + |q| <= |s| && s[a..a + |p|] == p && s[b..b + |q|] == q
    decreases j - i
  {
    hide Wf, Distinct, Post, PostFrom;
    PostFromMore(f, n, i);
    var head, rest := Post(f, Kid(f, n, i)), PostFrom(f, n, i + 1);
    var p, q := Post(f, Kid(f, n, j)), Post(f, Kid(f, n, k));
    if i == j {
      b := PostPart(f, n, i + 1, k);
      a := 0;
      assert (head + rest)[..|head|] == head;
    } else {
      a, b := PostSiblings(f, n, i + 1, j, k);
      SliceBehind(head, rest, a, a + |p|);
      a := a + |head|;
    }
    SliceBehind(head, rest, b, b + |q|);
    b := b + |head|;
  }

  /** Every node is listed before its parent. */
  lemma {:induction false} PostOrder(f: Forest, n: Node, c: Node) returns (i: nat, j: nat)
    requires Wf(f) && n in f.kids && c in f.kids && Within(f, n, c) && c != n
    ensures i < j < |Post(f, n)| && Post(f, n)[i] == c && Post(f, n)[j] == f.par[c]
    decreases f.rank[n]
  {
    hide *;
    Ranked(f, n);
    var q := ChildAbove(f, n, c);
    var k := Kid(f, n, q);
    var a := PostPart(f, n, 0, q);
    PostEnd(f, n);
    PostEnd(f, k);
    if c == k {
      i, j := |PostFrom(f, k, 0)|, |PostFrom(f, n, 0)|;
      InSlice(PostFrom(f, n, 0), a, Post(f, k), i);
      i := a + i;
      PostAt(f, n, i);
    } else {
      i, j := PostOrder(f, k, c);
      InSlice(PostFrom(f, n, 0), a, Post(f, k), i);
      InSlice(PostFrom(f, n, 0), a, Post(f, k), j);
      i, j := a + i, a + j;
      PostAt(f, n, i);
      PostAt(f, n, j);
    }
  }

  // -------------------------------------------- positions in document order

  /** What follows `n` and everything below it, up to the end of `top`. */
  ghost function After(f: Forest, top: Node, n: Node): seq<Node>
    requires Wf(f) && top in f.kids && n in f.kids && Within(f, top, n)
    decreases Gap(f, top, n)
  {
    if n == top then [] else PreFrom(f, f.par[n], Pos(Siblings(f, n), n) + 1) + After(f, top, f.par[n])
  }

  /** What precedes `n`, from `top` on. */
  ghost function Upto(f: Forest, top: Node, n: Node): seq<Node>
    requires Wf(f) && top in f.kids && n in f.kids && Within(f, top, n)
    decreases Gap(f, top, n)
  {
    if n == top then [] else Upto(f, top, f.par[n]) + [f.par[n]] + PreTo(f, f.par[n], Pos(Siblings(f, n), n))
  }

  /** The nodes at and below the first `i` children. */
  ghost function PreTo(f: Forest, n: Node, i: nat): seq<Node>
    requires Wf(f) && n in f.kids && i <= |f.kids[n]|
  {
    if i == 0 then [] else PreTo(f, n, i - 1) + Pre(f, Kid(f, n, i - 1))
  }

  lemma {:induction false} PreSplit(f: Forest, n: Node, i: nat)
    requires Wf(f) && n in f.kids && i <= |f.kids[n]|
    ensures PreFrom(f, n, 0) == PreTo(f, n, i) + PreFrom(f, n, i)
    decreases i
  {
    hide Wf, Distinct;
    if i > 0 {
      PreSplit(f, n, i - 1);
      assert PreFrom(f, n, i - 1) == Pre(f, Kid(f, n, i - 1)) + PreFrom(f, n, i);
    }
  }

  /** Where a node and what is below it stand in document order. */
  lemma {:induction false} Spread(f: Forest, top: Node, n: Node)
    requires Wf(f) && top in f.kids && n in f.kids && Within(f, top, n)
    ensures Pre(f, top) == Upto(f, top, n) + Pre(f, n) + After(f, top, n)
    decreases Gap(f, top, n)
  {
    hide Pre, PreFrom, PreTo;
    if n != top {
      var p, i := f.par[n], Pos(Siblings(f, n), n);
      Spread(f, top, p);
      PreAround(f, p, n);
      Regroup(Upto(f, top, p), [p], PreTo(f, p, i), Pre(f, n), PreFrom(f, p, i + 1), After(f, top, p));
    }
  }

  lemma PreAround(f: Forest, p: Node, n: Node)
    requires Wf(f) && n in f.par && f.par[n] == p
    ensures var i := Pos(Siblings(f, n), n);
      Pre(f, p) == [p] + (PreTo(f, p, i) + (Pre(f, n) + PreFrom(f, p, i + 1)))
  {
    var i := Pos(Siblings(f, n), n);
    PreSplit(f, p, i);
    assert Kid(f, p, i) == n;
  }

  lemma Regroup(a: seq<Node>, b: seq<Node>, c: seq<Node>, d: seq<Node>, e: seq<Node>, z: seq<Node>)
    ensures a + (b + (c + (d + e))) + z == (a + b + c) + d + (e + z)
  {
  }
}
