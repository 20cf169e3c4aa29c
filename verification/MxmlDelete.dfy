/**
  Freeing a Mini-XML tree without a stack: `mxmlDelete` and the reference counts
  that lead to it.
*/
module MxmlDelete {
  import opened MxmlForest
  import opened MxmlNode

  // ------------------------------------------------------- what remains

  /** The forest without `n`, which has no parent, and everything below it. */
  ghost function Pruned(f: Forest, n: Node): Forest
    requires Wf(f) && n in f.kids
  {
    Forest(map m | m in f.kids && !Within(f, n, m) :: f.kids[m],
           map m | m in f.par && !Within(f, n, m) :: f.par[m],
           map m | m in f.rank && !Within(f, n, m) :: f.rank[m])
  }

  lemma Inside(f: Forest, n: Node, m: Node)
    requires Wf(f) && n in f.kids && n !in f.par && m in f.par
    ensures Within(f, n, f.par[m]) <==> Within(f, n, m)
  {
    if Within(f, n, f.par[m]) {
      WithinRank(f, n, f.par[m]);
    }
  }

  lemma PrunedWf(f: Forest, n: Node)
    requires Wf(f) && n in f.kids && n !in f.par
    ensures Wf(Pruned(f, n))
  {
    forall m | m in f.par ensures Within(f, n, f.par[m]) <==> Within(f, n, m) {
      Inside(f, n, m);
    }
    hide Within;
  }

  lemma PrunedLinks(f: Forest, n: Node, m: Node)
    requires Wf(f) && n in f.kids && n !in f.par && Wf(Pruned(f, n)) && m in Pruned(f, n).kids
    ensures LinksIn(Pruned(f, n), m) == LinksIn(f, m)
  {
    if m in f.par {
      Inside(f, n, m);
      hide Within;
      assert Siblings(Pruned(f, n), m) == Siblings(f, m);
    }
  }

  // --------------------------------------------------- what is to be done

  /** What is freed after `c` and everything below it, up to but not including `top`. */
  ghost function Rest(f: Forest, top: Node, c: Node): seq<Node>
    requires Wf(f) && top in f.kids && c in f.kids && Within(f, top, c) && c != top
    decreases Gap(f, top, c)
  {
    var p := f.par[c];
    PostFrom(f, p, Pos(Siblings(f, c), c) + 1) + if p == top then [] else [p] + Rest(f, top, p)
  }

  /** The nodes above `c` have lost their child pointer, and no other node of `Rest` has. */
  ghost predicate Path(f: Forest, top: Node, c: Node, cut: set<Node>)
    requires Wf(f) && top in f.kids && c in f.kids && Within(f, top, c) && c != top
    decreases Gap(f, top, c)
  {
    var p := f.par[c];
    && (forall m :: m in PostFrom(f, p, Pos(Siblings(f, c), c) + 1) ==> m !in cut)
    && (p != top ==> p in cut && Path(f, top, p, cut))
  }

  lemma {:induction false} PathGrows(f: Forest, top: Node, c: Node, cut: set<Node>, x: Node)
    requires Wf(f) && top in f.kids && c in f.kids && Within(f, top, c) && c != top
    requires Path(f, top, c, cut) && x !in Rest(f, top, c)
    ensures Path(f, top, c, cut + {x})
    decreases Gap(f, top, c)
  {
    if f.par[c] != top {
      PathGrows(f, top, f.par[c], cut, x);
    }
  }

  /** Going down: the work at `c` starts with the work at its first child. */
  lemma Down(f: Forest, top: Node, c: Node)
    requires Wf(f) && top in f.kids && c in f.kids && Within(f, top, c) && |f.kids[c]| > 0
    ensures var k := Kid(f, c, 0); Within(f, top, k) && k != top
    ensures var k := Kid(f, c, 0);
      PostFrom(f, c, 0) == Post(f, k) + PostFrom(f, c, 1)
      && Rest(f, top, k) == PostFrom(f, c, 1) + if c == top then [] else [c] + Rest(f, top, c)
  {
    var k := Kid(f, c, 0);
    WithinRank(f, top, c);
    PosIs(f.kids[c], 0);
  }

  /** Going on: after `c` comes its next sibling, or else its parent. */
  lemma Along(f: Forest, top: Node, c: Node)
    requires Wf(f) && top in f.kids && c in f.kids && Within(f, top, c) && c != top
    ensures var p, i := f.par[c], Pos(Siblings(f, c), c);
      && p in f.kids && Within(f, top, p)
      && (i + 1 < |f.kids[p]| ==>
        var s := Kid(f, p, i + 1);
        && Within(f, top, s) && s != top && f.par[s] == p && Pos(Siblings(f, s), s) == i + 1
        && PostFrom(f, p, i + 1) == Post(f, s) + PostFrom(f, p, i + 2)
        && Rest(f, top, c) == Post(f, s) + Rest(f, top, s))
      && (i + 1 == |f.kids[p]| ==> Rest(f, top, c) == if p == top then [] else [p] + Rest(f, top, p))
  {
    hide Distinct, PostFrom, Post, Within, Pos, Wf;
    WithinParent(f, top, c);
    var p, i := f.par[c], Pos(Siblings(f, c), c);
    if i + 1 < |f.kids[p]| {
      PosIs(f.kids[p], i + 1);
      PostFromMore(f, p, i + 1);
      var s := Kid(f, p, i + 1);
      WithinKid(f, top, p, i + 1);
      Regroup3(Post(f, s), PostFrom(f, p, i + 2), if p == top then [] else [p] + Rest(f, top, p));
    } else {
      PostFromMore(f, p, i + 1);
    }
  }

  lemma Regroup3(a: seq<Node>, b: seq<Node>, c: seq<Node>)
    ensures (a + b) + c == a + (b + c)
  {
  }

  lemma WithinParent(f: Forest, top: Node, c: Node)
    requires Wf(f) && top in f.kids && c in f.kids && Within(f, top, c) && c != top
    ensures c in f.par && f.par[c] in f.kids && Within(f, top, f.par[c])
    ensures Siblings(f, c) == f.kids[f.par[c]] && Pos(Siblings(f, c), c) < |f.kids[f.par[c]]|
  {
  }

  lemma WithinKid(f: Forest, top: Node, p: Node, i: nat)
    requires Wf(f) && top in f.kids && p in f.kids && Within(f, top, p) && i < |f.kids[p]|
    ensures var s := Kid(f, p, i); Within(f, top, s) && s != top
  {
    WithinRank(f, top, p);
  }

  /**
    Where the walk of `mxmlDelete` stands: `freed` have been freed, the nodes in `cut`
    have lost their child pointer, and `current` is next, seen for the first time or
    come `back` to.
  */
  ghost predicate At(f: Forest, top: Node, current: Node?, back: bool, cut: set<Node>, freed: seq<Node>)
    requires Wf(f) && top in f.kids
  {
    if current == null then freed == PostFrom(f, top, 0)
    else
      && current in f.kids && Within(f, top, current) && current != top
      && PostFrom(f, top, 0) == freed + Now(f, current, back) + Rest(f, top, current)
      && Path(f, top, current, cut)
      && (if back then current in cut else forall m :: m in Post(f, current) ==> m !in cut)
  }

  ghost function Now(f: Forest, current: Node, back: bool): seq<Node>
    requires Wf(f) && current in f.kids
  {
    if back then [current] else Post(f, current)
  }

  lemma Apart(a: seq<Node>, b: seq<Node>, c: seq<Node>)
    requires Distinct(a + b + c)
    ensures forall m :: m in b ==> m !in c && m !in a
    ensures Distinct(b)
  {
    var s := a + b + c;
    forall i, j | 0 <= i < |b| && 0 <= j < |c| ensures b[i] != c[j] {
      assert s[|a| + i] == b[i] && s[|a| + |b| + j] == c[j];
    }
    forall i, j | 0 <= i < |b| && 0 <= j < |a| ensures b[i] != a[j] {
      assert s[|a| + i] == b[i] && s[j] == a[j];
    }
    forall i, j | 0 <= i < j < |b| ensures b[i] != b[j] {
      assert s[|a| + i] == b[i] && s[|a| + j] == b[j];
    }
  }

  lemma Start(f: Forest, top: Node)
    requires Wf(f) && top in f.kids
    ensures At(f, top, First(f.kids[top]), false, {}, [])
  {
    if |f.kids[top]| > 0 {
      Down(f, top, top);
    }
  }

  lemma BelowDistinct(f: Forest, top: Node)
    requires Wf(f) && top in f.kids
    ensures Distinct(PostFrom(f, top, 0))
    ensures var b := PostFrom(f, top, 0);
      forall i :: 0 <= i < |b| ==> b[i] in f.kids && Within(f, top, b[i]) && b[i] != top
  {
    hide Distinct, PostFrom, Within;
    PostLists(f, top);
    PostEnds(f, top);
    assert [] + PostFrom(f, top, 0) + [top] == Post(f, top);
    Apart([], PostFrom(f, top, 0), [top]);
    var b := PostFrom(f, top, 0);
    forall i | 0 <= i < |b| ensures b[i] in f.kids && Within(f, top, b[i]) && b[i] != top {
      assert Post(f, top)[i] == b[i] && b[i] in b && top in [top];
    }
  }

  lemma StepDown(f: Forest, top: Node, c: Node, cut: set<Node>, freed: seq<Node>)
    requires Wf(f) && top in f.kids && At(f, top, c, false, cut, freed) && |f.kids[c]| > 0
    ensures c !in cut
    ensures At(f, top, Kid(f, c, 0), false, cut + {c}, freed)
  {
    hide Distinct, PostFrom, Path, Rest, Within;
    var k := Kid(f, c, 0);
    BelowDistinct(f, top);
    Apart(freed, Post(f, c), Rest(f, top, c));
    Down(f, top, c);
    PostEnds(f, c);
    PathGrows(f, top, c, cut, c);
    PathDown(f, top, c, cut);
    assert [] + Post(f, k) + (PostFrom(f, c, 1) + [c]) == Post(f, c);
    assert freed + Post(f, k) + Rest(f, top, k) == freed + Post(f, c) + Rest(f, top, c);
  }

  lemma PostEnds(f: Forest, c: Node)
    requires Wf(f) && c in f.kids && Distinct(Post(f, c))
    ensures Post(f, c) == PostFrom(f, c, 0) + [c] && c !in PostFrom(f, c, 0)
  {
    hide PostFrom;
    assert [] + PostFrom(f, c, 0) + [c] == Post(f, c);
    Apart([], PostFrom(f, c, 0), [c]);
  }

  lemma PathDown(f: Forest, top: Node, c: Node, cut: set<Node>)
    requires Wf(f) && top in f.kids && c in f.kids && Within(f, top, c) && c != top && |f.kids[c]| > 0
    requires Path(f, top, c, cut + {c}) && (forall m :: m in Post(f, c) ==> m !in cut) && c !in PostFrom(f, c, 0)
    ensures var k := Kid(f, c, 0); Within(f, top, k) && k != top && Path(f, top, k, cut + {c})
    ensures forall m :: m in Post(f, Kid(f, c, 0)) ==> m !in cut + {c}
  {
    var k := Kid(f, c, 0);
    Down(f, top, c);
    PosIs(f.kids[c], 0);
    hide Distinct, Rest, Within;
    assert PostFrom(f, c, 0) == Post(f, k) + PostFrom(f, c, 1);
    forall m | m in PostFrom(f, c, 0) ensures m !in cut + {c} {
      assert m in Post(f, c);
    }
  }

  /** The node that `next`, or else `parent`, leads to. */
  ghost function Successor(f: Forest, top: Node, c: Node): Node?
    requires Wf(f) && c in f.par
  {
    var next := Behind(Siblings(f, c), c);
    if next != null then next else if f.par[c] == top then null else f.par[c]
  }

  lemma SuccessorIs(f: Forest, top: Node, c: Node)
    requires Wf(f) && top in f.kids && c in f.kids && Within(f, top, c) && c != top
    ensures c in f.par && f.par[c] in f.kids && Pos(Siblings(f, c), c) < |f.kids[f.par[c]]|
    ensures var p, i := f.par[c], Pos(Siblings(f, c), c);
      if i + 1 < |f.kids[p]| then Successor(f, top, c) == Kid(f, p, i + 1) && Behind(Siblings(f, c), c) != null
      else Successor(f, top, c) == (if p == top then null else p) && Behind(Siblings(f, c), c) == null
  {
    hide Distinct, Pos;
    WithinParent(f, top, c);
  }

  /** The nodes above the one that comes next, and those below it. */
  lemma PathOn(f: Forest, top: Node, c: Node, cut: set<Node>)
    requires Wf(f) && top in f.kids && c in f.kids && Within(f, top, c) && c != top && Path(f, top, c, cut)
    ensures var p, i := f.par[c], Pos(Siblings(f, c), c);
      && p in f.kids && Within(f, top, p)
      && (i + 1 < |f.kids[p]| ==>
        var s := Kid(f, p, i + 1);
        Within(f, top, s) && s != top && Path(f, top, s, cut) && forall m :: m in Post(f, s) ==> m !in cut)
      && (i + 1 == |f.kids[p]| && p != top ==> p in cut && Path(f, top, p, cut))
  {
    hide Distinct, Within, PostFrom, Rest, Post, Pos, Kid;
    Along(f, top, c);
  }

  lemma Regroup(a: seq<Node>, b: seq<Node>, x: seq<Node>, y: seq<Node>)
    requires b == x + y
    ensures a + b == a + x + y
  {
  }

  /** Where the walk stands at a node whose children are done. */
  lemma Standing(f: Forest, top: Node, c: Node, back: bool, cut: set<Node>, freed: seq<Node>)
    requires Wf(f) && top in f.kids && At(f, top, c, back, cut, freed) && (back || f.kids[c] == [])
    ensures c in f.kids && Within(f, top, c) && c != top && Path(f, top, c, cut)
    ensures PostFrom(f, top, 0) == (freed + [c]) + Rest(f, top, c)
  {
    hide Distinct, Within, PostFrom, Rest, Path;
    Childless(f, c);
  }

  lemma StandsAt(f: Forest, top: Node, c: Node, back: bool, cut: set<Node>, freed: seq<Node>)
    requires Wf(f) && top in f.kids && c in f.kids && Within(f, top, c) && c != top && Path(f, top, c, cut)
    requires if back then c in cut else forall m :: m in Post(f, c) ==> m !in cut
    requires PostFrom(f, top, 0) == freed + (if back then [c] else Post(f, c)) + Rest(f, top, c)
    ensures At(f, top, c, back, cut, freed)
  {
    hide Distinct, Within, PostFrom, Rest, Path, Post, Wf;
  }

  lemma Finished(f: Forest, top: Node, cut: set<Node>, freed: seq<Node>)
    requires Wf(f) && top in f.kids && PostFrom(f, top, 0) == freed
    ensures At(f, top, null, true, cut, freed) && At(f, top, null, false, cut, freed)
  {
    hide PostFrom;
  }

  lemma StepOn(f: Forest, top: Node, c: Node, back: bool, cut: set<Node>, freed: seq<Node>)
    requires Wf(f) && top in f.kids && At(f, top, c, back, cut, freed) && (back || f.kids[c] == [])
    ensures c in f.par
    ensures At(f, top, Successor(f, top, c), Behind(Siblings(f, c), c) == null, cut, freed + [c])
  {
    hide *;
    Standing(f, top, c, back, cut, freed);
    Along(f, top, c);
    PathOn(f, top, c, cut);
    SuccessorIs(f, top, c);
    var p, i := f.par[c], Pos(Siblings(f, c), c);
    if i + 1 < |f.kids[p]| {
      var s := Kid(f, p, i + 1);
      Regroup(freed + [c], Rest(f, top, c), Post(f, s), Rest(f, top, s));
      StandsAt(f, top, s, false, cut, freed + [c]);
    } else if p != top {
      Regroup(freed + [c], Rest(f, top, c), [p], Rest(f, top, p));
      StandsAt(f, top, p, true, cut, freed + [c]);
    } else {
      assert freed + [c] + [] == freed + [c];
      Finished(f, top, cut, freed + [c]);
    }
  }

  lemma Childless(f: Forest, c: Node)
    requires Wf(f) && c in f.kids
    ensures f.kids[c] == [] ==> Post(f, c) == [c]
  {
  }

  /** The node the walk stands at has not been freed. */
  lemma Here(f: Forest, top: Node, c: Node, back: bool, cut: set<Node>, freed: seq<Node>)
    requires Wf(f) && top in f.kids && At(f, top, c, back, cut, freed)
    ensures c in PostFrom(f, top, 0) && c !in freed && |freed| < |PostFrom(f, top, 0)|
    ensures c in f.par && (back <==> c in cut) && f.par[c] in f.kids && c != top
    ensures Within(f, top, c)
  {
    hide Distinct, PostFrom, Rest;
    BelowDistinct(f, top);
    Apart(freed, Now(f, c, back), Rest(f, top, c));
    assert c in Now(f, c, back);
  }

  lemma NextUp(f: Forest, top: Node, c: Node)
    requires Wf(f) && top in f.kids && c in f.par && f.par[c] in f.kids
    ensures var l := LinksIn(f, c);
      && Successor(f, top, c) == (if l.next != null then l.next else if l.parent == top then null else l.parent)
      && l.next == Behind(Siblings(f, c), c)
      && (if l.child == null then f.kids[c] == [] else |f.kids[c]| > 0 && l.child == Kid(f, c, 0))
  {
  }

  // --------------------------------------------------------- the walk

  /** A node still to be freed: its links are those of the forest, but for a child pointer already cleared. */
  ghost predicate Pending(f: Forest, m: Node, cut: set<Node>)
    requires Wf(f) && m in f.kids
    reads m
  {
    && m.alive && m.next == LinksIn(f, m).next && m.parent == LinksIn(f, m).parent
    && m.child == if m in cut then null else LinksIn(f, m).child
  }

  /** `free`: allowed once for each node. */
  method Free(node: Node)
    requires node.alive
    modifies node`alive
    ensures !node.alive
  {
    ghost var gone := node;
    gone.alive := false;
  }

  /** Reading a link: not allowed once the node has been freed. */
  function Child(n: Node): Node?
    requires n.alive
    reads n
  {
    n.child
  }

  function Next(n: Node): Node?
    requires n.alive
    reads n
  {
    n.next
  }

  function Parent(n: Node): Node?
    requires n.alive
    reads n
  {
    n.parent
  }

  function RankOf(f: Forest, n: Node?): nat {
    if n != null && n in f.rank then f.rank[n] else 0
  }

  ghost function BelowSet(f: Forest, n: Node): set<Node>
    requires Wf(f) && n in f.kids
  {
    set m | m in f.kids && Within(f, n, m) && m != n
  }

  /** Those below `top` that have not been freed yet have their links. */
  ghost predicate Todo(f: Forest, top: Node, cut: set<Node>, freed: seq<Node>)
    requires Wf(f) && top in f.kids
    reads f.kids.Keys
  {
    && (forall m :: m in freed ==> m in f.kids && m in PostFrom(f, top, 0) && !m.alive)
    && (forall m :: m in f.kids && m in PostFrom(f, top, 0) && m !in freed ==> Pending(f, m, cut))
  }

  lemma NoneAlive(f: Forest, top: Node, cut: set<Node>, freed: seq<Node>)
    requires Wf(f) && top in f.kids && Todo(f, top, cut, freed)
    ensures forall m :: m in freed ==> !m.alive
  {
    hide PostFrom, Pending;
  }

  lemma IsTodo(f: Forest, top: Node, c: Node, cut: set<Node>, freed: seq<Node>)
    requires Wf(f) && top in f.kids && Todo(f, top, cut, freed) && c in PostFrom(f, top, 0) && c !in freed
    ensures c in f.kids && Pending(f, c, cut) && c.alive && c in BelowSet(f, top)
  {
    hide PostFrom, Within;
    BelowDistinct(f, top);
  }

  /** The child pointer of a node is cleared, and the walk goes down. */
  method TurnDown(ghost f: Forest, ghost top: Node, current: Node, ghost back: bool, ghost cut: set<Node>, ghost freed: seq<Node>)
    returns (next: Node)
    requires Wf(f) && top in f.kids && At(f, top, current, back, cut, freed) && Todo(f, top, cut, freed)
    requires current.alive && current.child != null
    modifies current`child
    ensures At(f, top, next, false, cut + {current}, freed) && Todo(f, top, cut + {current}, freed)
    ensures RankOf(f, next) < RankOf(f, current)
  {
    hide At, Wf, Within, PostFrom, LinksIn, Siblings, Successor, Behind, Kid, RankOf, Distinct;
    Here(f, top, current, back, cut, freed);
    IsTodo(f, top, current, cut, freed);
    NextUp(f, top, current);
    next := Child(current);
    StepDown(f, top, current, cut, freed);
    KidRank(f, current);
    current.child := null;
  }

  /** A node whose children are done is freed, and the walk goes on to its sibling or up. */
  method TurnOn(ghost f: Forest, top: Node, current: Node, ghost back: bool, ghost cut: set<Node>, ghost freed: seq<Node>)
    returns (next: Node?, ghost back': bool)
    requires Wf(f) && top in f.kids && At(f, top, current, back, cut, freed) && Todo(f, top, cut, freed)
    requires current.alive && current.child == null
    modifies current`alive
    ensures At(f, top, next, back', cut, freed + [current]) && Todo(f, top, cut, freed + [current])
  {
    hide At, Wf, Within, PostFrom, LinksIn, Siblings, Successor, Behind, Kid, Distinct;
    Here(f, top, current, back, cut, freed);
    IsTodo(f, top, current, cut, freed);
    NextUp(f, top, current);
    next := Next(current);
    if next == null {
      next := Parent(current);
      if next == top {
        next := null;
      }
    }
    StepOn(f, top, current, back, cut, freed);
    back' := Behind(Siblings(f, current), current) == null;
    Free(current);
  }

  lemma AllPending(f: Forest, top: Node)
    requires Rep(f) && top in f.kids
    ensures Wf(f) && forall m :: m in f.kids ==> m.alive && LinksOf(m) == LinksIn(f, m)
    ensures Todo(f, top, {}, [])
    ensures forall m :: m in f.kids && (m == top || !Within(f, top, m)) ==> m !in BelowSet(f, top)
  {
    hide Wf, LinksIn, PostFrom, Within;
    forall m | m in f.kids ensures Pending(f, m, {}) && m.alive && LinksOf(m) == LinksIn(f, m) {
      assert LinksOf(m) == LinksIn(f, m);
    }
  }

  /** The loop of `mxmlDelete`: frees all below `node`, each node once and after its children. */
  method DeleteChildren(ghost f: Forest, node: Node) returns (ghost freed: seq<Node>)
    requires Rep(f) && node in f.kids
    modifies BelowSet(f, node)`child, BelowSet(f, node)`alive
    ensures freed == PostFrom(f, node, 0)
    ensures forall m :: m in f.kids && (m == node || !Within(f, node, m)) ==> m.alive && LinksOf(m) == LinksIn(f, m)
    ensures forall m :: m in freed ==> !m.alive
  {
    hide At, Wf, Within, PostFrom, LinksIn, First, Rep, LinksOf, Todo, Pending, RankOf;
    ghost var cut: set<Node> := {};
    ghost var back := false;
    freed := [];
    AllPending(f, node);
    Start(f, node);
    FirstChild(f, node);
    var current := Child(node);
    while current != null
      invariant At(f, node, current, back, cut, freed) && Todo(f, node, cut, freed)
      decreases |PostFrom(f, node, 0)| - |freed|, RankOf(f, current)
    {
      Here(f, node, current, back, cut, freed);
      IsTodo(f, node, current, cut, freed);
      var next := Child(current);
      if next != null {
        next := TurnDown(f, node, current, back, cut, freed);
        back, cut := false, cut + {current};
      } else {
        next, back := TurnOn(f, node, current, back, cut, freed);
        freed := freed + [current];
      }
      current := next;
    }
    Finish(f, node, back, cut, freed);
    NoneAlive(f, node, cut, freed);
  }

  lemma KidRank(f: Forest, c: Node)
    requires Wf(f) && c in f.kids && |f.kids[c]| > 0
    ensures RankOf(f, Kid(f, c, 0)) < RankOf(f, c)
  {
  }

  lemma FirstChild(f: Forest, n: Node)
    requires Rep(f) && n in f.kids
    ensures n.alive && n.child == First(f.kids[n])
  {
    assert LinksOf(n) == LinksIn(f, n);
  }

  lemma Finish(f: Forest, top: Node, back: bool, cut: set<Node>, freed: seq<Node>)
    requires Wf(f) && top in f.kids && At(f, top, null, back, cut, freed)
    ensures freed == PostFrom(f, top, 0)
  {
  }

  /** `mxmlDelete` for a node without a parent */
  method DeleteTree(ghost f: Forest, node: Node) returns (ghost freed: seq<Node>)
    requires Rep(f) && node in f.kids && node !in f.par
    modifies f.kids.Keys`child, f.kids.Keys`alive
    ensures freed == Post(f, node) && Rep(Pruned(f, node))
    ensures forall m :: m in freed ==> !m.alive
  {
    hide Wf, LinksIn, LinksOf, Within, PostFrom, Pruned;
    PrunedWf(f, node);
    PrunedKeys(f, node);
    BelowKeys(f, node);
    freed := DeleteChildren(f, node);
    Free(node);
    freed := freed + [node];
    forall m | m in Pruned(f, node).kids ensures m.alive && LinksOf(m) == LinksIn(Pruned(f, node), m) {
      assert m in Pruned(f, node).kids.Keys;
      PrunedLinks(f, node, m);
    }
  }

  lemma BelowKeys(f: Forest, n: Node)
    requires Wf(f) && n in f.kids
    ensures BelowSet(f, n) <= f.kids.Keys
  {
  }

  /**
    `mxmlDelete`: takes `node` out and frees it and all below it, each node once and
    after its children; the rest of the forest stays as it was.
  */
  method Delete(ghost f: Forest, node: Node?) returns (ghost freed: seq<Node>)
    requires Rep(f) && (node != null ==> node in f.kids)
    modifies f.kids.Keys`next, f.kids.Keys`prev, f.kids.Keys`parent, f.kids.Keys`child, f.kids.Keys`lastChild
    modifies f.kids.Keys`alive
    ensures node == null ==> Rep(f) && freed == []
    ensures node != null ==> Wf(Detached(f, node)) && freed == Post(Detached(f, node), node)
    ensures node != null ==> Rep(Pruned(Detached(f, node), node))
    ensures forall m :: m in freed ==> !m.alive
  {
    freed := [];
    if node == null {
      return;
    }
    hide Wf, LinksIn, LinksOf, Within, Post, Pruned, Detached;
    DetachedWf(f, node);
    Remove(f, node);
    freed := DeleteTree(Detached(f, node), node);
  }

  lemma PrunedKeys(f: Forest, n: Node)
    requires Wf(f) && n in f.kids
    ensures Pruned(f, n).kids.Keys <= f.kids.Keys
    ensures forall m :: m in f.kids ==> (m in Pruned(f, n).kids <==> !Within(f, n, m))
    ensures n !in Pruned(f, n).kids
  {
  }

  /** `mxmlRetain` */
  method Retain(node: Node?) returns (count: int)
    modifies (if node == null then {} else {node})`refCount
    ensures node == null ==> count == -1
    ensures node != null ==> count == node.refCount == old(node.refCount) + 1
  {
    if node == null {
      return -1;
    }
    node.refCount := node.refCount + 1;
    return node.refCount;
  }

  /** `mxmlRelease`: deletes the tree with the last reference. */
  method Release(ghost f: Forest, node: Node?) returns (count: int, ghost freed: seq<Node>)
    requires Rep(f) && (node != null ==> node in f.kids)
    modifies f.kids.Keys
    ensures node == null ==> count == -1 && Rep(f)
    ensures node != null && old(node.refCount) > 1 ==> count == node.refCount == old(node.refCount) - 1 && Rep(f) && freed == []
    ensures forall m :: m in f.kids && m != node ==> m.refCount == old(m.refCount)
    ensures node != null && old(node.refCount) <= 1 ==>
      && count == 0 && Wf(Detached(f, node)) && Rep(Pruned(Detached(f, node), node))
      && freed == Post(Detached(f, node), node)
    ensures forall m :: m in freed ==> !m.alive
  {
    freed := [];
    if node == null {
      return -1, [];
    }
    node.refCount := node.refCount - 1;
    if node.refCount <= 0 {
      freed := Delete(f, node);
      return 0, freed;
    }
    return node.refCount, [];
  }
}
