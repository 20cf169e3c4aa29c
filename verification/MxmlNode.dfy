/**
  Adding nodes to Mini-XML trees, removing and freeing them.
*/
module MxmlNode {
  import opened MxmlForest

  datatype Where = AddBefore | AddAfter

  // ------------------------------------------------ links and forests

  /** The five link fields of a node. */
  datatype Links = Links(next: Node?, prev: Node?, parent: Node?, child: Node?, lastChild: Node?)

  function LinksOf(n: Node): Links
    reads n`next, n`prev, n`parent, n`child, n`lastChild
  {
    Links(n.next, n.prev, n.parent, n.child, n.lastChild)
  }

  /** The links the forest gives a node. */
  ghost function LinksIn(f: Forest, n: Node): Links
    requires Wf(f) && n in f.kids
  {
    var child, last := First(f.kids[n]), Last(f.kids[n]);
    if n in f.par then Links(Behind(Siblings(f, n), n), Before(Siblings(f, n), n), f.par[n], child, last)
    else Links(null, null, null, child, last)
  }

  /** The links of every node are those of the forest, and no node has been freed. */
  ghost predicate Rep(f: Forest)
    reads f.kids.Keys
  {
    Wf(f) && forall n :: n in f.kids ==> n.alive && LinksOf(n) == LinksIn(f, n)
  }

  // -------------------------------------------------------- removing

  /** `n` no longer has a parent. */
  ghost function Detached(f: Forest, n: Node): (g: Forest)
    requires Wf(f) && n in f.kids
  {
    if n !in f.par then f
    else f.(kids := f.kids[f.par[n] := Without(f.kids[f.par[n]], n)], par := f.par - {n})
  }

  lemma DetachedKids(f: Forest, n: Node, q: Node)
    requires Wf(f) && n in f.par && q in f.kids
    ensures n in f.kids && f.par[n] in f.kids
    ensures var g := Detached(f, n);
      && q in g.kids && Distinct(g.kids[q]) && (forall c :: c in g.kids[q] ==> c in g.par && g.par[c] == q)
      && forall c :: c in g.par && g.par[c] == q ==> c in g.kids[q]
  {
    hide Without, Pos, Distinct, First, Last, Before, Behind, Within;
    var s, g := f.kids[f.par[n]], Detached(f, n);
    WithoutLinks(s, n);
    assert s == Siblings(f, n) && g.kids[f.par[n]] == Without(s, n);
    forall c | c in g.kids[q] ensures c in g.par && g.par[c] == q {
      if q == f.par[n] {
        WithoutOnly(s, n, c);
      } else {
        assert c in f.kids[q];
      }
    }
  }

  lemma DetachedWf(f: Forest, n: Node)
    requires Wf(f) && n in f.kids
    ensures Wf(Detached(f, n)) && Detached(f, n).kids.Keys == f.kids.Keys && n !in Detached(f, n).par
  {
    hide Without, Pos, Distinct, First, Last, Before, Behind, Within;
    if n in f.par {
      var g := Detached(f, n);
      forall q | q in g.kids
        ensures Distinct(g.kids[q])
        ensures forall c :: c in g.kids[q] ==> c in g.par && g.par[c] == q
        ensures forall c :: c in g.par && g.par[c] == q ==> c in g.kids[q]
      {
        DetachedKids(f, n, q);
      }
    }
  }

  /** What is no longer below anything was below it before. */
  lemma {:induction false} DetachedWithin(f: Forest, n: Node, a: Node, m: Node)
    requires Wf(f) && n in f.kids && a in f.kids && m in f.kids && Wf(Detached(f, n))
    requires Within(Detached(f, n), a, m)
    ensures Within(f, a, m)
    decreases Gap(f, a, m)
  {
    if m != a {
      DetachedWithin(f, n, a, f.par[m]);
    }
  }

  /** The links `l` of `m` once `n`, which had the links `was`, is taken out. */
  function Unlinked(m: Node, l: Links, n: Node, was: Links): Links {
    if m == n then Links(null, null, null, l.child, l.lastChild)
    else Links(
      if m == was.prev then was.next else l.next,
      if m == was.next then was.prev else l.prev,
      l.parent,
      if m == was.parent && was.prev == null then was.next else l.child,
      if m == was.parent && was.next == null then was.prev else l.lastChild)
  }

  lemma DetachedLinks(f: Forest, n: Node, m: Node)
    requires Wf(f) && n in f.par && m in f.kids && Wf(Detached(f, n))
    ensures LinksIn(Detached(f, n), m) == Unlinked(m, LinksIn(f, m), n, LinksIn(f, n))
  {
    hide Pos, Without, First, Last, Before, Behind, Distinct;
    WithoutLinks(Siblings(f, n), n);
    NeighborIn(Siblings(f, n), n);
  }

  lemma NeighborIn(s: seq<Node>, n: Node)
    ensures Before(s, n) == null || Before(s, n) in s
    ensures Behind(s, n) == null || Behind(s, n) in s
    ensures Distinct(s) ==> Before(s, n) != n && Behind(s, n) != n
  {
  }

  /** The neighbours of a node that has a parent are other nodes of the forest. */
  lemma Neighbors(f: Forest, n: Node)
    requires Wf(f) && n in f.par
    ensures var l := LinksIn(f, n);
      && l.parent != null && l.parent in f.kids && l.parent != n
      && l.prev != n && (l.prev != null ==> l.prev in f.kids)
      && l.next != n && (l.next != null ==> l.next in f.kids)
  {
    NeighborIn(Siblings(f, n), n);
  }

  /** The pointer updates of `mxmlRemove`. */
  method Unlink(ghost all: set<Node>, node: Node)
    requires node in all && node.parent != null && node.parent in all && node.parent != node
    requires node.prev != node && (node.prev != null ==> node.prev in all)
    requires node.next != node && (node.next != null ==> node.next in all)
    modifies all`next, all`prev, all`parent, all`child, all`lastChild
    ensures forall m :: m in all ==> LinksOf(m) == Unlinked(m, old(LinksOf(m)), node, old(LinksOf(node)))
  {
    if node.prev != null {
      node.prev.next := node.next;
    } else {
      node.parent.child := node.next;
    }
    if node.next != null {
      node.next.prev := node.prev;
    } else {
      node.parent.lastChild := node.prev;
    }
    node.parent := null;
    node.prev := null;
    node.next := null;
  }

  /** `mxmlRemove` */
  method Remove(ghost f: Forest, node: Node?)
    requires Rep(f) && (node != null ==> node in f.kids)
    modifies f.kids.Keys`next, f.kids.Keys`prev, f.kids.Keys`parent, f.kids.Keys`child, f.kids.Keys`lastChild
    ensures node == null ==> Rep(f)
    ensures node != null ==> Rep(Detached(f, node))
  {
    if node == null || node.parent == null {
      return;
    }
    hide Wf, LinksIn, LinksOf, Unlinked, Detached;
    HasParent(f, node);
    DetachedWf(f, node);
    Neighbors(f, node);
    assert LinksOf(node) == LinksIn(f, node);
    Fields(node);
    Unlink(f.kids.Keys, node);
    forall m | m in f.kids ensures m.alive && LinksOf(m) == LinksIn(Detached(f, node), m) {
      assert old(m.alive && LinksOf(m) == LinksIn(f, m));
      DetachedLinks(f, node, m);
    }
  }

  lemma HasParent(f: Forest, n: Node)
    requires Rep(f) && n in f.kids
    ensures n.parent != null <==> n in f.par
  {
    assert LinksOf(n) == LinksIn(f, n);
  }

  lemma Fields(n: Node)
    ensures LinksOf(n) == Links(n.next, n.prev, n.parent, n.child, n.lastChild)
  {
  }

  // ---------------------------------------------------------- adding

  /** `n` becomes the `k`-th child of `p`; the measure of `p` and all above it grows by more than that of `n`. */
  ghost function Attached(f: Forest, p: Node, k: nat, n: Node): Forest
    requires Wf(f) && p in f.kids && n in f.kids && k <= |f.kids[p]|
  {
    Forest(f.kids[p := Inserted(f.kids[p], k, n)], f.par[n := p],
           map m | m in f.rank :: if Within(f, m, p) then f.rank[m] + f.rank[n] + 1 else f.rank[m])
  }

  lemma AttachedWf(f: Forest, p: Node, k: nat, n: Node)
    requires Wf(f) && p in f.kids && n in f.kids && k <= |f.kids[p]|
    requires n !in f.par && !Within(f, n, p)
    ensures Wf(Attached(f, p, k, n)) && Attached(f, p, k, n).kids.Keys == f.kids.Keys
  {
    var g := Attached(f, p, k, n);
    AttachedShape(f, p, k, n);
    forall c | c in g.par
      ensures g.rank[c] < g.rank[g.par[c]]
    {
      AttachedRank(f, p, k, n, c);
    }
  }

  lemma AttachedShape(f: Forest, p: Node, k: nat, n: Node)
    requires Wf(f) && p in f.kids && n in f.kids && k <= |f.kids[p]| && n !in f.par
    ensures var g := Attached(f, p, k, n);
      && g.rank.Keys == g.kids.Keys == f.kids.Keys && g.par.Keys <= g.kids.Keys
      && (forall q :: q in g.kids ==> Distinct(g.kids[q]))
      && (forall q, c :: q in g.kids && c in g.kids[q] ==> c in g.par && g.par[c] == q)
      && (forall c :: c in g.par ==> g.par[c] in g.kids && c in g.kids[g.par[c]])
  {
    InsertedLinks(f.kids[p], k, n);
    hide Distinct, Inserted, Within, First, Last, Before, Behind;
    var g := Attached(f, p, k, n);
    forall q | q in g.kids
      ensures Distinct(g.kids[q])
      ensures forall c :: c in g.kids[q] ==> c in g.par && g.par[c] == q
    {
      AttachedKids(f, p, k, n, q);
    }
  }

  lemma AttachedKids(f: Forest, p: Node, k: nat, n: Node, q: Node)
    requires Wf(f) && p in f.kids && n in f.kids && k <= |f.kids[p]| && n !in f.par && q in f.kids
    ensures var g := Attached(f, p, k, n);
      Distinct(g.kids[q]) && forall c :: c in g.kids[q] ==> c in g.par && g.par[c] == q
  {
    InsertedLinks(f.kids[p], k, n);
    hide Distinct, Inserted, Within, First, Last, Before, Behind;
  }

  lemma AttachedRank(f: Forest, p: Node, k: nat, n: Node, c: Node)
    requires Wf(f) && p in f.kids && n in f.kids && k <= |f.kids[p]|
    requires n !in f.par && !Within(f, n, p) && (c == n || c in f.par)
    ensures var g := Attached(f, p, k, n); g.rank[c] < g.rank[g.par[c]]
  {
    if c != n && Within(f, c, p) {
      assert Within(f, f.par[c], c);
      WithinTrans(f, f.par[c], c, p);
    }
  }

  /** Where no such forest exists: no measure falls along a cycle. */
  lemma {:induction false} NoForest(f: Forest, p: Node, k: nat, n: Node, rank: map<Node, nat>)
    requires Wf(f) && p in f.kids && n in f.kids && k <= |f.kids[p]| && n !in f.par && Within(f, n, p)
    ensures !Wf(Attached(f, p, k, n).(rank := rank))
  {
    var g := Attached(f, p, k, n).(rank := rank);
    if Wf(g) {
      RankBelow(f, g, n, p);
      Falls(g, n);
    }
  }

  lemma Falls(f: Forest, c: Node)
    requires Wf(f) && c in f.par
    ensures f.par[c] in f.kids && f.rank[c] < f.rank[f.par[c]]
  {
  }

  lemma {:induction false} RankBelow(f: Forest, g: Forest, n: Node, m: Node)
    requires Wf(f) && Wf(g) && n in f.kids && m in f.kids && Within(f, n, m) && g.kids.Keys == f.kids.Keys
    requires n !in f.par && forall c :: c in f.par && c != n ==> c in g.par && g.par[c] == f.par[c]
    ensures g.rank[m] <= g.rank[n]
    decreases Gap(f, n, m)
  {
    if m != n {
      RankBelow(f, g, n, f.par[m]);
    }
  }

  /** The links `l` of `m` once `n` stands below `p` between `before` and `behind`. */
  function Spliced(m: Node, l: Links, n: Node, p: Node, before: Node?, behind: Node?): Links {
    if m == n then Links(behind, before, p, l.child, l.lastChild)
    else Links(
      if m == before then n else l.next,
      if m == behind then n else l.prev,
      l.parent,
      if m == p && before == null then n else l.child,
      if m == p && behind == null then n else l.lastChild)
  }

  lemma AttachedLinks(f: Forest, p: Node, k: nat, n: Node, m: Node)
    requires Wf(f) && p in f.kids && n in f.kids && m in f.kids && k <= |f.kids[p]|
    requires n !in f.par && n != p && Wf(Attached(f, p, k, n))
    ensures LinksIn(Attached(f, p, k, n), m)
         == Spliced(m, LinksIn(f, m), n, p, Nth(f.kids[p], k - 1), Nth(f.kids[p], k))
  {
    hide Pos, Inserted, First, Last, Before, Behind, Distinct, Within, Nth;
    var s := f.kids[p];
    NotAmong(f, p, n);
    InsertedLinks(s, k, n);
    NthIn(s, k);
    NthIn(s, k - 1);
    AttachedSiblings(f, p, k, n, m);
  }

  lemma AttachedSiblings(f: Forest, p: Node, k: nat, n: Node, m: Node)
    requires Wf(f) && p in f.kids && n in f.kids && m in f.kids && k <= |f.kids[p]|
    requires n !in f.par && Wf(Attached(f, p, k, n))
    ensures var g := Attached(f, p, k, n);
      && (m in g.par <==> m == n || m in f.par)
      && (m == n || m in f.kids[p] ==> Siblings(g, m) == Inserted(f.kids[p], k, n) && g.par[m] == p)
      && (m != n && m in f.par ==> g.par[m] == f.par[m])
      && (m != n && m !in f.kids[p] && m in f.par ==> Siblings(g, m) == Siblings(f, m))
      && (m in f.kids[p] ==> Siblings(f, m) == f.kids[p])
      && g.kids[m] == (if m == p then Inserted(f.kids[p], k, n) else f.kids[m])
  {
  }

  lemma NthIn(s: seq<Node>, k: int)
    ensures Nth(s, k) == null || Nth(s, k) in s
    ensures k == |s| - 1 && k >= 0 ==> Nth(s, k) == Last(s)
    ensures k == 0 ==> Nth(s, k) == First(s)
    ensures 0 <= k < |s| ==> Nth(s, k) != null
  {
  }

  /** The position `mxmlAdd` gives a new child among `s`: beside `child`, or at the end asked for. */
  function Slot(s: seq<Node>, place: Where, child: Node?): (k: nat)
    ensures k <= |s|
  {
    if child != null && child in s then Pos(s, child) + (if place.AddAfter? then 1 else 0)
    else if place.AddAfter? then |s| else 0
  }

  ghost function Added(f: Forest, p: Node, place: Where, child: Node?, n: Node): Forest
    requires Wf(f) && p in f.kids && n in f.kids
  {
    DetachedWf(f, n);
    var g := Detached(f, n);
    Attached(g, p, Slot(g.kids[p], place, child), n)
  }

  /** The nodes `mxmlAdd` puts the new child between. */
  function BeforeNew(parent: Node, place: Where, child: Node?): Node?
    reads parent, child
  {
    var beside := child != null && child.parent == parent;
    match place
    case AddBefore => if beside then child.prev else null
    case AddAfter => if beside then child else parent.lastChild
  }

  function BehindNew(parent: Node, place: Where, child: Node?): Node?
    reads parent, child
  {
    var beside := child != null && child.parent == parent;
    match place
    case AddBefore => if beside then child else parent.child
    case AddAfter => if beside then child.next else null
  }

  /** The pointers `mxmlAdd` follows stay among `all`, away from `node`, and agree with each other. */
  ghost predicate CanLink(all: set<Node>, parent: Node, child: Node?, node: Node)
    reads parent, child, node
  {
    && parent in all && node in all && parent != node
    && node.next == null && node.prev == null
    && parent.child != node && (parent.child != null ==> parent.child in all)
    && parent.lastChild != node && (parent.lastChild != null ==> parent.lastChild in all)
    && (parent.child == null <==> parent.lastChild == null)
    && (child != null ==> child in all)
    && (child != null && child != node && child.parent == parent ==>
      && child.prev != node && (child.prev != null ==> child.prev in all)
      && child.next != node && (child.next != null ==> child.next in all)
      && (child == parent.child ==> child.prev == null) && (child == parent.lastChild ==> child.next == null))
  }

  /** The pointer updates of `mxmlAdd` for a node without a parent. */
  method Link(ghost all: set<Node>, parent: Node, place: Where, child: Node?, node: Node)
    requires CanLink(all, parent, child, node)
    modifies all`next, all`prev, all`parent, all`child, all`lastChild
    ensures var before, behind := old(BeforeNew(parent, place, child)), old(BehindNew(parent, place, child));
      child != node ==> forall m :: m in all ==> LinksOf(m) == Spliced(m, old(LinksOf(m)), node, parent, before, behind)
    ensures child == node ==> node.next == node && node.prev == node
  {
    node.parent := parent;
    match place {
      case AddBefore =>
        if child == null || child == parent.child || child.parent != parent {
          node.next := parent.child;
          if parent.child != null {
            parent.child.prev := node;
          } else {
            parent.lastChild := node;
          }
          parent.child := node;
        } else {
          node.next := child;
          node.prev := child.prev;
          if child.prev != null {
            child.prev.next := node;
          } else {
            parent.child := node;
          }
          child.prev := node;
        }
      case AddAfter =>
        if child == null || child == parent.lastChild || child.parent != parent {
          node.parent := parent;
          node.prev := parent.lastChild;
          if parent.lastChild != null {
            parent.lastChild.next := node;
          } else {
            parent.child := node;
          }
          parent.lastChild := node;
        } else {
          node.prev := child;
          node.next := child.next;
          if child.next != null {
            child.next.prev := node;
          } else {
            parent.lastChild := node;
          }
          child.next := node;
        }
    }
  }

  /** In a forest, the pointers `mxmlAdd` follows lead to the new child's position. */
  lemma ReadyToLink(f: Forest, parent: Node, place: Where, child: Node?, node: Node)
    requires Rep(f) && parent in f.kids && node in f.kids && (child != null ==> child in f.kids)
    requires parent != node && node !in f.par
    ensures CanLink(f.kids.Keys, parent, child, node)
    ensures child != node ==> var s := f.kids[parent];
      var k := Slot(s, place, child);
      BeforeNew(parent, place, child) == Nth(s, k - 1) && BehindNew(parent, place, child) == Nth(s, k)
  {
    hide Pos, Distinct, Before, Behind, First, Last, Nth;
    assert LinksOf(parent) == LinksIn(f, parent) && LinksOf(node) == LinksIn(f, node);
    NotAmong(f, parent, node);
    if child != null {
      assert LinksOf(child) == LinksIn(f, child);
      if child in f.par && f.par[child] == parent {
        Beside(f.kids[parent], child);
        NotAmong(f, parent, node);
      }
    }
  }

  lemma NotAmong(f: Forest, p: Node, n: Node)
    requires Wf(f) && p in f.kids && n !in f.par
    ensures n !in f.kids[p] && forall c :: c in f.kids[p] ==> c in f.kids
    ensures var s := f.kids[p];
      && (First(s) == null <==> Last(s) == null)
      && (First(s) != null ==> First(s) in s) && (Last(s) != null ==> Last(s) in s)
      && First(s) == Nth(s, 0) && Last(s) == Nth(s, |s| - 1) && Nth(s, -1) == null && Nth(s, |s|) == null
  {
  }

  lemma Beside(s: seq<Node>, c: Node)
    requires Distinct(s) && c in s
    ensures Before(s, c) == Nth(s, Pos(s, c) - 1) && Behind(s, c) == Nth(s, Pos(s, c) + 1) && Nth(s, Pos(s, c)) == c
    ensures Before(s, c) != null ==> Before(s, c) in s
    ensures Behind(s, c) != null ==> Behind(s, c) in s
    ensures (c == First(s) ==> Before(s, c) == null) && (c == Last(s) ==> Behind(s, c) == null)
  {
    PosIs(s, 0);
    PosIs(s, |s| - 1);
  }

  /** `mxmlAdd` for a node without a parent */
  method AddDetached(ghost g: Forest, parent: Node, place: Where, child: Node?, node: Node)
    requires Rep(g) && parent in g.kids && node in g.kids && (child != null ==> child in g.kids)
    requires node !in g.par && !Within(g, node, parent)
    modifies g.kids.Keys`next, g.kids.Keys`prev, g.kids.Keys`parent, g.kids.Keys`child, g.kids.Keys`lastChild
    ensures child != node ==> Rep(Attached(g, parent, Slot(g.kids[parent], place, child), node))
    ensures child == node ==> node.next == node && node.prev == node
  {
    hide Wf, LinksIn, LinksOf, Spliced, Attached, Slot, CanLink, BeforeNew, BehindNew, Nth;
    ghost var k := Slot(g.kids[parent], place, child);
    AttachedWf(g, parent, k, node);
    ReadyToLink(g, parent, place, child, node);
    Link(g.kids.Keys, parent, place, child, node);
    forall m | m in g.kids && child != node ensures LinksOf(m) == LinksIn(Attached(g, parent, k, node), m) {
      AttachedLinks(g, parent, k, node, m);
    }
  }

  /**
    `mxmlAdd`: takes `node` from its parent, if any, and puts it below `parent`. Asked to
    put a node beside itself, it links the node to itself, which is no tree (NoLoop).
  */
  method Add(ghost f: Forest, parent: Node?, place: Where, child: Node?, node: Node?)
    requires Rep(f)
    requires (parent != null ==> parent in f.kids) && (node != null ==> node in f.kids) && (child != null ==> child in f.kids)
    requires parent != null && node != null ==> !Within(f, node, parent)
    modifies f.kids.Keys`next, f.kids.Keys`prev, f.kids.Keys`parent, f.kids.Keys`child, f.kids.Keys`lastChild
    ensures parent == null || node == null ==> Rep(f)
    ensures parent != null && node != null && child != node ==> Rep(Added(f, parent, place, child, node))
    ensures parent != null && node != null && child == node ==> node.next == node && node.prev == node
  {
    if parent == null || node == null {
      return;
    }
    hide Wf, LinksIn, LinksOf, Detached, Attached, Within, Slot;
    HasParent(f, node);
    DetachedWf(f, node);
    NotWithin(f, node, parent);
    if node.parent != null {
      Remove(f, node);
    } else {
      AlreadyDetached(f, node);
    }
    AddDetached(Detached(f, node), parent, place, child, node);
  }

  lemma AlreadyDetached(f: Forest, n: Node)
    requires Wf(f) && n in f.kids && n !in f.par
    ensures Detached(f, n) == f
  {
  }

  lemma NotWithin(f: Forest, n: Node, p: Node)
    requires Wf(f) && n in f.kids && p in f.kids && Wf(Detached(f, n)) && !Within(f, n, p)
    ensures !Within(Detached(f, n), n, p) && n != p
  {
    if Within(Detached(f, n), n, p) {
      DetachedWithin(f, n, n, p);
    }
  }

  /** In a tree no node is its own neighbour. */
  lemma NoLoop(f: Forest, n: Node)
    requires n in f.kids && n.next == n
    ensures !Rep(f)
  {
    if Rep(f) {
      assert LinksOf(n) == LinksIn(f, n);
      if n in f.par {
        NeighborIn(Siblings(f, n), n);
      }
    }
  }

  // ------------------------------------------------------ new nodes

  /** The forest with one more tree, the single node `n`. */
  function Planted(f: Forest, n: Node): Forest {
    Forest(f.kids[n := []], f.par, f.rank[n := 0])
  }

  /** `mxml_new` */
  method New(ghost f: Forest, parent: Node?, value: Value) returns (node: Node)
    requires Rep(f) && (parent != null ==> parent in f.kids)
    modifies f.kids.Keys`next, f.kids.Keys`prev, f.kids.Keys`parent, f.kids.Keys`child, f.kids.Keys`lastChild
    ensures fresh(node) && node !in f.kids && node.value == value && node.refCount == 1
    ensures Wf(Planted(f, node))
    ensures parent == null ==> Rep(Planted(f, node))
    ensures parent != null ==> Rep(Attached(Planted(f, node), parent, |f.kids[parent]|, node))
  {
    hide Wf, LinksIn, Within, Detached, Attached, Slot;
    node := new Node(value);
    PlantedWf(f, node);
    ghost var g := Planted(f, node);
    forall m | m in g.kids ensures m.alive && LinksOf(m) == LinksIn(g, m) {
      PlantedLinks(f, node, m);
    }
    if parent != null {
      NotBelowLeaf(g, node, parent);
      PlantedKids(f, node, parent);
      AddDetached(g, parent, AddAfter, null, node);
    }
  }

  lemma PlantedWf(f: Forest, n: Node)
    requires Wf(f) && n !in f.kids
    ensures Wf(Planted(f, n))
  {
  }

  lemma PlantedKids(f: Forest, n: Node, p: Node)
    requires Wf(f) && n !in f.kids && p in f.kids
    ensures n !in Planted(f, n).par && Slot(Planted(f, n).kids[p], AddAfter, null) == |f.kids[p]|
  {
  }

  lemma PlantedLinks(f: Forest, n: Node, m: Node)
    requires Wf(f) && n !in f.kids && Wf(Planted(f, n)) && m in Planted(f, n).kids
    ensures LinksIn(Planted(f, n), m) == if m == n then Links(null, null, null, null, null) else LinksIn(f, m)
  {
  }

  lemma NotBelowLeaf(f: Forest, n: Node, m: Node)
    requires Wf(f) && n in f.kids && m in f.kids && n != m && f.kids[n] == []
    ensures !Within(f, n, m)
  {
    if Within(f, n, m) {
      var i := ChildAbove(f, n, m);
    }
  }
}
