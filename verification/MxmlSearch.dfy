/**
  Walking Mini-XML trees along their links, and finding elements on the way.
*/
module MxmlSearch {
  import opened Basics
  import opened MxmlAttr
  import opened MxmlForest
  import opened MxmlNode

  datatype Descend = Descend | NoDescend | DescendFirst

  // ------------------------------------------------------ the next node

  /** The nodes after `n` below `top`, in document order. */
  ghost function Ahead(f: Forest, top: Node, n: Node): seq<Node>
    requires Wf(f) && top in f.kids && n in f.kids && Within(f, top, n)
  {
    PreFrom(f, n, 0) + After(f, top, n)
  }

  /** They are what follows `n` in the list of all nodes. */
  lemma AheadIs(f: Forest, top: Node, n: Node)
    requires Wf(f) && top in f.kids && n in f.kids && Within(f, top, n)
    ensures var s := Pre(f, top); var k := |Upto(f, top, n)|;
      k < |s| && s[k] == n && s[..k] == Upto(f, top, n) && s[k + 1..] == Ahead(f, top, n)
  {
    hide PreFrom, After, Upto;
    Spread(f, top, n);
    assert Pre(f, top) == Upto(f, top, n) + ([n] + Ahead(f, top, n));
  }

  lemma FirstBelow(f: Forest, n: Node, i: nat)
    requires Wf(f) && n in f.kids && i <= |f.kids[n]|
    ensures First(PreFrom(f, n, i)) == Nth(f.kids[n], i)
    ensures PreFrom(f, n, i) == [] <==> i == |f.kids[n]|
  {
  }

  /** The first node after `n` and all below it is its next sibling, or else what follows its parent. */
  lemma FirstAfter(f: Forest, top: Node, n: Node)
    requires Wf(f) && top in f.kids && n in f.kids && Within(f, top, n)
    ensures n == top ==> After(f, top, n) == []
    ensures n != top ==> n in f.par && f.par[n] in f.kids && Within(f, top, f.par[n])
    ensures n != top && LinksIn(f, n).next != null ==> First(After(f, top, n)) == LinksIn(f, n).next
    ensures n != top && LinksIn(f, n).next == null ==> After(f, top, n) == After(f, top, f.par[n])
  {
    if n != top {
      FirstBelow(f, f.par[n], Pos(Siblings(f, n), n) + 1);
    }
  }

  lemma FirstAhead(f: Forest, top: Node, n: Node)
    requires Wf(f) && top in f.kids && n in f.kids && Within(f, top, n)
    ensures First(Ahead(f, top, n)) == if |f.kids[n]| > 0 then LinksIn(f, n).child else First(After(f, top, n))
  {
    FirstBelow(f, n, 0);
  }

  /** `mxmlWalkNext` */
  method WalkNext(ghost f: Forest, start: Node?, top: Node, descend: Descend) returns (r: Node?)
    requires Rep(f) && top in f.kids && (start != null ==> start in f.kids && Within(f, top, start))
    ensures start == null ==> r == null
    ensures start != null && !descend.NoDescend? ==> r == First(Ahead(f, top, start))
    ensures start != null && descend.NoDescend? ==> r == First(After(f, top, start))
  {
    if start == null {
      return null;
    }
    hide Wf, Within, After, First, LinksIn;
    Fields(start);
    var node: Node := start;
    FirstAhead(f, top, node);
    FirstAfter(f, top, node);
    if node.child != null && !descend.NoDescend? {
      return node.child;
    } else if node == top {
      return null;
    } else if node.next != null {
      return node.next;
    } else if node.parent != null && node.parent != top {
      node := node.parent;
      FirstAfter(f, top, node);
      while node.next == null
        invariant node in f.kids && Within(f, top, node) && node != top
        invariant After(f, top, node) == After(f, top, start)
        decreases Gap(f, top, node)
      {
        FirstAfter(f, top, node);
        if node.parent == top || node.parent == null {
          return null;
        }
        node := node.parent;
      }
      FirstAfter(f, top, node);
      return node.next;
    } else {
      return null;
    }
  }

  // -------------------------------------------------- the previous node

  lemma LastOfSum(s: seq<Node>, t: seq<Node>)
    requires |t| > 0
    ensures Last(s + t) == Last(t) && Last(t) != null
  {
  }

  /** The last node at or below `n` is that of its last child, if it has one. */
  lemma LastBelow(f: Forest, n: Node)
    requires Wf(f) && n in f.kids
    ensures LinksIn(f, n).lastChild == null ==> Last(Pre(f, n)) == n
    ensures LinksIn(f, n).lastChild != null ==>
      var c := Kid(f, n, |f.kids[n]| - 1); LinksIn(f, n).lastChild == c && Last(Pre(f, n)) == Last(Pre(f, c))
  {
    var k := |f.kids[n]|;
    PreSplit(f, n, k);
    if k > 0 {
      LastOfSum(PreTo(f, n, k - 1), Pre(f, Kid(f, n, k - 1)));
      LastOfSum([n], PreFrom(f, n, 0));
    }
  }

  /** What precedes a node ends with all at and below its previous sibling, or else with its parent. */
  lemma LastBefore(f: Forest, top: Node, n: Node)
    requires Wf(f) && top in f.kids && n in f.kids && Within(f, top, n) && n != top
    ensures var l := LinksIn(f, n);
      && n in f.par && f.par[n] in f.kids && Within(f, top, f.par[n]) && l.parent == f.par[n]
      && (l.prev != null ==>
        && l.prev in f.kids && Within(f, top, l.prev) && l.prev != top
        && Last(Upto(f, top, n)) == Last(Pre(f, l.prev)) && |Upto(f, top, n)| > 1)
      && (l.prev == null ==> Last(Upto(f, top, n)) == f.par[n] && (|Upto(f, top, n)| > 1 <==> f.par[n] != top))
  {
    hide *;
    UptoIs(f, top, n);
    var p, i := f.par[n], Pos(Siblings(f, n), n);
    StartsAtTop(f, top, p);
    var before := Upto(f, top, p) + [p];
    OneLast(p);
    if i > 0 {
      var c := Kid(f, p, i - 1);
      LaterKid(f, top, p, i - 1);
      PreStarts(f, c);
      LastOfThree(before, PreTo(f, p, i - 1), Pre(f, c));
    } else {
      LastOfThree(Upto(f, top, p), [p], []);
    }
  }

  /** What precedes a node: what precedes its parent, the parent, and all at and below its earlier siblings. */
  lemma UptoIs(f: Forest, top: Node, n: Node)
    requires Wf(f) && top in f.kids && n in f.kids && Within(f, top, n) && n != top
    ensures n in f.par && f.par[n] in f.kids && Within(f, top, f.par[n]) && Pos(Siblings(f, n), n) < |f.kids[f.par[n]]|
    ensures var p, i := f.par[n], Pos(Siblings(f, n), n);
      && Upto(f, top, n) == Upto(f, top, p) + [p] + PreTo(f, p, i)
      && PreTo(f, p, i) == (if i == 0 then [] else PreTo(f, p, i - 1) + Pre(f, Kid(f, p, i - 1)))
      && LinksIn(f, n).parent == p && LinksIn(f, n).prev == if i == 0 then null else Kid(f, p, i - 1)
  {
    hide Pre, PreFrom, Distinct, PreTo, LinksIn, Pos;
    PrevIs(f, n);
    PreToMore(f, f.par[n], Pos(Siblings(f, n), n));
  }

  lemma PreToMore(f: Forest, p: Node, i: nat)
    requires Wf(f) && p in f.kids && i <= |f.kids[p]|
    ensures PreTo(f, p, i) == if i == 0 then [] else PreTo(f, p, i - 1) + Pre(f, Kid(f, p, i - 1))
  {
    hide Pre;
  }

  lemma PrevIs(f: Forest, n: Node)
    requires Wf(f) && n in f.par
    ensures f.par[n] in f.kids && Pos(Siblings(f, n), n) < |f.kids[f.par[n]]| && n in f.kids
    ensures var p, i := f.par[n], Pos(Siblings(f, n), n);
      LinksIn(f, n).parent == p && LinksIn(f, n).prev == if i == 0 then null else Kid(f, p, i - 1)
  {
    hide Distinct, Pos;
  }

  lemma LaterKid(f: Forest, top: Node, p: Node, i: nat)
    requires Wf(f) && top in f.kids && p in f.kids && Within(f, top, p) && i < |f.kids[p]|
    ensures Within(f, top, Kid(f, p, i)) && Kid(f, p, i) != top
  {
    hide Distinct;
    WithinRank(f, top, p);
  }

  lemma LastOfThree(s: seq<Node>, t: seq<Node>, u: seq<Node>)
    ensures |u| > 0 ==> Last(s + (t + u)) == Last(u) && Last(u) != null
    ensures u == [] && |t| > 0 ==> Last(s + t + u) == Last(t)
    ensures s + t + [] == s + t
  {
  }

  lemma OneLast(n: Node)
    ensures Last([n]) == n
  {
  }

  lemma PreStarts(f: Forest, n: Node)
    requires Wf(f) && n in f.kids
    ensures |Pre(f, n)| > 0
  {
  }

  lemma {:induction false} StartsAtTop(f: Forest, top: Node, n: Node)
    requires Wf(f) && top in f.kids && n in f.kids && Within(f, top, n)
    ensures n != top ==> |Upto(f, top, n)| > 0 && Upto(f, top, n)[0] == top
    ensures n == top ==> Upto(f, top, n) == []
    decreases Gap(f, top, n)
  {
    if n != top {
      StartsAtTop(f, top, f.par[n]);
    }
  }

  /** `mxmlWalkPrev` */
  method WalkPrev(ghost f: Forest, start: Node?, top: Node, descend: Descend) returns (r: Node?)
    requires Rep(f) && top in f.kids && (start != null ==> start in f.kids && Within(f, top, start))
    ensures start == null || start == top ==> r == null
    ensures start != null && start != top && !descend.NoDescend? ==>
      r == if |Upto(f, top, start)| > 1 then Last(Upto(f, top, start)) else null
    ensures start != null && start != top && descend.NoDescend? ==>
      r == if start.prev != null then start.prev else if start.parent != top then start.parent else null
  {
    if start == null || start == top {
      return null;
    }
    hide Wf, Within, Upto, Pre, Last, LinksIn;
    LastBefore(f, top, start);
    if start.prev != null {
      LastBelow(f, start.prev);
      if start.prev.lastChild != null && !descend.NoDescend? {
        var node: Node := start.prev.lastChild;
        LastBelow(f, node);
        while node.lastChild != null
          invariant node in f.kids && Last(Pre(f, node)) == Last(Upto(f, top, start))
          decreases f.rank[node]
        {
          LastBelow(f, node);
          node := node.lastChild;
        }
        LastBelow(f, node);
        return node;
      } else {
        return start.prev;
      }
    } else if start.parent != top {
      return start.parent;
    } else {
      return null;
    }
  }

  /** Where a node stands decides what both walks return: they undo each other below `top`. */
  lemma WalksInvert(f: Forest, top: Node, m: Node, n: Node)
    requires Wf(f) && top in f.kids && m in f.kids && Within(f, top, m) && n in f.kids && Within(f, top, n)
    requires m != top && n != top
    ensures First(Ahead(f, top, m)) == n <==> |Upto(f, top, n)| > 1 && Last(Upto(f, top, n)) == m
  {
    hide Upto, Pre, Within, Ahead;
    AheadIs(f, top, m);
    AheadIs(f, top, n);
    PreDistinct(f, top);
    StartsAtTop(f, top, m);
    var s, i, j := Pre(f, top), |Upto(f, top, m)|, |Upto(f, top, n)|;
    assert First(s[i + 1..]) == Nth(s, i + 1);
    assert Last(s[..j]) == Nth(s, j - 1);
  }

  /** Walking on from `top` until the walk returns NULL: every node below it, each once, in document order. */
  method WalkAll(ghost f: Forest, top: Node) returns (seen: seq<Node>)
    requires Rep(f) && top in f.kids
    ensures seen == PreFrom(f, top, 0) && Distinct(seen)
    ensures forall m :: m in f.kids ==> (m in seen <==> Within(f, top, m) && m != top)
  {
    hide Wf, Within, PreFrom, Ahead, LinksIn, Distinct;
    seen := [];
    FromTop(f, top);
    var node := WalkNext(f, top, top, Descend);
    NextAhead(f, top, top);
    ghost var todo := Ahead(f, top, top);
    while node != null
      invariant PreFrom(f, top, 0) == seen + todo && node == First(todo)
      invariant node == null ==> todo == []
      invariant node != null ==> node in f.kids && Within(f, top, node) && todo == [node] + Ahead(f, top, node)
      decreases |todo|
    {
      seen := seen + [node];
      todo := Ahead(f, top, node);
      NextAhead(f, top, node);
      node := WalkNext(f, node, top, Descend);
    }
    AllBelow(f, top);
  }

  lemma FromTop(f: Forest, top: Node)
    requires Wf(f) && top in f.kids
    ensures Within(f, top, top) && Ahead(f, top, top) == PreFrom(f, top, 0)
  {
    assert PreFrom(f, top, 0) + [] == PreFrom(f, top, 0);
  }

  lemma AllBelow(f: Forest, top: Node)
    requires Wf(f) && top in f.kids
    ensures Distinct(PreFrom(f, top, 0))
    ensures forall m :: m in f.kids ==> (m in PreFrom(f, top, 0) <==> Within(f, top, m) && m != top)
  {
    hide Within, PreFrom;
    PreFromDistinct(f, top, 0);
    PreFromHas(f, top, 0, top);
    PreDistinct(f, top);
    forall m | m in f.kids ensures m in PreFrom(f, top, 0) <==> Within(f, top, m) && m != top {
      PreHas(f, top, m);
      PreIs(f, top);
      assert m in Pre(f, top) <==> m == top || m in PreFrom(f, top, 0);
    }
  }

  lemma PreIs(f: Forest, top: Node)
    requires Wf(f) && top in f.kids
    ensures Pre(f, top) == [top] + PreFrom(f, top, 0)
    ensures Distinct(Pre(f, top)) ==> top !in PreFrom(f, top, 0)
  {
    hide PreFrom;
    var s := [top] + PreFrom(f, top, 0);
    if top in PreFrom(f, top, 0) {
      var i :| 0 <= i < |PreFrom(f, top, 0)| && PreFrom(f, top, 0)[i] == top;
      assert s[0] == s[i + 1];
    }
  }

  // ------------------------------------------------- finding elements

  /** What a search asks of a node: an element name, an attribute, and a value of that attribute. */
  datatype Query = Query(element: Option<seq<byte>>, attr: Option<seq<byte>>, value: Option<seq<byte>>)

  predicate Matches(q: Query, n: Node) {
    && n.value.Element?
    && (q.element.None? || n.value.name == q.element.value)
    && (q.attr.None? ||
        var found := GetAttr(n.value.attrs, q.attr.value);
        found.Some? && (q.value.None? || found == q.value))
  }

  /** A node matches exactly if it is an element with the name, the attribute and the value asked for. */
  lemma MatchesMeans(q: Query, n: Node)
    ensures Matches(q, n) <==>
      && n.value.Element?
      && (q.element.Some? ==> n.value.name == q.element.value)
      && (q.attr.Some? && q.value.None? ==> HasAttr(n.value.attrs, q.attr.value))
      && (q.attr.Some? && q.value.Some? ==> HasValue(n.value.attrs, q.attr.value, q.value.value))
  {
    hide HasAttr, HasValue;
    if n.value.Element? && q.attr.Some? {
      GetAttrIs(n.value.attrs, q.attr.value);
    }
  }

  /** The matching nodes of `s`, in order. */
  function Filter(q: Query, s: seq<Node>): (r: seq<Node>)
    ensures forall i :: 0 <= i < |r| ==> r[i] in s && Matches(q, r[i])
    ensures forall i :: 0 <= i < |s| && Matches(q, s[i]) ==> s[i] in r
  {
    if |s| == 0 then [] else (if Matches(q, s[0]) then [s[0]] else []) + Filter(q, s[1..])
  }

  lemma {:induction false} FilterJoin(q: Query, s: seq<Node>, t: seq<Node>)
    ensures Filter(q, s + t) == Filter(q, s) + Filter(q, t)
  {
    if |s| == 0 {
      assert s + t == t;
    } else {
      assert (s + t)[1..] == s[1..] + t;
      FilterJoin(q, s[1..], t);
    }
  }

  /** The nodes a search looks at, in order: with full descent all that follow, else a node and its later siblings. */
  ghost function Candidates(f: Forest, start: Node, top: Node, descend: Descend): seq<Node>
    requires Wf(f) && top in f.kids && start in f.kids && Within(f, top, start)
  {
    if descend.Descend? then Ahead(f, top, start)
    else
      var first := First(if descend.NoDescend? then After(f, top, start) else Ahead(f, top, start));
      if first == null || first !in f.kids then [] else FromSibling(f, first)
  }

  /**
    With full descent the candidates are what follows in document order; with
    `MXML_DESCEND_FIRST` a node's children, and with `MXML_NO_DESCEND` its later
    siblings, where it has any.
  */
  lemma CandidatesMean(f: Forest, start: Node, top: Node, descend: Descend)
    requires Wf(f) && top in f.kids && start in f.kids && Within(f, top, start)
    ensures |Upto(f, top, start)| < |Pre(f, top)|
    ensures var s := Candidates(f, start, top, descend);
      && (descend.Descend? ==> s == Pre(f, top)[|Upto(f, top, start)| + 1..])
      && (descend.DescendFirst? && f.kids[start] != [] ==> s == f.kids[start])
      && (descend.NoDescend? && start == top ==> s == [])
      && (descend.NoDescend? && start != top ==>
            var i := Pos(Siblings(f, start), start); i + 1 < |Siblings(f, start)| ==> s == Siblings(f, start)[i + 1..])
  {
    hide Wf, Within, Pre, PreFrom, After, Upto, Ahead;
    AheadIs(f, top, start);
    FirstAhead(f, top, start);
    FirstAfter(f, top, start);
    if descend.DescendFirst? && f.kids[start] != [] {
      KidPlace(f, start, 0);
    } else if descend.NoDescend? && start != top {
      var i := Pos(Siblings(f, start), start);
      if i + 1 < |Siblings(f, start)| {
        KidPlace(f, f.par[start], i + 1);
      }
    }
  }

  lemma KidPlace(f: Forest, p: Node, i: nat)
    requires Wf(f) && p in f.kids && i < |f.kids[p]|
    ensures var c := f.kids[p][i];
      c in f.kids && c in f.par && f.par[c] == p && Siblings(f, c) == f.kids[p] && Pos(f.kids[p], c) == i
  {
    PosIs(f.kids[p], i);
  }

  /** A node and its later siblings. */
  ghost function FromSibling(f: Forest, n: Node): (s: seq<Node>)
    requires Wf(f) && n in f.kids
    ensures |s| > 0 && s[0] == n
  {
    if n in f.par then Siblings(f, n)[Pos(Siblings(f, n), n)..] else [n]
  }

  lemma NextSibling(f: Forest, n: Node)
    requires Wf(f) && n in f.kids
    ensures var next := LinksIn(f, n).next;
      if next == null then FromSibling(f, n) == [n]
      else next in f.kids && FromSibling(f, n) == [n] + FromSibling(f, next)
  {
    if n in f.par {
      var s, i := Siblings(f, n), Pos(Siblings(f, n), n);
      if i + 1 < |s| {
        PosIs(s, i + 1);
      }
    }
  }

  lemma NextAhead(f: Forest, top: Node, n: Node)
    requires Wf(f) && top in f.kids && n in f.kids && Within(f, top, n)
    ensures var next := First(Ahead(f, top, n));
      if next == null then Ahead(f, top, n) == []
      else next in f.kids && Within(f, top, next) && Ahead(f, top, n) == [next] + Ahead(f, top, next)
  {
    hide Ahead, Within, Upto, Pre;
    AheadIs(f, top, n);
    var s, k := Pre(f, top), |Upto(f, top, n)|;
    if k + 1 < |s| {
      var next := s[k + 1];
      PreHas(f, top, next);
      AheadIs(f, top, next);
      PreDistinct(f, top);
      SamePlace(s, k + 1, |Upto(f, top, next)|);
    }
  }

  lemma SamePlace(s: seq<Node>, i: nat, j: nat)
    requires Distinct(s) && i < |s| && j < |s| && s[i] == s[j]
    ensures i == j
  {
  }

  /** `mxmlFindElement`: the first candidate that matches. */
  method FindElement(ghost f: Forest, start: Node?, top: Node?, q: Query, descend: Descend) returns (r: Node?)
    requires Rep(f) && (top != null ==> top in f.kids)
    requires top != null && start != null ==> start in f.kids && Within(f, top, start)
    ensures start == null || top == null || (q.attr.None? && q.value.Some?) ==> r == null
    ensures start != null && top != null && (q.attr.None? ==> q.value.None?) ==>
      r == First(Filter(q, Candidates(f, start, top, descend)))
  {
    if start == null || top == null || (q.attr.None? && q.value.Some?) {
      return null;
    }
    hide Wf, Within, Ahead, After, LinksIn, FromSibling, Filter, Candidates, Scan;
    var node := WalkNext(f, start, top, descend);
    ghost var todo := Candidates(f, start, top, descend);
    ScanStart(f, start, top, descend);
    while node != null
      invariant First(Filter(q, Candidates(f, start, top, descend))) == First(Filter(q, todo))
      invariant Scan(f, top, descend, node, todo)
      decreases |todo|
    {
      ScanNext(f, top, descend, node, todo);
      FilterFirst(q, node, todo);
      if node.value.Element? && (q.element.None? || node.value.name == q.element.value) {
        if q.attr.None? {
          return node;
        }
        var temp := GetAttr(node.value.attrs, q.attr.value);
        if temp.Some? {
          if q.value.None? || q.value.value == temp.value {
            return node;
          }
        }
      }
      todo := todo[1..];
      if descend.Descend? {
        node := WalkNext(f, node, top, Descend);
      } else {
        node := node.next;
      }
    }
    ScanEnd(f, top, descend, q, todo);
    return null;
  }

  /** The nodes still to be looked at, from `node` on. */
  ghost predicate Scan(f: Forest, top: Node, descend: Descend, node: Node?, todo: seq<Node>)
    requires Wf(f) && top in f.kids
  {
    if node == null then todo == []
    else
      && node in f.kids
      && if descend.Descend? then Within(f, top, node) && todo == [node] + Ahead(f, top, node) else todo == FromSibling(f, node)
  }

  lemma ScanStart(f: Forest, start: Node, top: Node, descend: Descend)
    requires Wf(f) && top in f.kids && start in f.kids && Within(f, top, start)
    ensures Scan(f, top, descend, First(if descend.NoDescend? then After(f, top, start) else Ahead(f, top, start)),
                 Candidates(f, start, top, descend))
  {
    hide Ahead, Within, FromSibling;
    NextAhead(f, top, start);
    AfterIn(f, top, start);
  }

  lemma AfterIn(f: Forest, top: Node, n: Node)
    requires Wf(f) && top in f.kids && n in f.kids && Within(f, top, n)
    ensures var next := First(After(f, top, n)); next != null ==> next in f.kids
  {
    hide Ahead, Within, Upto, Pre, After;
    Spread(f, top, n);
    if |After(f, top, n)| > 0 {
      var s := Pre(f, top);
      assert s[|s| - |After(f, top, n)|] == After(f, top, n)[0];
      PreHas(f, top, After(f, top, n)[0]);
    }
  }

  lemma ScanNext(f: Forest, top: Node, descend: Descend, node: Node, todo: seq<Node>)
    requires Wf(f) && top in f.kids && Scan(f, top, descend, node, todo)
    ensures node in f.kids && |todo| > 0 && todo[0] == node
    ensures descend.Descend? ==> Within(f, top, node) && Scan(f, top, descend, First(Ahead(f, top, node)), todo[1..])
    ensures !descend.Descend? ==> Scan(f, top, descend, LinksIn(f, node).next, todo[1..])
  {
    hide Ahead, Within, FromSibling, LinksIn;
    if descend.Descend? {
      NextAhead(f, top, node);
    } else {
      NextSibling(f, node);
    }
  }

  lemma ScanEnd(f: Forest, top: Node, descend: Descend, q: Query, todo: seq<Node>)
    requires Wf(f) && top in f.kids && Scan(f, top, descend, null, todo)
    ensures First(Filter(q, todo)) == null
  {
  }

  lemma FilterFirst(q: Query, n: Node, s: seq<Node>)
    requires |s| > 0 && s[0] == n
    ensures if Matches(q, n) then First(Filter(q, s)) == n else Filter(q, s) == Filter(q, s[1..])
  {
  }
}
