/**
  The sorted index over the elements of a tree: its quicksort, and the search that
  returns the matching nodes one call at a time.
*/
module MxmlIndex {
  import opened Basics
  import opened MxmlAttr
  import opened MxmlForest
  import opened MxmlNode
  import opened MxmlSearch

  // ------------------------------------------------------- comparing

  /** What nodes are sorted by: the element name, then the value of the indexed attribute. */
  datatype Key = Key(name: seq<byte>, value: seq<byte>)

  /** The node can be in an index on `attr`. */
  predicate Indexable(attr: Option<seq<byte>>, n: Node) {
    n.value.Element? && (attr.Some? ==> GetAttr(n.value.attrs, attr.value).Some?)
  }

  function KeyOf(attr: Option<seq<byte>>, n: Node): Key {
    if !Indexable(attr, n) then Key([], [])
    else Key(n.value.name, if attr.Some? then GetAttr(n.value.attrs, attr.value).value else [])
  }

  function Compare(k: Key, l: Key): int {
    var diff := StrCmp(k.name, l.name);
    if diff != 0 then diff else StrCmp(k.value, l.value)
  }

  /** `index_compare` */
  function IndexCompare(attr: Option<seq<byte>>, first: Node, second: Node): int {
    Compare(KeyOf(attr, first), KeyOf(attr, second))
  }

  predicate Le(attr: Option<seq<byte>>, a: Node, b: Node) {
    IndexCompare(attr, a, b) <= 0
  }

  /** The comparison is a total preorder. */
  lemma LeTotal(attr: Option<seq<byte>>, a: Node, b: Node)
    ensures Le(attr, a, a) && (Le(attr, a, b) || Le(attr, b, a))
  {
    var k, l := KeyOf(attr, a), KeyOf(attr, b);
    StrCmpSwap(k.name, k.name);
    StrCmpSwap(k.value, k.value);
    StrCmpSwap(l.name, k.name);
    StrCmpSwap(k.name, l.name);
    StrCmpSwap(l.value, k.value);
  }

  lemma LeTrans(attr: Option<seq<byte>>, a: Node, b: Node, c: Node)
    requires Le(attr, a, b) && Le(attr, b, c)
    ensures Le(attr, a, c)
  {
    var k, l, m := KeyOf(attr, a), KeyOf(attr, b), KeyOf(attr, c);
    StrCmpTrans(k.name, l.name, m.name);
    StrCmpSwap(k.name, l.name);
    StrCmpSwap(l.name, m.name);
    StrCmpSwap(m.name, l.name);
    StrCmpSwap(k.name, m.name);
    if k.name == m.name {
      StrCmpTrans(k.value, l.value, m.value);
    }
  }

  // --------------------------------------------------------- sorting

  /** `t` is `s` with the elements from `lo` to `hi` in another order. */
  ghost predicate Perm(s: seq<Node>, t: seq<Node>, lo: nat, hi: nat) {
    && |s| == |t| && lo <= hi <= |s|
    && s[..lo] == t[..lo] && s[hi..] == t[hi..] && multiset(s[lo..hi]) == multiset(t[lo..hi])
  }

  lemma PermWiden(s: seq<Node>, t: seq<Node>, lo: nat, hi: nat, lo': nat, hi': nat)
    requires Perm(s, t, lo, hi) && lo' <= lo && hi <= hi' <= |s|
    ensures Perm(s, t, lo', hi')
  {
    Slices(s, lo', lo, hi, hi');
    Slices(t, lo', lo, hi, hi');
    assert s[lo'..lo] == s[..lo][lo'..] == t[lo'..lo];
    assert s[hi..hi'] == s[hi..][..hi' - hi] == t[hi..hi'];
    assert s[..lo'] == s[..lo][..lo'] && t[..lo'] == t[..lo][..lo'];
    assert s[hi'..] == s[hi..][hi' - hi..] && t[hi'..] == t[hi..][hi' - hi..];
  }

  lemma Slices(s: seq<Node>, a: nat, b: nat, c: nat, d: nat)
    requires a <= b <= c <= d <= |s|
    ensures multiset(s[a..d]) == multiset(s[a..b]) + multiset(s[b..c]) + multiset(s[c..d])
  {
    assert s[a..d] == s[a..b] + s[b..c] + s[c..d];
  }

  lemma PermTrans(s: seq<Node>, t: seq<Node>, u: seq<Node>, lo: nat, hi: nat)
    requires Perm(s, t, lo, hi) && Perm(t, u, lo, hi)
    ensures Perm(s, u, lo, hi)
  {
  }

  lemma PermSwap(s: seq<Node>, t: seq<Node>, lo: nat, hi: nat, i: nat, j: nat)
    requires lo <= i <= j < hi <= |s| && t == s[i := s[j]][j := s[i]]
    ensures Perm(s, t, lo, hi)
  {
    assert s[..lo] == t[..lo] && s[hi..] == t[hi..];
    var u, v := s[lo..hi], t[lo..hi];
    if i < j {
      assert u == u[..i - lo] + [s[i]] + u[i - lo + 1..j - lo] + [s[j]] + u[j - lo + 1..];
      assert v == u[..i - lo] + [s[j]] + u[i - lo + 1..j - lo] + [s[i]] + u[j - lo + 1..];
    } else {
      assert u == v;
    }
  }

  /** Reordering keeps what holds of all elements. */
  lemma PermEach(s: seq<Node>, t: seq<Node>, lo: nat, hi: nat, k: nat) returns (j: nat)
    requires Perm(s, t, lo, hi) && lo <= k < hi
    ensures lo <= j < hi && t[k] == s[j]
  {
    assert t[lo..hi][k - lo] in multiset(t[lo..hi]);
    assert t[k] in s[lo..hi];
    var i :| 0 <= i < hi - lo && s[lo..hi][i] == t[k];
    j := lo + i;
  }

  lemma PermAt(s: seq<Node>, t: seq<Node>, lo: nat, hi: nat, k: nat)
    requires Perm(s, t, lo, hi) && k < |s| && !(lo <= k < hi)
    ensures t[k] == s[k]
  {
    if k < lo {
      assert s[..lo][k] == t[..lo][k];
    } else {
      assert s[hi..][k - hi] == t[hi..][k - hi];
    }
  }

  ghost predicate Sorted(attr: Option<seq<byte>>, s: seq<Node>, lo: nat, hi: nat) {
    hi <= |s| && forall i, j :: lo <= i < j < hi ==> Le(attr, s[i], s[j])
  }

  /** Everything from `lo` to `mid` is at most everything from there to `hi`. */
  ghost predicate Parted(attr: Option<seq<byte>>, s: seq<Node>, lo: nat, mid: nat, hi: nat) {
    hi <= |s| && forall i, j :: lo <= i < mid <= j < hi ==> Le(attr, s[i], s[j])
  }

  /** Reordering one side keeps the sides apart. */
  lemma PartedPerm(attr: Option<seq<byte>>, s: seq<Node>, t: seq<Node>, lo: nat, mid: nat, hi: nat, a: nat, b: nat)
    requires Parted(attr, s, lo, mid, hi) && Perm(s, t, a, b) && (b <= lo || (lo <= a && b <= mid) || (mid <= a && b <= hi) || hi <= a)
    ensures Parted(attr, t, lo, mid, hi)
  {
    hide Le, Perm;
    assert |t| == |s| by { PermSize(s, t, a, b); }
    forall i, j | lo <= i < mid <= j < hi ensures Le(attr, t[i], t[j]) {
      var i', j' := i, j;
      if a <= i < b { i' := PermEach(s, t, a, b, i); } else { PermAt(s, t, a, b, i); }
      if a <= j < b { j' := PermEach(s, t, a, b, j); } else { PermAt(s, t, a, b, j); }
    }
  }

  lemma PermSize(s: seq<Node>, t: seq<Node>, lo: nat, hi: nat)
    requires Perm(s, t, lo, hi)
    ensures |s| == |t| && lo <= hi <= |s|
  {
  }

  lemma SortedPerm(attr: Option<seq<byte>>, s: seq<Node>, t: seq<Node>, lo: nat, hi: nat, a: nat, b: nat)
    requires Sorted(attr, s, lo, hi) && Perm(s, t, a, b) && (b <= lo || hi <= a)
    ensures Sorted(attr, t, lo, hi)
  {
    hide Le, Perm;
    PermSize(s, t, a, b);
    forall i, j | lo <= i < j < hi ensures Le(attr, t[i], t[j]) {
      PermAt(s, t, a, b, i);
      PermAt(s, t, a, b, j);
    }
  }

  /** The elements up to `templ` are at most the pivot; those behind `tempr` are greater. */
  ghost predicate Scanned(attr: Option<seq<byte>>, s: seq<Node>, left: nat, templ: nat, tempr: nat, right: nat, pivot: Node) {
    && left <= templ <= right < |s| && left <= tempr <= right && s[left] == pivot
    && (forall k :: left <= k < templ ==> Le(attr, s[k], pivot))
    && (forall k :: tempr < k <= right ==> !Le(attr, s[k], pivot))
  }

  lemma ScanLeft(attr: Option<seq<byte>>, s: seq<Node>, left: nat, templ: nat, tempr: nat, right: nat, pivot: Node)
    requires Scanned(attr, s, left, templ, tempr, right, pivot) && templ < right && Le(attr, s[templ], pivot)
    ensures Scanned(attr, s, left, templ + 1, tempr, right, pivot)
  {
    hide Le;
  }

  lemma ScanRight(attr: Option<seq<byte>>, s: seq<Node>, left: nat, templ: nat, tempr: nat, right: nat, pivot: Node)
    requires Scanned(attr, s, left, templ, tempr, right, pivot) && left < tempr && !Le(attr, s[tempr], pivot)
    ensures Scanned(attr, s, left, templ, tempr - 1, right, pivot)
  {
    hide Le;
  }

  lemma ScanSwap(attr: Option<seq<byte>>, s: seq<Node>, left: nat, templ: nat, tempr: nat, right: nat, pivot: Node)
    requires Scanned(attr, s, left, templ, tempr, right, pivot) && left < templ < tempr
    requires Le(attr, s[tempr], pivot)
    ensures var t := s[templ := s[tempr]][tempr := s[templ]];
      Scanned(attr, t, left, templ, tempr, right, pivot) && Le(attr, t[templ], pivot) && Perm(s, t, left, right + 1)
  {
    hide Le, Perm;
    PermSwap(s, s[templ := s[tempr]][tempr := s[templ]], left, right + 1, templ, tempr);
  }

  /** One round of the partition loop: both ends move in, and the elements they stop at change places. */
  method Round(attr: Option<seq<byte>>, nodes: array<Node>, left: nat, right: nat, l: nat, r: nat, pivot: Node)
    returns (templ: nat, tempr: nat)
    requires right < nodes.Length && l < r && Scanned(attr, nodes[..], left, l, r, right, pivot) && Le(attr, nodes[l], pivot)
    modifies nodes
    ensures Scanned(attr, nodes[..], left, templ, tempr, right, pivot) && Perm(old(nodes[..]), nodes[..], left, right + 1)
    ensures l < templ && Le(attr, nodes[if templ < tempr then templ else tempr], pivot)
  {
    ScannedBounds(attr, nodes[..], left, l, r, right, pivot);
    hide Le, Perm, Scanned;
    ghost var was := nodes[..];
    PermSwap(was, was, left, right + 1, left, left);
    LeTotal(attr, pivot, pivot);
    templ, tempr := l, r;
    while templ < right && Le(attr, nodes[templ], pivot)
      invariant l <= templ <= right && (templ == l ==> Le(attr, nodes[templ], pivot))
      invariant nodes[..] == was && Scanned(attr, was, left, templ, tempr, right, pivot)
    {
      ScanLeft(attr, was, left, templ, tempr, right, pivot);
      templ := templ + 1;
    }
    while tempr > left && !Le(attr, nodes[tempr], pivot)
      invariant left <= tempr <= right
      invariant nodes[..] == was && Scanned(attr, was, left, templ, tempr, right, pivot)
    {
      ScanRight(attr, was, left, templ, tempr, right, pivot);
      tempr := tempr - 1;
    }
    if templ < tempr {
      ScanSwap(attr, was, left, templ, tempr, right, pivot);
      var temp := nodes[templ];
      nodes[templ] := nodes[tempr];
      nodes[tempr] := temp;
      assert nodes[..] == was[templ := was[tempr]][tempr := was[templ]];
    }
  }

  lemma ScannedBounds(attr: Option<seq<byte>>, s: seq<Node>, left: nat, templ: nat, tempr: nat, right: nat, pivot: Node)
    requires Scanned(attr, s, left, templ, tempr, right, pivot)
    ensures left <= templ <= right < |s| && left <= tempr <= right && s[left] == pivot
  {
  }

  /** Once the ends have met, the pivot goes where the right one stopped. */
  function Placed(attr: Option<seq<byte>>, s: seq<Node>, left: nat, tempr: nat, pivot: Node): (t: seq<Node>)
    requires left <= tempr < |s|
    ensures |t| == |s|
  {
    if Le(attr, pivot, s[tempr]) then s else s[left := s[tempr]][tempr := pivot]
  }

  lemma PivotPlaced(attr: Option<seq<byte>>, s: seq<Node>, left: nat, templ: nat, tempr: nat, right: nat, pivot: Node)
    requires Scanned(attr, s, left, templ, tempr, right, pivot) && templ >= tempr && Le(attr, s[tempr], pivot)
    ensures var t := Placed(attr, s, left, tempr, pivot);
      && Perm(s, t, left, right + 1)
      && Parted(attr, t, left, tempr, tempr + 1) && Parted(attr, t, left, tempr + 1, right + 1)
  {
    PlacedFacts(attr, s, left, templ, tempr, right, pivot);
    hide Le, Perm, Placed, Scanned;
    var t := Placed(attr, s, left, tempr, pivot);
    forall i | left <= i < tempr ensures Le(attr, t[i], t[tempr]) {
      LeTrans(attr, t[i], pivot, t[tempr]);
    }
    forall i, j | left <= i <= tempr < j <= right ensures Le(attr, t[i], t[j]) {
      LeTrans(attr, t[i], pivot, t[j]);
    }
  }

  lemma PlacedFacts(attr: Option<seq<byte>>, s: seq<Node>, left: nat, templ: nat, tempr: nat, right: nat, pivot: Node)
    requires Scanned(attr, s, left, templ, tempr, right, pivot) && templ >= tempr && Le(attr, s[tempr], pivot)
    ensures left <= tempr <= right < |s|
    ensures var t := Placed(attr, s, left, tempr, pivot);
      && Perm(s, t, left, right + 1)
      && (forall i :: left <= i <= tempr ==> Le(attr, t[i], pivot))
      && (forall j :: tempr <= j <= right ==> Le(attr, pivot, t[j]))
  {
    hide Le, Perm;
    ScannedBounds(attr, s, left, templ, tempr, right, pivot);
    PlacedPerm(attr, s, left, tempr, right);
    LeTotal(attr, pivot, pivot);
    forall j | tempr < j <= right ensures Le(attr, pivot, s[j]) {
      LeTotal(attr, pivot, s[j]);
    }
  }

  lemma PlacedPerm(attr: Option<seq<byte>>, s: seq<Node>, left: nat, tempr: nat, right: nat)
    requires left <= tempr <= right < |s|
    ensures Perm(s, Placed(attr, s, left, tempr, s[left]), left, right + 1)
  {
    hide Le, Perm;
    PermSwap(s, s, left, right + 1, left, left);
    PermSwap(s, s[left := s[tempr]][tempr := s[left]], left, right + 1, left, tempr);
  }

  /** Partitions around the first element, and returns where that element ends up. */
  method Partition(attr: Option<seq<byte>>, nodes: array<Node>, left: nat, right: nat) returns (tempr: nat)
    requires left <= right < nodes.Length
    modifies nodes
    ensures left <= tempr <= right && Perm(old(nodes[..]), nodes[..], left, right + 1)
    ensures Parted(attr, nodes[..], left, tempr, tempr + 1) && Parted(attr, nodes[..], left, tempr + 1, right + 1)
  {
    hide Le, Perm, Parted, Scanned, Placed;
    ghost var was := nodes[..];
    PermSwap(was, was, left, right + 1, left, left);
    var pivot := nodes[left];
    LeTotal(attr, pivot, pivot);
    var templ := left;
    tempr := right;
    ScanStarts(attr, was, left, right);
    while templ < tempr
      invariant left <= tempr <= right && Scanned(attr, nodes[..], left, templ, tempr, right, pivot)
      invariant Perm(was, nodes[..], left, right + 1)
      invariant Le(attr, nodes[if templ < tempr then templ else tempr], pivot)
      decreases right - templ
    {
      ghost var now := nodes[..];
      templ, tempr := Round(attr, nodes, left, right, templ, tempr, pivot);
      ScannedBounds(attr, nodes[..], left, templ, tempr, right, pivot);
      PermTrans(was, now, nodes[..], left, right + 1);
    }
    ghost var now := nodes[..];
    PivotPlaced(attr, now, left, templ, tempr, right, pivot);
    PermTrans(was, now, Placed(attr, now, left, tempr, pivot), left, right + 1);
    PlacePivot(attr, nodes, left, tempr, pivot);
  }

  method PlacePivot(attr: Option<seq<byte>>, nodes: array<Node>, left: nat, tempr: nat, pivot: Node)
    requires left <= tempr < nodes.Length
    modifies nodes
    ensures nodes[..] == Placed(attr, old(nodes[..]), left, tempr, pivot)
  {
    hide Le, Placed;
    if !Le(attr, pivot, nodes[tempr]) {
      nodes[left] := nodes[tempr];
      nodes[tempr] := pivot;
    }
    PlacedIs(attr, old(nodes[..]), nodes[..], left, tempr, pivot);
  }

  lemma PlacedIs(attr: Option<seq<byte>>, s: seq<Node>, t: seq<Node>, left: nat, tempr: nat, pivot: Node)
    requires left <= tempr < |s|
    requires if Le(attr, pivot, s[tempr]) then t == s else t == s[left := s[tempr]][tempr := pivot]
    ensures t == Placed(attr, s, left, tempr, pivot)
  {
  }

  lemma ScanStarts(attr: Option<seq<byte>>, s: seq<Node>, left: nat, right: nat)
    requires left <= right < |s|
    ensures Scanned(attr, s, left, left, right, right, s[left])
  {
  }

  /** What is in front of `left` is in place, and not greater than the rest. */
  ghost predicate SortedTo(attr: Option<seq<byte>>, was: seq<Node>, s: seq<Node>, left0: nat, left: nat, right: nat) {
    && left0 <= left && right < |s|
    && Perm(was, s, left0, right + 1) && Sorted(attr, s, left0, left) && Parted(attr, s, left0, left, right + 1)
  }

  /** One round of the loop of `index_sort`: partitions the rest and sorts what is in front of the pivot. */
  method SortRound(attr: Option<seq<byte>>, nodes: array<Node>, left0: nat, left: nat, right: nat, ghost was: seq<Node>)
    returns (tempr: nat)
    requires left0 <= left <= right < nodes.Length && SortedTo(attr, was, nodes[..], left0, left, right)
    modifies nodes
    ensures left <= tempr <= right && SortedTo(attr, was, nodes[..], left0, tempr + 1, right)
    decreases right - left0, 0
  {
    hide Le, Perm, Parted, Sorted;
    ghost var now := nodes[..];
    tempr := Partition(attr, nodes, left, right);
    ghost var parted := nodes[..];
    if left < tempr && left < tempr - 1 {
      Sort(attr, nodes, left, tempr - 1);
    } else {
      OneSorted(attr, parted, left, tempr);
    }
    SortStep(attr, now, parted, nodes[..], left0, left, tempr, right);
    PermTrans(was, now, nodes[..], left0, right + 1);
  }

  /** `index_sort` */
  method Sort(attr: Option<seq<byte>>, nodes: array<Node>, left0: nat, right: nat)
    requires left0 <= right < nodes.Length
    modifies nodes
    ensures Perm(old(nodes[..]), nodes[..], left0, right + 1) && Sorted(attr, nodes[..], left0, right + 1)
    decreases right - left0, 1
  {
    hide Perm, Sorted, SortedTo;
    ghost var was := nodes[..];
    NothingSorted(attr, was, left0, right);
    var left := left0;
    var more := true;
    while more
      invariant left0 <= left <= right + 1 && (more ==> left <= right) && (!more ==> left >= right)
      invariant SortedTo(attr, was, nodes[..], left0, left, right)
      decreases right + 1 - left, more
    {
      var tempr := SortRound(attr, nodes, left0, left, right, was);
      left := tempr + 1;
      more := right > left;
    }
    LastSorted(attr, was, nodes[..], left0, left, right);
  }

  lemma NothingSorted(attr: Option<seq<byte>>, s: seq<Node>, lo: nat, right: nat)
    requires lo <= right < |s|
    ensures SortedTo(attr, s, s, lo, lo, right)
  {
    PermSwap(s, s, lo, right + 1, lo, lo);
  }

  lemma OneSorted(attr: Option<seq<byte>>, s: seq<Node>, lo: nat, hi: nat)
    requires lo <= hi <= |s| && hi <= lo + 1
    ensures Sorted(attr, s, lo, hi) && Perm(s, s, lo, hi)
  {
  }

  lemma SortedAll(attr: Option<seq<byte>>, u: seq<Node>, lo: nat, left: nat, tempr: nat, right: nat)
    requires lo <= left <= tempr <= right < |u|
    requires Sorted(attr, u, lo, left) && Parted(attr, u, lo, left, right + 1) && Sorted(attr, u, left, tempr)
    requires Parted(attr, u, left, tempr, tempr + 1) && Parted(attr, u, left, tempr + 1, right + 1)
    ensures Sorted(attr, u, lo, tempr + 1) && Parted(attr, u, lo, tempr + 1, right + 1)
  {
    hide Le;
  }

  /** After the part in front of the pivot is sorted, everything up to the pivot is. */
  lemma SortStep(attr: Option<seq<byte>>, s: seq<Node>, t: seq<Node>, u: seq<Node>, lo: nat, left: nat, tempr: nat, right: nat)
    requires lo <= left <= tempr <= right < |s|
    requires Sorted(attr, s, lo, left) && Parted(attr, s, lo, left, right + 1)
    requires Perm(s, t, left, right + 1) && Parted(attr, t, left, tempr, tempr + 1) && Parted(attr, t, left, tempr + 1, right + 1)
    requires Perm(t, u, left, tempr) && Sorted(attr, u, left, tempr)
    ensures Perm(s, u, lo, right + 1)
    ensures Sorted(attr, u, lo, tempr + 1) && Parted(attr, u, lo, tempr + 1, right + 1)
  {
    hide *;
    PermSize(s, t, left, right + 1);
    PermSize(t, u, left, tempr);
    PermWiden(t, u, left, tempr, left, right + 1);
    PermTrans(s, t, u, left, right + 1);
    PermWiden(s, u, left, right + 1, lo, right + 1);
    SortedPerm(attr, s, u, lo, left, left, right + 1);
    PartedPerm(attr, s, u, lo, left, right + 1, left, right + 1);
    PartedPerm(attr, t, u, left, tempr, tempr + 1, left, tempr);
    PartedPerm(attr, t, u, left, tempr + 1, right + 1, left, tempr);
    SortedAll(attr, u, lo, left, tempr, right);
  }

  lemma LastSorted(attr: Option<seq<byte>>, was: seq<Node>, s: seq<Node>, lo: nat, left: nat, right: nat)
    requires lo <= left && right <= left <= right + 1 && SortedTo(attr, was, s, lo, left, right)
    ensures Perm(was, s, lo, right + 1) && Sorted(attr, s, lo, right + 1)
  {
    hide Le, Perm;
  }

  // ------------------------------------------------------- searching

  /** `index_find`: how the wanted element name and value compare with those of a node */
  function Probe(attr: Option<seq<byte>>, element: Option<seq<byte>>, value: Option<seq<byte>>, n: Node): int {
    var k := KeyOf(attr, n);
    var diff := if element.Some? then StrCmp(element.value, k.name) else 0;
    if diff != 0 then diff else if value.Some? then StrCmp(value.value, k.value) else 0
  }

  /** Going through `s`, the wanted key is first behind, then at, then before the nodes. */
  ghost predicate Falling(attr: Option<seq<byte>>, element: Option<seq<byte>>, value: Option<seq<byte>>, s: seq<Node>) {
    forall i, j :: 0 <= i < j < |s| ==> Order(Probe(attr, element, value, s[i])) >= Order(Probe(attr, element, value, s[j]))
  }

  function Order(diff: int): int {
    if diff < 0 then -1 else if diff == 0 then 0 else 1
  }

  lemma StrCmpFalls(a: seq<byte>, b: seq<byte>, c: seq<byte>)
    requires StrCmp(b, c) <= 0
    ensures Order(StrCmp(a, b)) >= Order(StrCmp(a, c))
  {
    StrCmpSwap(a, b);
    StrCmpSwap(a, c);
    StrCmpSwap(c, a);
    if StrCmp(a, b) <= 0 {
      StrCmpTrans(a, b, c);
      if StrCmp(a, c) == 0 && StrCmp(a, b) < 0 {
        StrCmpSwap(b, c);
        StrCmpSwap(c, b);
      }
    }
  }

  /** A search by element name, with or without a value, fits the order of the index. */
  lemma SortedFalls(attr: Option<seq<byte>>, element: seq<byte>, value: Option<seq<byte>>, s: seq<Node>)
    requires Sorted(attr, s, 0, |s|)
    ensures Falling(attr, Some(element), value, s)
  {
    hide StrCmp, KeyOf;
    forall i, j | 0 <= i < j < |s|
      ensures Order(Probe(attr, Some(element), value, s[i])) >= Order(Probe(attr, Some(element), value, s[j]))
    {
      var k, l := KeyOf(attr, s[i]), KeyOf(attr, s[j]);
      assert Le(attr, s[i], s[j]);
      StrCmpSwap(k.name, l.name);
      StrCmpFalls(element, k.name, l.name);
      StrCmpSwap(element, k.name);
      StrCmpSwap(element, l.name);
      if value.Some? && k.name == l.name {
        StrCmpFalls(value.value, k.value, l.value);
      }
    }
  }

  /** So does a search by value alone where the values ascend along the index. */
  lemma AscendingFalls(attr: Option<seq<byte>>, value: Option<seq<byte>>, s: seq<Node>)
    requires Ascending(attr, s)
    ensures Falling(attr, None, value, s)
  {
    hide StrCmp, KeyOf;
    forall i, j | 0 <= i < j < |s|
      ensures Order(Probe(attr, None, value, s[i])) >= Order(Probe(attr, None, value, s[j]))
    {
      if value.Some? {
        assert StrCmp(KeyOf(attr, s[i]).value, KeyOf(attr, s[j]).value) <= 0;
        StrCmpFalls(value.value, KeyOf(attr, s[i]).value, KeyOf(attr, s[j]).value);
      }
    }
  }

  ghost predicate Ascending(attr: Option<seq<byte>>, s: seq<Node>) {
    forall i, j :: 0 <= i < j < |s| ==> StrCmp(KeyOf(attr, s[i]).value, KeyOf(attr, s[j]).value) <= 0
  }

  /** They do in an index over elements of one name. */
  lemma SameNameAscends(attr: Option<seq<byte>>, s: seq<Node>, name: seq<byte>)
    requires Sorted(attr, s, 0, |s|) && forall i :: 0 <= i < |s| ==> KeyOf(attr, s[i]).name == name
    ensures Ascending(attr, s)
  {
    hide StrCmp, KeyOf;
    StrCmpSwap(name, name);
    forall i, j | 0 <= i < j < |s| ensures StrCmp(KeyOf(attr, s[i]).value, KeyOf(attr, s[j]).value) <= 0 {
      assert Le(attr, s[i], s[j]);
    }
  }

  /** The positions from `from` on whose nodes match, in order. */
  function Hits(attr: Option<seq<byte>>, element: Option<seq<byte>>, value: Option<seq<byte>>, s: seq<Node>, from: nat): (r: seq<nat>)
    requires from <= |s|
    ensures forall i :: 0 <= i < |r| ==> from <= r[i] < |s| && Probe(attr, element, value, s[r[i]]) == 0
    decreases |s| - from
  {
    if from == |s| then []
    else (if Probe(attr, element, value, s[from]) == 0 then [from] else []) + Hits(attr, element, value, s, from + 1)
  }

  lemma {:induction false} HitsFrom(attr: Option<seq<byte>>, element: Option<seq<byte>>, value: Option<seq<byte>>, s: seq<Node>,
                                    from: nat, at: nat)
    requires from <= at <= |s| && (at < |s| ==> Probe(attr, element, value, s[at]) == 0)
    requires forall i :: from <= i < at ==> Probe(attr, element, value, s[i]) != 0
    ensures var hits := Hits(attr, element, value, s, from);
      if at < |s| then hits == [at] + Hits(attr, element, value, s, at + 1) else hits == []
    decreases at - from
  {
    hide Probe;
    if from < at {
      HitsFrom(attr, element, value, s, from + 1, at);
    }
  }

  // ------------------------------------------- what the search finds

  /** From a match back to the first of those right in front of it. */
  function Back(attr: Option<seq<byte>>, element: Option<seq<byte>>, value: Option<seq<byte>>, s: seq<Node>, k: nat): (r: nat)
    requires k < |s|
    ensures r <= k
  {
    if k > 0 && Probe(attr, element, value, s[k - 1]) == 0 then Back(attr, element, value, s, k - 1) else k
  }

  /** The first match from `k` to `last`, or the number of nodes. */
  function ScanAll(attr: Option<seq<byte>>, element: Option<seq<byte>>, value: Option<seq<byte>>, s: seq<Node>, k: nat, last: nat): (r: nat)
    requires k <= last + 1 <= |s|
    decreases last + 1 - k
  {
    if k > last then |s|
    else if Probe(attr, element, value, s[k]) == 0 then k
    else ScanAll(attr, element, value, s, k + 1, last)
  }

  /** The modified binary search of `mxmlIndexFind`, between `first` and `last` */
  function Halve(attr: Option<seq<byte>>, element: Option<seq<byte>>, value: Option<seq<byte>>, s: seq<Node>, first: nat,
                 last: nat): (r: nat)
    requires first <= last < |s|
    decreases last - first
  {
    if last - first <= 1 then ScanAll(attr, element, value, s, first, last)
    else
      var current := (first + last) / 2;
      var diff := Probe(attr, element, value, s[current]);
      if diff == 0 then Back(attr, element, value, s, current)
      else if diff < 0 then Halve(attr, element, value, s, first, current)
      else Halve(attr, element, value, s, current, last)
  }

  function FirstFound(attr: Option<seq<byte>>, element: Option<seq<byte>>, value: Option<seq<byte>>, s: seq<Node>): nat {
    if |s| == 0 then 0 else Halve(attr, element, value, s, 0, |s| - 1)
  }

  lemma {:induction false} ScanFinds(attr: Option<seq<byte>>, element: Option<seq<byte>>, value: Option<seq<byte>>,
                                     s: seq<Node>, k: nat, last: nat)
    requires k <= last + 1 <= |s|
    ensures var r := ScanAll(attr, element, value, s, k, last);
      && (r == |s| || k <= r <= last) && (r < |s| ==> Probe(attr, element, value, s[r]) == 0)
      && forall i :: k <= i <= last && i < r ==> Probe(attr, element, value, s[i]) != 0
    decreases last + 1 - k
  {
    hide Probe;
    if k <= last && Probe(attr, element, value, s[k]) != 0 {
      ScanFinds(attr, element, value, s, k + 1, last);
    }
  }

  lemma {:induction false} BackFinds(attr: Option<seq<byte>>, element: Option<seq<byte>>, value: Option<seq<byte>>, s: seq<Node>, k: nat)
    requires k < |s| && Probe(attr, element, value, s[k]) == 0
    ensures var r := Back(attr, element, value, s, k);
      && (r > 0 ==> Probe(attr, element, value, s[r - 1]) != 0)
      && forall i :: r <= i <= k ==> Probe(attr, element, value, s[i]) == 0
  {
    hide Probe;
    if k > 0 && Probe(attr, element, value, s[k - 1]) == 0 {
      BackFinds(attr, element, value, s, k - 1);
    }
  }

  /** Whatever the search finds is a match. */
  lemma {:induction false} HalveFinds(attr: Option<seq<byte>>, element: Option<seq<byte>>, value: Option<seq<byte>>,
                                      s: seq<Node>, first: nat, last: nat)
    requires first <= last < |s|
    ensures var r := Halve(attr, element, value, s, first, last);
      r <= |s| && (r < |s| ==> Probe(attr, element, value, s[r]) == 0)
    decreases last - first
  {
    hide Probe;
    if last - first <= 1 {
      ScanFinds(attr, element, value, s, first, last);
    } else {
      var current := (first + last) / 2;
      var diff := Probe(attr, element, value, s[current]);
      if diff == 0 {
        BackFinds(attr, element, value, s, current);
      } else if diff < 0 {
        HalveFinds(attr, element, value, s, first, current);
      } else {
        HalveFinds(attr, element, value, s, current, last);
      }
    }
  }

  /** What the next call returns, from the cursor `cur` on: a position, or the number of nodes for NULL. */
  function NextFound(attr: Option<seq<byte>>, element: Option<seq<byte>>, value: Option<seq<byte>>, s: seq<Node>, cur: nat): (r: nat)
    requires cur <= |s|
    ensures cur <= r <= |s| && (r < |s| ==> Probe(attr, element, value, s[r]) == 0)
  {
    if cur == 0 then
      if |s| > 0 then HalveFinds(attr, element, value, s, 0, |s| - 1); FirstFound(attr, element, value, s) else 0
    else if cur < |s| && Probe(attr, element, value, s[cur]) == 0 then cur
    else |s|
  }

  /** The positions that repeated calls return until they return NULL. */
  function Found(attr: Option<seq<byte>>, element: Option<seq<byte>>, value: Option<seq<byte>>, s: seq<Node>, cur: nat): (r: seq<nat>)
    requires cur <= |s|
    ensures forall i :: 0 <= i < |r| ==> cur <= r[i] < |s| && Probe(attr, element, value, s[r[i]]) == 0
    decreases |s| - cur
  {
    var k := NextFound(attr, element, value, s, cur);
    if k == |s| then [] else [k] + Found(attr, element, value, s, k + 1)
  }

  /** Repeated calls return exactly the matching nodes, each once and in index order. */
  ghost predicate Complete(attr: Option<seq<byte>>, element: Option<seq<byte>>, value: Option<seq<byte>>, s: seq<Node>) {
    Found(attr, element, value, s, 0) == Hits(attr, element, value, s, 0)
  }

  /** All matches from `at` on follow one another without a gap. */
  ghost predicate Together(attr: Option<seq<byte>>, element: Option<seq<byte>>, value: Option<seq<byte>>, s: seq<Node>, at: nat) {
    forall i, k :: at <= i < k < |s| && Probe(attr, element, value, s[k]) == 0 ==> Probe(attr, element, value, s[i]) == 0
  }

  lemma FoundFrom(attr: Option<seq<byte>>, element: Option<seq<byte>>, value: Option<seq<byte>>, s: seq<Node>, cur: nat)
    requires cur <= |s|
    ensures var k := NextFound(attr, element, value, s, cur);
      Found(attr, element, value, s, cur) == if k == |s| then [] else [k] + Found(attr, element, value, s, k + 1)
  {
    hide Probe, NextFound;
  }

  lemma {:induction false} FoundAfter(attr: Option<seq<byte>>, element: Option<seq<byte>>, value: Option<seq<byte>>, s: seq<Node>, cur: nat)
    requires 0 < cur <= |s|
    ensures Found(attr, element, value, s, cur) == Hits(attr, element, value, s, cur) <==> Together(attr, element, value, s, cur)
    decreases |s| - cur
  {
    hide Probe, Found, Hits, Together, FirstFound;
    FoundFrom(attr, element, value, s, cur);
    TogetherFrom(attr, element, value, s, cur);
    if cur < |s| && Probe(attr, element, value, s[cur]) == 0 {
      FoundAfter(attr, element, value, s, cur + 1);
      HitsFrom(attr, element, value, s, cur, cur);
      SameBehind(cur, Found(attr, element, value, s, cur + 1), Hits(attr, element, value, s, cur + 1));
    } else if k: nat :| cur <= k < |s| && Probe(attr, element, value, s[k]) == 0 {
      NotNone(attr, element, value, s, cur, k);
    } else {
      HitsFrom(attr, element, value, s, cur, |s|);
    }
  }

  lemma TogetherFrom(attr: Option<seq<byte>>, element: Option<seq<byte>>, value: Option<seq<byte>>, s: seq<Node>, cur: nat)
    requires cur <= |s|
    ensures Together(attr, element, value, s, cur)
      <==> if cur < |s| && Probe(attr, element, value, s[cur]) == 0 then Together(attr, element, value, s, cur + 1)
           else forall k :: cur <= k < |s| ==> Probe(attr, element, value, s[k]) != 0
  {
    hide Probe;
  }

  lemma SameBehind(k: nat, x: seq<nat>, y: seq<nat>)
    ensures [k] + x == [k] + y <==> x == y
  {
    assert ([k] + x)[1..] == x && ([k] + y)[1..] == y;
  }

  lemma {:induction false} NotNone(attr: Option<seq<byte>>, element: Option<seq<byte>>, value: Option<seq<byte>>,
                                   s: seq<Node>, from: nat, k: nat)
    requires from <= k < |s| && Probe(attr, element, value, s[k]) == 0
    ensures var hits := Hits(attr, element, value, s, from); |hits| > 0 && hits[0] <= k
    decreases k - from
  {
    hide Probe;
    if Probe(attr, element, value, s[from]) != 0 {
      NotNone(attr, element, value, s, from + 1, k);
    }
  }

  /** The calls return all matches exactly if the first call returns the first and no gap follows. */
  lemma CompleteMeans(attr: Option<seq<byte>>, element: Option<seq<byte>>, value: Option<seq<byte>>, s: seq<Node>)
    ensures var at := FirstFound(attr, element, value, s);
      Complete(attr, element, value, s)
      <==> (forall i :: 0 <= i < at && i < |s| ==> Probe(attr, element, value, s[i]) != 0) && Together(attr, element, value, s, at)
  {
    hide Probe, Halve, Found, Hits, Together;
    var at := NextFound(attr, element, value, s, 0);
    FoundFrom(attr, element, value, s, 0);
    TogetherFrom(attr, element, value, s, at);
    if i: nat :| i < at && i < |s| && Probe(attr, element, value, s[i]) == 0 {
      NotNone(attr, element, value, s, 0, i);
    } else {
      HitsFrom(attr, element, value, s, 0, at);
      if at < |s| {
        FoundAfter(attr, element, value, s, at + 1);
        SameBehind(at, Found(attr, element, value, s, at + 1), Hits(attr, element, value, s, at + 1));
      }
    }
  }

  /** A search that fits the order of the index finds all matches. */
  lemma FallingComplete(attr: Option<seq<byte>>, element: Option<seq<byte>>, value: Option<seq<byte>>, s: seq<Node>)
    requires Falling(attr, element, value, s)
    ensures Complete(attr, element, value, s)
  {
    hide Probe, Complete, Halve;
    CompleteMeans(attr, element, value, s);
    if |s| > 0 {
      HalveFirst(attr, element, value, s, 0, |s| - 1);
      HalveFinds(attr, element, value, s, 0, |s| - 1);
      var at := FirstFound(attr, element, value, s);
      forall i, k | at <= i < k < |s| && Probe(attr, element, value, s[k]) == 0 ensures Probe(attr, element, value, s[i]) == 0 {
        FallsAt(attr, element, value, s, at, i);
        FallsAt(attr, element, value, s, i, k);
      }
    }
  }

  lemma FallsAt(attr: Option<seq<byte>>, element: Option<seq<byte>>, value: Option<seq<byte>>, s: seq<Node>, i: nat, j: nat)
    requires Falling(attr, element, value, s) && i <= j < |s|
    ensures Order(Probe(attr, element, value, s[i])) >= Order(Probe(attr, element, value, s[j]))
  {
    hide Probe;
  }

  lemma {:induction false} HalveFirst(attr: Option<seq<byte>>, element: Option<seq<byte>>, value: Option<seq<byte>>,
                                      s: seq<Node>, first: nat, last: nat)
    requires first <= last < |s| && Falling(attr, element, value, s)
    requires forall i :: 0 <= i < first ==> Probe(attr, element, value, s[i]) != 0
    requires forall i :: last < i < |s| ==> Probe(attr, element, value, s[i]) != 0
    ensures forall i :: 0 <= i < Halve(attr, element, value, s, first, last) && i < |s| ==> Probe(attr, element, value, s[i]) != 0
    decreases last - first
  {
    hide Probe, Falling;
    if last - first <= 1 {
      ScanFinds(attr, element, value, s, first, last);
    } else {
      var current := (first + last) / 2;
      var diff := Probe(attr, element, value, s[current]);
      forall i | 0 <= i < |s| ensures if i <= current then diff > 0 ==> Probe(attr, element, value, s[i]) > 0
                                      else diff < 0 ==> Probe(attr, element, value, s[i]) < 0 {
        if i <= current { FallsAt(attr, element, value, s, i, current); } else { FallsAt(attr, element, value, s, current, i); }
      }
      if diff == 0 {
        BackFinds(attr, element, value, s, current);
        var r := Back(attr, element, value, s, current);
        forall i | 0 <= i < r ensures Probe(attr, element, value, s[i]) != 0 {
          FallsAt(attr, element, value, s, i, r - 1);
          FallsAt(attr, element, value, s, r - 1, current);
        }
      } else if diff < 0 {
        HalveFirst(attr, element, value, s, first, current);
      } else {
        HalveFirst(attr, element, value, s, current, last);
      }
    }
  }

  /** `mxml_index_t` */
  class Index {
    const attr: Option<seq<byte>>
    const nodes: array<Node>
    var curNode: nat

    ghost predicate Valid()
      reads this, nodes
    {
      && curNode <= nodes.Length && Sorted(attr, nodes[..], 0, nodes.Length)
      && forall i :: 0 <= i < nodes.Length ==> Indexable(attr, nodes[i])
    }

    constructor (attr: Option<seq<byte>>, nodes: array<Node>)
      requires Sorted(attr, nodes[..], 0, nodes.Length) && forall i :: 0 <= i < nodes.Length ==> Indexable(attr, nodes[i])
      ensures Valid() && this.attr == attr && this.nodes == nodes && curNode == 0
    {
      this.attr := attr;
      this.nodes := nodes;
      curNode := 0;
    }

    /** `mxmlIndexReset` */
    method Reset() returns (r: Node?)
      modifies this`curNode
      ensures curNode == 0 && r == First(nodes[..])
    {
      curNode := 0;
      r := if nodes.Length > 0 then nodes[0] else null;
    }

    /** `mxmlIndexEnum` */
    method Enum() returns (r: Node?)
      requires curNode <= nodes.Length
      modifies this`curNode
      ensures r == Nth(nodes[..], old(curNode))
      ensures curNode == if old(curNode) < nodes.Length then old(curNode) + 1 else old(curNode)
    {
      if curNode < nodes.Length {
        curNode := curNode + 1;
        return nodes[curNode - 1];
      }
      return null;
    }

    /** The modified binary search of `mxmlIndexFind` */
    method FirstMatch(element: Option<seq<byte>>, value: Option<seq<byte>>) returns (at: nat)
      requires nodes.Length > 0
      ensures at == FirstFound(attr, element, value, nodes[..])
    {
      hide Probe;
      ghost var s := nodes[..];
      var first, last := 0, nodes.Length - 1;
      while last - first > 1
        invariant 0 <= first <= last < nodes.Length
        invariant FirstFound(attr, element, value, s) == Halve(attr, element, value, s, first, last)
      {
        var current := (first + last) / 2;
        var diff := Probe(attr, element, value, nodes[current]);
        assert s[current] == nodes[current];
        if diff == 0 {
          while current > 0 && Probe(attr, element, value, nodes[current - 1]) == 0
            invariant 0 <= current < nodes.Length
            invariant FirstFound(attr, element, value, s) == Back(attr, element, value, s, current)
          {
            assert s[current - 1] == nodes[current - 1];
            current := current - 1;
          }
          assert current > 0 ==> s[current - 1] == nodes[current - 1];
          return current;
        } else if diff < 0 {
          last := current;
        } else {
          first := current;
        }
      }
      for current := first to last + 1
        invariant FirstFound(attr, element, value, s) == ScanAll(attr, element, value, s, current, last)
      {
        assert s[current] == nodes[current];
        if Probe(attr, element, value, nodes[current]) == 0 {
          return current;
        }
      }
      return nodes.Length;
    }

    /** `mxmlIndexFind` with a key to look for */
    method FindKey(element: Option<seq<byte>>, value: Option<seq<byte>>) returns (r: Node?)
      requires curNode <= nodes.Length
      modifies this`curNode
      ensures var k := NextFound(attr, element, value, nodes[..], old(curNode));
        r == Nth(nodes[..], k) && curNode == if k < nodes.Length then k + 1 else k
    {
      hide Probe, Halve;
      if nodes.Length == 0 {
        return null;
      }
      if curNode == 0 {
        var at := FirstMatch(element, value);
        if at < nodes.Length {
          curNode := at + 1;
          return nodes[at];
        }
        curNode := nodes.Length;
        return null;
      } else if curNode < nodes.Length && Probe(attr, element, value, nodes[curNode]) == 0 {
        curNode := curNode + 1;
        return nodes[curNode - 1];
      }
      curNode := nodes.Length;
      return null;
    }

    /** `mxmlIndexFind`: what the next call returns, and where it leaves the cursor. */
    method Find(element: Option<seq<byte>>, value: Option<seq<byte>>) returns (r: Node?)
      requires curNode <= nodes.Length
      modifies this`curNode
      ensures attr.None? && value.Some? ==> r == null && curNode == old(curNode)
      ensures attr.Some? || value.None? ==>
        var k := if element.None? && value.None? then old(curNode) else NextFound(attr, element, value, nodes[..], old(curNode));
        r == Nth(nodes[..], k) && curNode == if k < nodes.Length then k + 1 else k
    {
      if attr.None? && value.Some? {
        return null;
      }
      if element.None? && value.None? {
        r := Enum();
        return;
      }
      r := FindKey(element, value);
    }

    /**
      A reset and then calls until the search returns NULL. With an element name, with or
      without a value, that gives exactly the matching nodes, each once and in order.
    */
    method FindEach(element: Option<seq<byte>>, value: Option<seq<byte>>) returns (found: seq<Node>)
      requires Valid() && (element.Some? || value.Some?) && (attr.Some? || value.None?)
      modifies this`curNode
      ensures found == At(nodes[..], Found(attr, element, value, nodes[..], 0))
      ensures element.Some? ==> found == At(nodes[..], Hits(attr, element, value, nodes[..], 0))
    {
      hide Probe, Hits, Falling, Sorted, Indexable, At, NextFound, Found;
      ghost var s := nodes[..];
      if element.Some? {
        SortedFalls(attr, element.value, value, s);
        FallingComplete(attr, element, value, s);
      }
      var _ := Reset();
      found := [];
      var done := false;
      AtNone(s);
      while !done
        invariant curNode <= nodes.Length && nodes[..] == s
        invariant At(s, Found(attr, element, value, s, 0)) == found + At(s, Found(attr, element, value, s, curNode))
        invariant done ==> Found(attr, element, value, s, curNode) == []
        decreases !done, nodes.Length - curNode
      {
        ghost var ks := Found(attr, element, value, s, curNode);
        FoundFrom(attr, element, value, s, curNode);
        var r := Find(element, value);
        if ks != [] {
          AtNext(s, ks);
        }
        if r == null {
          done := true;
          assert ks == [];
          NoneFound(attr, element, value, s);
        } else {
          found := found + [r];
        }
      }
    }
  }

  lemma NoneFound(attr: Option<seq<byte>>, element: Option<seq<byte>>, value: Option<seq<byte>>, s: seq<Node>)
    ensures Found(attr, element, value, s, |s|) == []
  {
  }

  lemma AtNone(s: seq<Node>)
    ensures At(s, []) == []
  {
  }

  /** The elements of `s` at the positions `ks`. */
  function At(s: seq<Node>, ks: seq<nat>): seq<Node>
    requires forall i :: 0 <= i < |ks| ==> ks[i] < |s|
  {
    seq(|ks|, i requires 0 <= i < |ks| => s[ks[i]])
  }

  lemma AtNext(s: seq<Node>, ks: seq<nat>)
    requires |ks| > 0 && forall i :: 0 <= i < |ks| ==> ks[i] < |s|
    ensures At(s, ks) == [s[ks[0]]] + At(s, ks[1..])
  {
  }

  /** What an index of the tree `top` holds: the elements with the name and the attribute asked for. */
  ghost function Wanted(f: Forest, top: Node, element: Option<seq<byte>>, attr: Option<seq<byte>>): seq<Node>
    requires Wf(f) && top in f.kids
  {
    (if element.None? && attr.None? then [top] else []) + Filter(Query(element, attr, None), PreFrom(f, top, 0))
  }

  /**
    What an index of the tree `top` is asked to hold: without an element name and an
    attribute, every element at and below `top`; with either, those below that have it.
  */
  ghost predicate Asked(f: Forest, top: Node, element: Option<seq<byte>>, attr: Option<seq<byte>>, n: Node)
    requires Wf(f) && top in f.kids
  {
    && n in f.kids && Within(f, top, n) && n.value.Element?
    && (element.Some? || attr.Some? ==> n != top)
    && (element.Some? ==> n.value.name == element.value)
    && (attr.Some? ==> HasAttr(n.value.attrs, attr.value))
  }

  /** The nodes are those asked for, each once. */
  ghost predicate Holds(f: Forest, top: Node, element: Option<seq<byte>>, attr: Option<seq<byte>>, s: seq<Node>)
    requires Wf(f) && top in f.kids
  {
    Distinct(s) && (forall i :: 0 <= i < |s| ==> s[i] in f.kids) && forall n :: n in f.kids ==> (n in s <==> Asked(f, top, element, attr, n))
  }

  lemma {:induction false} FilterDistinct(q: Query, s: seq<Node>)
    requires Distinct(s)
    ensures Distinct(Filter(q, s))
  {
    hide Matches;
    if |s| > 0 {
      FilterDistinct(q, s[1..]);
    }
  }

  lemma FirstApart(n: Node, s: seq<Node>)
    requires Distinct([n] + s)
    ensures Distinct(s) && n !in s
  {
    var t := [n] + s;
    assert forall i :: 0 <= i < |s| ==> s[i] == t[i + 1] && t[0] != t[i + 1];
  }

  /** What is wanted is what is asked for. */
  lemma WantedIs(f: Forest, top: Node, element: Option<seq<byte>>, attr: Option<seq<byte>>)
    requires Wf(f) && top in f.kids && (element.None? && attr.None? ==> top.value.Element?)
    ensures Holds(f, top, element, attr, Wanted(f, top, element, attr))
  {
    hide Wf, Within, PreFrom, Matches, HasAttr;
    var q, below := Query(element, attr, None), PreFrom(f, top, 0);
    assert Pre(f, top) == [top] + below;
    PreDistinct(f, top);
    FirstApart(top, below);
    FilterDistinct(q, below);
    var s := Wanted(f, top, element, attr);
    forall i | 0 <= i < |s| ensures s[i] in f.kids { PreHas(f, top, s[i]); }
    forall n | n in f.kids ensures n in s <==> Asked(f, top, element, attr, n) {
      PreHas(f, top, n);
      MatchesMeans(q, n);
    }
  }

  /** What the loop of `mxmlIndexNew` has still to collect, from `current` on. */
  ghost function Uncollected(f: Forest, q: Query, top: Node, current: Node?): seq<Node>
    requires Wf(f) && top in f.kids && (current != null ==> current in f.kids && Within(f, top, current))
  {
    if current == null then [] else [current] + Filter(q, Ahead(f, top, current))
  }

  /** The loop of `mxmlIndexNew` */
  method Collect(ghost f: Forest, node: Node, element: Option<seq<byte>>, attr: Option<seq<byte>>) returns (found: seq<Node>)
    requires Rep(f) && node in f.kids && (element.None? && attr.None? ==> node.value.Element?)
    ensures found == Wanted(f, node, element, attr)
    ensures forall i :: 0 <= i < |found| ==> Indexable(attr, found[i])
  {
    hide Wf, Within, Filter, Ahead, PreFrom, LinksIn, LinksOf, Candidates, Matches, Uncollected;
    var q := Query(element, attr, None);
    found := [];
    var current: Node? := node;
    FromTop(f, node);
    if element.Some? || attr.Some? {
      current := FindElement(f, node, node, q, Descend);
      CandidatesAhead(f, node, node);
      NextWanted(f, q, node, node);
    } else {
      TopWanted(f, q, node);
    }
    while current != null
      invariant current != null ==> current in f.kids && Within(f, node, current) && Indexable(attr, current)
      invariant forall i :: 0 <= i < |found| ==> Indexable(attr, found[i])
      invariant Wanted(f, node, element, attr) == found + Uncollected(f, q, node, current)
      decreases |Uncollected(f, q, node, current)|
    {
      OneMore(f, q, node, current);
      found := found + [current];
      CandidatesAhead(f, node, current);
      NextWanted(f, q, node, current);
      current := FindElement(f, current, node, q, Descend);
    }
    NoneLeft(f, q, node);
  }

  lemma CandidatesAhead(f: Forest, top: Node, n: Node)
    requires Wf(f) && top in f.kids && n in f.kids && Within(f, top, n)
    ensures Candidates(f, n, top, Descend) == Ahead(f, top, n)
  {
  }

  lemma TopWanted(f: Forest, q: Query, top: Node)
    requires Wf(f) && top in f.kids
    ensures Within(f, top, top) && Uncollected(f, q, top, top) == [top] + Filter(q, PreFrom(f, top, 0))
  {
    FromTop(f, top);
  }

  lemma OneMore(f: Forest, q: Query, top: Node, n: Node)
    requires Wf(f) && top in f.kids && n in f.kids && Within(f, top, n)
    ensures Uncollected(f, q, top, n) == [n] + Filter(q, Ahead(f, top, n))
  {
  }

  lemma NoneLeft(f: Forest, q: Query, top: Node)
    requires Wf(f) && top in f.kids
    ensures Uncollected(f, q, top, null) == []
  {
  }

  lemma {:induction false} DistinctCount(s: seq<Node>, t: seq<Node>)
    requires multiset(s) == multiset(t) && Distinct(s)
    ensures Distinct(t)
  {
    forall i, j | 0 <= i < j < |t| ensures t[i] != t[j] {
      if t[i] == t[j] {
        var a, b := t[..j], t[j..];
        assert t == a + b && a[i] == b[0];
        assert multiset(t)[t[i]] == multiset(a)[a[i]] + multiset(b)[b[0]] >= 2;
        CountOne(s, t[i]);
      }
    }
  }

  lemma {:induction false} CountOne(s: seq<Node>, x: Node)
    requires Distinct(s)
    ensures multiset(s)[x] <= 1
  {
    if |s| > 0 {
      assert s == [s[0]] + s[1..];
      CountOne(s[1..], x);
      if x == s[0] {
        FirstApart(s[0], s[1..]);
      }
    }
  }

  lemma SameHeld(f: Forest, top: Node, element: Option<seq<byte>>, attr: Option<seq<byte>>, s: seq<Node>, t: seq<Node>)
    requires Wf(f) && top in f.kids && Holds(f, top, element, attr, s) && multiset(s) == multiset(t)
    ensures Holds(f, top, element, attr, t)
  {
    hide Wf, Asked;
    DistinctCount(s, t);
    assert forall n: Node :: n in s <==> n in multiset(s);
    assert forall n: Node :: n in t <==> n in multiset(t);
    forall i | 0 <= i < |t| ensures t[i] in f.kids {
      assert t[i] in multiset(t);
    }
  }

  /** `mxmlIndexNew`: collects the wanted elements and sorts them. */
  method New(ghost f: Forest, node: Node?, element: Option<seq<byte>>, attr: Option<seq<byte>>) returns (ind: Index?)
    requires Rep(f) && (node != null ==> node in f.kids)
    requires node != null && element.None? && attr.None? ==> node.value.Element?
    ensures node == null <==> ind == null
    ensures ind != null ==> fresh(ind) && fresh(ind.nodes) && ind.Valid() && ind.attr == attr && ind.curNode == 0
    ensures ind != null ==> multiset(ind.nodes[..]) == multiset(Wanted(f, node, element, attr))
    ensures ind != null ==> Holds(f, node, element, attr, ind.nodes[..])
  {
    if node == null {
      return null;
    }
    hide Wanted, Sorted, Indexable, Wf, LinksIn, Holds;
    var found := Collect(f, node, element, attr);
    var nodes := Arranged(attr, found);
    WantedIs(f, node, element, attr);
    SameHeld(f, node, element, attr, found, nodes[..]);
    ind := new Index(attr, nodes);
  }

  /** The nodes as a sorted array. */
  method Arranged(attr: Option<seq<byte>>, found: seq<Node>) returns (nodes: array<Node>)
    requires forall i :: 0 <= i < |found| ==> Indexable(attr, found[i])
    ensures fresh(nodes) && multiset(nodes[..]) == multiset(found) && Sorted(attr, nodes[..], 0, nodes.Length)
    ensures forall i :: 0 <= i < nodes.Length ==> Indexable(attr, nodes[i])
  {
    hide Indexable;
    nodes := new Node[|found|](i requires 0 <= i < |found| => found[i]);
    assert nodes[..] == found;
    if nodes.Length > 1 {
      Sort(attr, nodes, 0, nodes.Length - 1);
      WholeSorted(found, nodes[..]);
      forall i | 0 <= i < nodes.Length ensures Indexable(attr, nodes[i]) {
        assert nodes[..][i] in found;
      }
    }
  }

  /** After one wanted node, the search goes on with the next. */
  lemma NextWanted(f: Forest, q: Query, top: Node, n: Node)
    requires Wf(f) && top in f.kids && n in f.kids && Within(f, top, n)
    ensures var todo := Filter(q, Ahead(f, top, n));
      var next := First(todo);
      && (next != null ==> next in f.kids && Within(f, top, next))
      && todo == Uncollected(f, q, top, next)
      && (next != null && q.value.None? ==> Indexable(q.attr, next))
    decreases |Ahead(f, top, n)|
  {
    hide Wf, Within, Ahead;
    NextAhead(f, top, n);
    var next := First(Ahead(f, top, n));
    if next != null && !Matches(q, next) {
      NextWanted(f, q, top, next);
    }
  }

  lemma WholeSorted(s: seq<Node>, t: seq<Node>)
    requires Perm(s, t, 0, |s|)
    ensures multiset(t) == multiset(s) && |t| == |s| && forall i :: 0 <= i < |t| ==> t[i] in s
  {
    assert s[0..|s|] == s && t[0..|s|] == t;
    forall i | 0 <= i < |t| ensures t[i] in s {
      var j := PermEach(s, t, 0, |s|, i);
    }
  }

  // ------------------------------------------- an index, and its search

  /** `index_find` finds no difference: the node has the element name and, if one is asked for, the value. */
  lemma ProbeMatches(attr: Option<seq<byte>>, name: seq<byte>, value: Option<seq<byte>>, n: Node)
    requires Indexable(attr, n) && (attr.Some? || value.None?)
    ensures Probe(attr, Some(name), value, n) == 0 <==> Matches(Query(Some(name), attr, value), n)
  {
    hide StrCmp;
    var k := KeyOf(attr, n);
    StrCmpSwap(name, k.name);
    if value.Some? {
      StrCmpSwap(value.value, k.value);
    }
  }

  lemma {:induction false} HitsFilter(attr: Option<seq<byte>>, name: seq<byte>, value: Option<seq<byte>>, s: seq<Node>, from: nat)
    requires from <= |s| && (attr.Some? || value.None?) && forall i :: 0 <= i < |s| ==> Indexable(attr, s[i])
    ensures At(s, Hits(attr, Some(name), value, s, from)) == Filter(Query(Some(name), attr, value), s[from..])
    decreases |s| - from
  {
    hide Probe, Indexable, Matches;
    if from < |s| {
      ProbeMatches(attr, name, value, s[from]);
      HitsFilter(attr, name, value, s, from + 1);
      assert s[from..][0] == s[from] && s[from..][1..] == s[from + 1..];
      if Probe(attr, Some(name), value, s[from]) == 0 {
        AtNext(s, Hits(attr, Some(name), value, s, from));
      }
    }
  }

  lemma {:induction false} FilterCount(q: Query, s: seq<Node>, x: Node)
    ensures multiset(Filter(q, s))[x] == if Matches(q, x) then multiset(s)[x] else 0
  {
    hide Matches;
    if |s| > 0 {
      FilterCount(q, s[1..], x);
      assert s == [s[0]] + s[1..];
    }
  }

  lemma FilterPerm(q: Query, s: seq<Node>, t: seq<Node>)
    requires multiset(s) == multiset(t)
    ensures multiset(Filter(q, s)) == multiset(Filter(q, t))
  {
    hide Filter, Matches;
    var a, b := multiset(Filter(q, s)), multiset(Filter(q, t));
    forall x: Node | x in a || x in b ensures a[x] == b[x] {
      FilterCount(q, s, x);
      FilterCount(q, t, x);
    }
  }

  /** The node is in the index, and has the name and the value looked for. */
  ghost predicate Sought(f: Forest, top: Node, element: Option<seq<byte>>, attr: Option<seq<byte>>, name: seq<byte>,
                         value: Option<seq<byte>>, n: Node)
    requires Wf(f) && top in f.kids && (attr.Some? || value.None?)
  {
    && Asked(f, top, element, attr, n) && n.value.name == name
    && (value.Some? ==> HasValue(n.value.attrs, attr.value, value.value))
  }

  /** Filtering what an index holds, by name and value. */
  lemma FoundMeans(f: Forest, top: Node, element: Option<seq<byte>>, attr: Option<seq<byte>>, name: seq<byte>,
                   value: Option<seq<byte>>, s: seq<Node>)
    requires Wf(f) && top in f.kids && Holds(f, top, element, attr, s) && (attr.Some? || value.None?)
    ensures var found := Filter(Query(Some(name), attr, value), s);
      Distinct(found) && forall n :: n in f.kids ==> (n in found <==> Sought(f, top, element, attr, name, value, n))
  {
    hide Wf, Within, HasValue;
    var q := Query(Some(name), attr, value);
    FilterDistinct(q, s);
    forall n | n in f.kids
      ensures n in Filter(q, s) <==> Sought(f, top, element, attr, name, value, n)
    {
      if n.value.Element? && attr.Some? {
        GetAttrIs(n.value.attrs, attr.value);
      }
    }
  }

  /**
    `mxmlIndexNew`, and `mxmlIndexFind` until it returns NULL: each node of the tree that the index is
    over and that is asked for, once.
  */
  method IndexThenFind(ghost f: Forest, node: Node, element: Option<seq<byte>>, attr: Option<seq<byte>>,
                       name: seq<byte>, value: Option<seq<byte>>) returns (found: seq<Node>)
    requires Rep(f) && node in f.kids && (element.None? && attr.None? ==> node.value.Element?)
    requires attr.Some? || value.None?
    ensures multiset(found) == multiset(Filter(Query(Some(name), attr, value), Wanted(f, node, element, attr)))
    ensures Distinct(found) && forall n :: n in f.kids ==> (n in found <==> Sought(f, node, element, attr, name, value, n))
  {
    hide Wf, Wanted, Filter, Sorted, Indexable, LinksIn, Asked, Matches, Sought;
    var ind := New(f, node, element, attr);
    ghost var s := ind.nodes[..];
    found := ind.FindEach(Some(name), value);
    HitsFilter(attr, name, value, s, 0);
    assert s[0..] == s;
    FilterPerm(Query(Some(name), attr, value), s, Wanted(f, node, element, attr));
    FoundMeans(f, node, element, attr, name, value, s);
  }
}
