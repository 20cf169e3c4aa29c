/**
  Searching an index by value alone (`mxmlIndexFind` without an element name). The index
  is sorted by element name first, so the binary search need not find every match; when
  it does, for all values, is settled here.
*/
module MxmlByValue {
  import opened Basics
  import opened MxmlAttr
  import opened MxmlForest
  import opened MxmlNode
  import opened MxmlIndex

  function ValueAt(attr: Option<seq<byte>>, s: seq<Node>, k: nat): seq<byte>
    requires k < |s|
  {
    KeyOf(attr, s[k]).value
  }

  /** The value at `i` is at most the one at `j`. */
  predicate Upward(attr: Option<seq<byte>>, s: seq<Node>, i: nat, j: nat)
    requires i < |s| && j < |s|
  {
    StrCmp(ValueAt(attr, s, i), ValueAt(attr, s, j)) <= 0
  }

  /** The search for the value at `k` alone: how it compares with the one at `i`. */
  function ProbeAt(attr: Option<seq<byte>>, s: seq<Node>, k: nat, i: nat): int
    requires i < |s| && k < |s|
  {
    Probe(attr, None, Some(ValueAt(attr, s, k)), s[i])
  }

  lemma ProbeIs(attr: Option<seq<byte>>, s: seq<Node>, k: nat, i: nat)
    requires i < |s| && k < |s|
    ensures ProbeAt(attr, s, k, i) <= 0 <==> Upward(attr, s, k, i)
    ensures ProbeAt(attr, s, k, i) >= 0 <==> Upward(attr, s, i, k)
    ensures ProbeAt(attr, s, k, i) == 0 <==> ValueAt(attr, s, k) == ValueAt(attr, s, i)
    ensures ProbeAt(attr, s, k, k) == 0
  {
    hide StrCmp, KeyOf;
    var a, b := ValueAt(attr, s, k), ValueAt(attr, s, i);
    StrCmpSwap(a, b);
    StrCmpSwap(b, a);
    StrCmpSwap(a, a);
  }

  lemma UpwardTrans(attr: Option<seq<byte>>, s: seq<Node>, i: nat, j: nat, k: nat)
    requires i < |s| && j < |s| && k < |s| && Upward(attr, s, i, j) && Upward(attr, s, j, k)
    ensures Upward(attr, s, i, k)
  {
    StrCmpTrans(ValueAt(attr, s, i), ValueAt(attr, s, j), ValueAt(attr, s, k));
  }

  /** Searching by any value alone finds all matches. */
  ghost predicate AllFound(attr: Option<seq<byte>>, s: seq<Node>) {
    forall v: seq<byte> :: Complete(attr, None, Some(v), s)
  }

  /** Where all is found, equal values stand together, and none in front of what is found first. */
  lemma Between(attr: Option<seq<byte>>, s: seq<Node>, i: nat, k: nat, j: nat)
    requires AllFound(attr, s) && i <= k <= j < |s| && ValueAt(attr, s, i) == ValueAt(attr, s, j)
    ensures ValueAt(attr, s, k) == ValueAt(attr, s, i)
  {
    hide Complete, FirstFound, Probe, ValueAt;
    CompleteMeans(attr, None, Some(ValueAt(attr, s, i)), s);
    assert Complete(attr, None, Some(ValueAt(attr, s, i)), s);
    ProbeIs(attr, s, i, j);
    ProbeIs(attr, s, i, k);
    assert ProbeAt(attr, s, i, i) == 0 && ProbeAt(attr, s, i, j) == 0;
  }

  function FoundFor(attr: Option<seq<byte>>, s: seq<Node>, k: nat): nat
    requires k < |s|
  {
    FirstFound(attr, None, Some(ValueAt(attr, s, k)), s)
  }

  function HalveFor(attr: Option<seq<byte>>, s: seq<Node>, k: nat, first: nat, last: nat): nat
    requires k < |s| && first <= last < |s|
  {
    Halve(attr, None, Some(ValueAt(attr, s, k)), s, first, last)
  }

  lemma FoundMatches(attr: Option<seq<byte>>, s: seq<Node>, k: nat)
    requires AllFound(attr, s) && k < |s|
    ensures FoundFor(attr, s, k) <= k && ValueAt(attr, s, FoundFor(attr, s, k)) == ValueAt(attr, s, k)
  {
    hide Complete, Halve, Probe, ValueAt;
    var v := Some(ValueAt(attr, s, k));
    assert Complete(attr, None, v, s);
    CompleteMeans(attr, None, v, s);
    ProbeIs(attr, s, k, k);
    assert ProbeAt(attr, s, k, k) == 0;
    HalveFinds(attr, None, v, s, 0, |s| - 1);
    ProbeIs(attr, s, k, FoundFor(attr, s, k));
  }

  lemma HalveStep(attr: Option<seq<byte>>, s: seq<Node>, k: nat, first: nat, last: nat)
    requires k < |s| && first <= last < |s| && last - first > 1
    ensures var current, r := (first + last) / 2, HalveFor(attr, s, k, first, last);
      && (ProbeAt(attr, s, k, current) < 0 ==> r == HalveFor(attr, s, k, first, current))
      && (ProbeAt(attr, s, k, current) > 0 ==> r == HalveFor(attr, s, k, current, last))
  {
    hide Probe;
  }

  /** The search of a range does not leave it to the right, nor to the left past a node that does not match. */
  lemma {:induction false} HalveWithin(attr: Option<seq<byte>>, s: seq<Node>, k: nat, first: nat, last: nat)
    requires k < |s| && first <= last < |s|
    ensures var r := HalveFor(attr, s, k, first, last);
      (r <= last || r == |s|) && (ProbeAt(attr, s, k, first) != 0 ==> first <= r)
    decreases last - first
  {
    hide Probe;
    var v := Some(ValueAt(attr, s, k));
    if last - first <= 1 {
      ScanFinds(attr, None, v, s, first, last);
    } else {
      var current := (first + last) / 2;
      if ProbeAt(attr, s, k, current) == 0 {
        BackFinds(attr, None, v, s, current);
      } else {
        HalveStep(attr, s, k, first, last);
        HalveWithin(attr, s, k, first, current);
        HalveWithin(attr, s, k, current, last);
      }
    }
  }

  /** The search for the value at `k` comes down to this range, or has stopped at an equal value at one of its ends. */
  ghost predicate Reached(attr: Option<seq<byte>>, s: seq<Node>, first: nat, last: nat, k: nat)
    requires first <= last < |s| && k < |s|
  {
    || FoundFor(attr, s, k) == HalveFor(attr, s, k, first, last)
    || (first > 0 && ValueAt(attr, s, k) == ValueAt(attr, s, first))
    || (last < |s| - 1 && ValueAt(attr, s, k) == ValueAt(attr, s, last))
  }

  /** An end of the range that is no end of the index has been compared with, and bounds the range. */
  ghost predicate Bounded(attr: Option<seq<byte>>, s: seq<Node>, first: nat, last: nat)
    requires first <= last < |s|
  {
    forall k :: first <= k <= last ==>
      && Reached(attr, s, first, last, k)
      && (first > 0 ==> Upward(attr, s, first, k))
      && (last < |s| - 1 ==> Upward(attr, s, k, last))
  }

  /** The middle of a range has no greater value before it and no smaller one behind. */
  lemma Sides(attr: Option<seq<byte>>, s: seq<Node>, first: nat, last: nat, k: nat)
    requires AllFound(attr, s) && first <= k <= last < |s| && last - first > 1 && Bounded(attr, s, first, last)
    ensures var current := (first + last) / 2;
      (k <= current ==> Upward(attr, s, k, current)) && (k >= current ==> Upward(attr, s, current, k))
  {
    hide AllFound, Upward, ValueAt, FoundFor, HalveFor, ProbeAt;
    var current := (first + last) / 2;
    assert Reached(attr, s, first, last, k);
    ProbeIs(attr, s, k, current);
    FoundMatches(attr, s, k);
    var r := FoundFor(attr, s, k);
    if k < current && !Upward(attr, s, k, current) {
      if r == HalveFor(attr, s, k, first, last) {
        HalveStep(attr, s, k, first, last);
        HalveWithin(attr, s, k, current, last);
      } else if first > 0 && ValueAt(attr, s, k) == ValueAt(attr, s, first) {
        UpwardSame(attr, s, first, k, current);
      } else {
        Between(attr, s, k, current, last);
      }
      assert false;
    } else if k > current && !Upward(attr, s, current, k) {
      if r == HalveFor(attr, s, k, first, last) {
        HalveStep(attr, s, k, first, last);
        HalveWithin(attr, s, k, first, current);
        Between(attr, s, r, current, k);
      } else if first > 0 && ValueAt(attr, s, k) == ValueAt(attr, s, first) {
        Between(attr, s, first, current, k);
      } else {
        UpwardSame(attr, s, last, k, current);
      }
      assert false;
    } else if k == current {
      assert Upward(attr, s, k, k) by { ProbeIs(attr, s, k, k); }
    }
  }

  lemma UpwardSame(attr: Option<seq<byte>>, s: seq<Node>, i: nat, j: nat, k: nat)
    requires i < |s| && j < |s| && k < |s| && ValueAt(attr, s, i) == ValueAt(attr, s, j)
    ensures Upward(attr, s, i, k) <==> Upward(attr, s, j, k)
    ensures Upward(attr, s, k, i) <==> Upward(attr, s, k, j)
  {
    hide ValueAt;
  }

  /** Both halves of a range are bounded in turn. */
  lemma HalvesBounded(attr: Option<seq<byte>>, s: seq<Node>, first: nat, last: nat)
    requires AllFound(attr, s) && first <= last < |s| && last - first > 1 && Bounded(attr, s, first, last)
    ensures var current := (first + last) / 2; Bounded(attr, s, first, current) && Bounded(attr, s, current, last)
  {
    hide AllFound, Upward, ValueAt, FoundFor, HalveFor, ProbeAt;
    var current := (first + last) / 2;
    forall k | first <= k <= last
      ensures k <= current ==> Reached(attr, s, first, current, k) && Upward(attr, s, k, current)
      ensures k >= current ==> Reached(attr, s, current, last, k) && Upward(attr, s, current, k)
    {
      assert Reached(attr, s, first, last, k);
      Sides(attr, s, first, last, k);
      ProbeIs(attr, s, k, current);
      if ValueAt(attr, s, k) != ValueAt(attr, s, current) {
        if FoundFor(attr, s, k) == HalveFor(attr, s, k, first, last) {
          HalveStep(attr, s, k, first, last);
        } else if first > 0 && ValueAt(attr, s, k) == ValueAt(attr, s, first) {
          if k > current { Between(attr, s, first, current, k); }
        } else {
          if k < current { Between(attr, s, k, current, last); }
        }
      }
    }
    assert forall k :: first <= k <= last ==> Reached(attr, s, first, last, k);
  }

  lemma {:induction false} RangeAscends(attr: Option<seq<byte>>, s: seq<Node>, first: nat, last: nat, i: nat, j: nat)
    requires AllFound(attr, s) && first <= i < j <= last < |s| && Bounded(attr, s, first, last)
    requires last - first > 1 || first > 0 || last < |s| - 1
    ensures Upward(attr, s, i, j)
    decreases last - first
  {
    hide AllFound, Upward, ValueAt, Reached;
    if last - first > 1 {
      var current := (first + last) / 2;
      HalvesBounded(attr, s, first, last);
      if j <= current {
        RangeAscends(attr, s, first, current, i, j);
      } else if i >= current {
        RangeAscends(attr, s, current, last, i, j);
      } else {
        Sides(attr, s, first, last, i);
        Sides(attr, s, first, last, j);
        UpwardTrans(attr, s, i, current, j);
      }
    }
  }

  /** In an index of two nodes, both are looked at. */
  lemma TwoFound(attr: Option<seq<byte>>, s: seq<Node>, v: seq<byte>)
    requires |s| == 2
    ensures Complete(attr, None, Some(v), s)
  {
    hide Probe, Complete;
    CompleteMeans(attr, None, Some(v), s);
    ScanFinds(attr, None, Some(v), s, 0, 1);
  }

  /** Searching by value alone finds all matches, for every value, exactly if the values ascend along the index or it has just two nodes. */
  lemma ByValueExactly(attr: Option<seq<byte>>, s: seq<Node>)
    ensures AllFound(attr, s) <==> Ascending(attr, s) || |s| == 2
  {
    hide Complete, StrCmp, KeyOf, Falling, FirstFound, Halve;
    if AllFound(attr, s) && |s| > 2 {
      var last := |s| - 1;
      forall k | 0 <= k <= last ensures Reached(attr, s, 0, last, k) {
        WholeSearched(attr, s, k);
      }
      forall i, j | 0 <= i < j < |s| ensures StrCmp(KeyOf(attr, s[i]).value, KeyOf(attr, s[j]).value) <= 0 {
        RangeAscends(attr, s, 0, last, i, j);
        assert Upward(attr, s, i, j);
      }
    }
    if Ascending(attr, s) || |s| == 2 {
      forall v: seq<byte> ensures Complete(attr, None, Some(v), s) {
        if |s| == 2 {
          TwoFound(attr, s, v);
        } else {
          AscendingFalls(attr, Some(v), s);
          FallingComplete(attr, None, Some(v), s);
        }
      }
    }
  }

  lemma WholeSearched(attr: Option<seq<byte>>, s: seq<Node>, k: nat)
    requires k < |s|
    ensures FoundFor(attr, s, k) == HalveFor(attr, s, k, 0, |s| - 1)
  {
    hide Halve;
  }

  /** Three elements a, b, c with the values 2, 1, 3, in the order of their index: the search for 2 returns nothing. */
  lemma SecondMissed(attr: seq<byte>, s: seq<Node>)
    requires |s| == 3
    requires KeyOf(Some(attr), s[0]) == Key([97], [50]) && KeyOf(Some(attr), s[1]) == Key([98], [49])
      && KeyOf(Some(attr), s[2]) == Key([99], [51])
    ensures Sorted(Some(attr), s, 0, 3)
    ensures Found(Some(attr), None, Some([50]), s, 0) == [] && Hits(Some(attr), None, Some([50]), s, 0) == [0]
  {
    hide KeyOf;
    HitsFrom(Some(attr), None, Some([50]), s, 0, 0);
    HitsFrom(Some(attr), None, Some([50]), s, 1, 3);
    assert ScanAll(Some(attr), None, Some([50]), s, 1, 2) == 3;
  }
}
