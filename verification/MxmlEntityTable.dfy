/** The table is what the search, the writer and the loader rest on. */
module MxmlEntityTable {
  import opened Basics
  import opened MxmlTree
  import opened MxmlUtf8
  import opened MxmlEntity
  import opened MxmlEntityRows

  function Code(c: char): byte {
    if c <= '~' then c as int else 126
  }

  /** The bytes of a name. */
  function Text(s: string): (r: seq<byte>)
    ensures |r| == |s| && forall i :: 0 <= i < |s| ==> r[i] == Code(s[i])
  {
    seq(|s|, i requires 0 <= i < |s| => Code(s[i]))
  }

  lemma {:induction false} LessIs(s: string, t: string, i: nat)
    requires i <= |s| && i <= |t| && Less(s, t, i)
    ensures StrCmp(Text(s)[i..], Text(t)[i..]) < 0
    decreases |s| - i
  {
    var a, b := Text(s)[i..], Text(t)[i..];
    if i < |s| {
      assert a[1..] == Text(s)[i + 1..] && b[1..] == Text(t)[i + 1..];
      if s[i] == t[i] && Less(s, t, i + 1) {
        LessIs(s, t, i + 1);
      }
    }
  }

  function Entities(rows: seq<Row>): (r: seq<Entity>)
    ensures |r| == |rows| && forall k :: 0 <= k < |rows| ==> r[k] == Entity(Text(rows[k].name), rows[k].val)
  {
    seq(|rows|, k requires 0 <= k < |rows| => Entity(Text(rows[k].name), rows[k].val))
  }

  lemma StrCmpLess(a: seq<byte>, b: seq<byte>, c: seq<byte>)
    requires StrCmp(a, b) < 0 && StrCmp(b, c) < 0
    ensures StrCmp(a, c) < 0
  {
    hide StrCmp;
    StrCmpTrans(a, b, c);
    StrCmpSwap(a, b);
    StrCmpSwap(a, c);
    StrCmpSwap(b, c);
  }

  /** Rows in order one by one are in order altogether. */
  lemma {:induction false} InOrder(rows: seq<Row>, i: nat, j: nat)
    requires Rising(rows) && i < j < |rows|
    ensures StrCmp(Text(rows[i].name), Text(rows[j].name)) < 0
    decreases j - i
  {
    hide StrCmp, Text, Less;
    assert Follows(rows, j - 1);
    LessIs(rows[j - 1].name, rows[j].name, 0);
    assert Text(rows[j - 1].name)[0..] == Text(rows[j - 1].name) && Text(rows[j].name)[0..] == Text(rows[j].name);
    if i < j - 1 {
      InOrder(rows, i, j - 1);
      StrCmpLess(Text(rows[i].name), Text(rows[j - 1].name), Text(rows[j].name));
    }
  }

  /** The first `n` runs, one behind the other. */
  function Joined(runs: seq<Run>, n: nat): seq<Row>
    requires n <= |runs|
  {
    if n == 0 then [] else Joined(runs, n - 1) + runs[n - 1]
  }

  lemma {:induction false} JoinedRises(runs: seq<Run>, n: nat)
    requires n <= |runs| && forall k: nat :: k + 1 < |runs| ==> Behind(runs[k], runs[k + 1])
    ensures var all := Joined(runs, n);
      && Rising(all) && Printing(all)
      && (n > 0 ==> |all| > 0 && all[|all| - 1] == runs[n - 1][|runs[n - 1]| - 1])
  {
    hide Less;
    if n > 0 {
      JoinedRises(runs, n - 1);
      var a, b := Joined(runs, n - 1), runs[n - 1];
      var all := a + b;
      forall k: nat | k + 1 < |all| ensures Follows(all, k) {
        if k + 1 < |a| {
          assert Follows(a, k);
        } else if k + 1 == |a| {
          assert Behind(runs[n - 2], runs[n - 1]);
        } else {
          assert Follows(b, k - |a|);
        }
      }
    }
  }

  lemma {:induction false} JoinedHas(runs: seq<Run>, n: nat, k: nat, i: nat)
    requires k < n <= |runs| && i < |runs[k]|
    ensures runs[k][i] in Joined(runs, n)
  {
    if k < n - 1 {
      JoinedHas(runs, n - 1, k, i);
    }
  }

  lemma {:induction false} JoinedLength(runs: seq<Run>, n: nat, size: nat)
    requires n <= |runs| && forall k: nat :: k < n ==> |runs[k]| == size
    ensures |Joined(runs, n)| == n * size
  {
    if n > 0 {
      JoinedLength(runs, n - 1, size);
    }
  }

  /** The table of the source. */
  const ENTITIES: seq<Entity> := Entities(Joined(RUNS, |RUNS|))

  lemma Known(name: string, val: int, k: nat, i: nat)
    requires k < |RUNS| && i < |RUNS[k]| && RUNS[k][i] == Row(name, val)
    ensures Entity(Text(name), val) in ENTITIES
  {
    hide Joined, Text;
    var rows := Joined(RUNS, |RUNS|);
    JoinedHas(RUNS, |RUNS|, k, i);
    var m :| 0 <= m < |rows| && rows[m] == Row(name, val);
    assert ENTITIES[m] == Entity(Text(name), val);
  }

  lemma NameBytes()
    ensures Text("amp") == ENT_AMP && Text("gt") == ENT_GT && Text("lt") == ENT_LT && Text("quot") == ENT_QUOT
  {
  }

  lemma EntitiesSorted()
    ensures Sorted(ENTITIES) && LegalTable(ENTITIES) && |ENTITIES| == 257
  {
    hide Joined, StrCmp, Text, Rising, Behind;
    RunsHold();
    RunsInOrder();
    var rows := Joined(RUNS, |RUNS|);
    JoinedRises(RUNS, |RUNS|);
    JoinedLength(RUNS, 32, 8);
    LastJoined(RUNS, 32);
    forall i, j | 0 <= i < j < |rows| ensures StrCmp(ENTITIES[i].name, ENTITIES[j].name) < 0 {
      InOrder(rows, i, j);
    }
  }

  lemma LastJoined(runs: seq<Run>, n: nat)
    requires n < |runs|
    ensures Joined(runs, n + 1) == Joined(runs, n) + runs[n]
  {
  }

  /** The table is sorted, its values are characters, and the four names of `mxmlEntityGetName` lead back. */
  lemma EntitiesStandard()
    ensures Standard(ENTITIES)
  {
    hide Sorted, LegalTable, LookUp, Text, Joined, Behind, Rising, Printing;
    EntitiesSorted();
    NameBytes();
    RunsHold();
    Known("amp", 38, 8, 3);
    Known("gt", 62, 15, 1);
    Known("lt", 60, 19, 1);
    Known("quot", 34, 24, 6);
    forall b: byte | EntityName(b) != [] ensures LookUp(ENTITIES, EntityName(b)) == Some(b) {
      var k :| 0 <= k < |ENTITIES| && ENTITIES[k] == Entity(EntityName(b), b);
      LookUpIs(ENTITIES, k);
    }
  }
}
