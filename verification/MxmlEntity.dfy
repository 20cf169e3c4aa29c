/**
  The binary search of named entities. The table is a parameter: what the search needs
  of it is that it is sorted, and what the writer and loader need is that the four
  names the writer uses are in it. MxmlEntityTable shows both of the source's table.
*/
module MxmlEntity {
  import opened Basics
  import opened MxmlTree
  import opened MxmlUtf8

  datatype Entity = Entity(name: seq<byte>, val: int)

  ghost predicate Sorted(table: seq<Entity>) {
    forall i, j :: 0 <= i < j < |table| ==> StrCmp(table[i].name, table[j].name) < 0
  }

  /** The value a name stands for */
  function LookUp(table: seq<Entity>, name: seq<byte>): (r: Option<int>)
    ensures r.None? <==> forall i :: 0 <= i < |table| ==> table[i].name != name
    ensures r.Some? ==> exists i :: 0 <= i < |table| && table[i].name == name && table[i].val == r.value
  {
    if |table| == 0 then None
    else if table[0].name == name then Some(table[0].val)
    else
      var r := LookUp(table[1..], name);
      assert r.Some? ==> exists i :: 0 <= i < |table[1..]| && table[1..][i].name == name && table[1..][i].val == r.value;
      assert forall i :: 0 < i < |table| ==> table[i] == table[1..][i - 1];
      r
  }

  lemma LookUpIs(table: seq<Entity>, k: nat)
    requires Sorted(table) && k < |table|
    ensures LookUp(table, table[k].name) == Some(table[k].val)
  {
    var r := LookUp(table, table[k].name);
    var i :| 0 <= i < |table| && table[i].name == table[k].name && table[i].val == r.value;
    StrCmpSwap(table[k].name, table[k].name);
  }

  /** A name before or after one row is before or after all on the other side. */
  lemma Side(table: seq<Entity>, name: seq<byte>, k: nat)
    requires Sorted(table) && k < |table|
    ensures StrCmp(name, table[k].name) < 0 ==> forall i :: k <= i < |table| ==> table[i].name != name
    ensures StrCmp(name, table[k].name) > 0 ==> forall i :: 0 <= i <= k ==> table[i].name != name
  {
    hide StrCmp;
    forall i | 0 <= i < |table| && table[i].name == name
      ensures StrCmp(name, table[k].name) < 0 ==> i < k
      ensures StrCmp(name, table[k].name) > 0 ==> k < i
    {
      StrCmpSwap(name, table[k].name);
    }
  }

  /** The search of `_mxml_entity_cb`: -1 where the name is not known */
  method EntityValue(table: seq<Entity>, name: seq<byte>) returns (val: int)
    requires Sorted(table) && |table| > 0
    ensures val == var r := LookUp(table, name); if r.Some? then r.value else -1
  {
    hide StrCmp, LookUp, Sorted;
    var first, last := 0, |table| - 1;
    while last - first > 1
      invariant 0 <= first <= last < |table|
      invariant forall i :: 0 <= i < first || last < i < |table| ==> table[i].name != name
    {
      var current := (first + last) / 2;
      Side(table, name, current);
      StrCmpSwap(name, table[current].name);
      var diff := StrCmp(name, table[current].name);
      if diff == 0 {
        LookUpIs(table, current);
        return table[current].val;
      } else if diff < 0 {
        last := current;
      } else {
        first := current;
      }
    }
    LookUpIs(table, first);
    LookUpIs(table, last);
    if name == table[first].name {
      return table[first].val;
    } else if name == table[last].name {
      return table[last].val;
    }
    return -1;
  }

  /** Every value is a character that XML allows. */
  ghost predicate LegalTable(table: seq<Entity>) {
    forall i :: 0 <= i < |table| ==> Legal(table[i].val)
  }

  /** What loading rests on: the four names of `mxmlEntityGetName` lead back to their characters. */
  ghost predicate Standard(table: seq<Entity>) {
    && |table| > 0 && Sorted(table) && LegalTable(table)
    && (forall b: byte :: EntityName(b) != [] ==> LookUp(table, EntityName(b)) == Some(b))
  }
}
