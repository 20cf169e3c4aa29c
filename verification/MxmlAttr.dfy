/**
  The attributes of an element: an array searched, extended and closed up in place.
*/
module MxmlAttr {
  import opened Basics

  /** A name and its value; the value may be missing. */
  datatype Attr = Attr(name: seq<byte>, value: Option<seq<byte>>)

  /** The position of the first attribute called `name`; the number of attributes where there is none. */
  function AttrAt(attrs: seq<Attr>, name: seq<byte>): (k: nat)
    ensures k <= |attrs| && (k < |attrs| ==> attrs[k].name == name)
    ensures forall j :: 0 <= j < k ==> attrs[j].name != name
  {
    if |attrs| == 0 || attrs[0].name == name then 0 else 1 + AttrAt(attrs[1..], name)
  }

  /** `mxmlElementGetAttr` as a function of the attributes */
  function GetAttr(attrs: seq<Attr>, name: seq<byte>): Option<seq<byte>> {
    var k := AttrAt(attrs, name);
    if k < |attrs| then attrs[k].value else None
  }

  function SetAttr(attrs: seq<Attr>, name: seq<byte>, value: Option<seq<byte>>): seq<Attr> {
    var k := AttrAt(attrs, name);
    if k < |attrs| then attrs[k := Attr(name, value)] else attrs + [Attr(name, value)]
  }

  function DeleteAttr(attrs: seq<Attr>, name: seq<byte>): seq<Attr> {
    var k := AttrAt(attrs, name);
    if k < |attrs| then attrs[..k] + attrs[k + 1..] else attrs
  }

  ghost predicate DistinctNames(attrs: seq<Attr>) {
    forall i, j :: 0 <= i < j < |attrs| ==> attrs[i].name != attrs[j].name
  }

  /** The attribute is there, with this value: the first one of the name has it. */
  predicate HasValue(attrs: seq<Attr>, name: seq<byte>, value: seq<byte>) {
    exists i :: 0 <= i < |attrs| && attrs[i] == Attr(name, Some(value)) && forall j :: 0 <= j < i ==> attrs[j].name != name
  }

  ghost predicate HasAttr(attrs: seq<Attr>, name: seq<byte>) {
    exists value :: HasValue(attrs, name, value)
  }

  lemma GetAttrIs(attrs: seq<Attr>, name: seq<byte>)
    ensures GetAttr(attrs, name).Some? <==> HasAttr(attrs, name)
    ensures forall value :: GetAttr(attrs, name) == Some(value) <==> HasValue(attrs, name, value)
  {
    var k := AttrAt(attrs, name);
    if GetAttr(attrs, name).Some? {
      assert HasValue(attrs, name, GetAttr(attrs, name).value);
    }
  }

  lemma AttrAtIs(attrs: seq<Attr>, k: nat)
    requires DistinctNames(attrs) && k < |attrs|
    ensures AttrAt(attrs, attrs[k].name) == k
  {
  }

  /** What is set is read back, other attributes keep their values, and names stay distinct. */
  lemma SetThenGet(attrs: seq<Attr>, name: seq<byte>, value: Option<seq<byte>>, other: seq<byte>)
    requires DistinctNames(attrs)
    ensures DistinctNames(SetAttr(attrs, name, value))
    ensures GetAttr(SetAttr(attrs, name, value), other) == if other == name then value else GetAttr(attrs, other)
  {
    hide AttrAt;
    var r := SetAttr(attrs, name, value);
    var k := AttrAt(attrs, other);
    if other == name {
      assert r[k].name == name;
      AttrAtIs(r, k);
    } else if k < |attrs| {
      assert r[k] == attrs[k];
      AttrAtIs(r, k);
    }
  }

  /** A deleted attribute is gone, other attributes keep their values, and names stay distinct. */
  lemma DeleteThenGet(attrs: seq<Attr>, name: seq<byte>, other: seq<byte>)
    requires DistinctNames(attrs)
    ensures DistinctNames(DeleteAttr(attrs, name))
    ensures GetAttr(DeleteAttr(attrs, name), other) == if other == name then None else GetAttr(attrs, other)
  {
    hide AttrAt;
    var r, d, k := DeleteAttr(attrs, name), AttrAt(attrs, name), AttrAt(attrs, other);
    assert forall j :: 0 <= j < |r| ==> r[j] == attrs[if j < d then j else j + 1];
    if other != name && k < |attrs| {
      var k' := if k < d then k else k - 1;
      assert r[k'] == attrs[k];
      AttrAtIs(r, k');
    } else if d < |attrs| {
      AttrAtIs(attrs, d);
    }
  }

  /** The attribute array of one element. */
  class Attributes {
    var attrs: array<Attr>
    var numAttrs: nat

    ghost predicate Valid()
      reads this
    {
      numAttrs <= attrs.Length
    }

    ghost function Contents(): seq<Attr>
      reads this, attrs
      requires Valid()
    {
      attrs[..numAttrs]
    }

    constructor ()
      ensures Valid() && Contents() == [] && fresh(attrs)
    {
      attrs := new Attr[0];
      numAttrs := 0;
    }

    /** The search loop the three operations begin with. */
    method Find(name: seq<byte>) returns (k: nat)
      requires Valid()
      ensures k == AttrAt(Contents(), name)
    {
      k := 0;
      while k < numAttrs
        invariant k <= numAttrs && forall j :: 0 <= j < k ==> attrs[j].name != name
      {
        if attrs[k].name == name {
          return;
        }
        k := k + 1;
      }
    }

    /** `mxmlElementGetAttr` */
    method Get(name: seq<byte>) returns (value: Option<seq<byte>>)
      requires Valid()
      ensures value == GetAttr(Contents(), name)
    {
      var k := Find(name);
      value := if k < numAttrs then attrs[k].value else None;
    }

    /** `mxml_set_attr`: `realloc` gives room for one more. */
    method Set(name: seq<byte>, value: Option<seq<byte>>)
      requires Valid()
      modifies this, attrs
      ensures Valid() && (attrs == old(attrs) || fresh(attrs))
      ensures Contents() == SetAttr(old(Contents()), name, value)
    {
      var k := Find(name);
      if k < numAttrs {
        attrs[k] := Attr(name, value);
        return;
      }
      var more := new Attr[numAttrs + 1](j requires 0 <= j reads this, attrs =>
        if j < numAttrs && j < attrs.Length then attrs[j] else Attr(name, value));
      attrs := more;
      numAttrs := numAttrs + 1;
      assert Contents() == old(Contents()) + [Attr(name, value)];
    }

    /** `mxmlElementDeleteAttr`: the attributes behind close the gap. */
    method Delete(name: seq<byte>)
      requires Valid()
      modifies this`numAttrs, attrs
      ensures Valid() && Contents() == DeleteAttr(old(Contents()), name)
    {
      hide AttrAt;
      ghost var was := Contents();
      var k := Find(name);
      if k == numAttrs {
        return;
      }
      var j := k;
      while j + 1 < numAttrs
        invariant k <= j < numAttrs == |was|
        invariant forall i :: 0 <= i < numAttrs ==> attrs[i] == was[if k <= i < j then i + 1 else i]
      {
        attrs[j] := attrs[j + 1];
        j := j + 1;
      }
      numAttrs := numAttrs - 1;
      GapClosed(was, Contents(), k);
    }
  }

  lemma GapClosed(was: seq<Attr>, now: seq<Attr>, k: nat)
    requires k < |was| == |now| + 1
    requires forall i :: 0 <= i < |now| ==> now[i] == was[if k <= i then i + 1 else i]
    ensures now == was[..k] + was[k + 1..]
  {
  }
}
