/**
  The margin Mini-XML keeps when it writes the attributes of an element.
*/
module MxmlMargin {
  import opened Basics
  import opened MxmlAttr
  import opened MxmlTree

  /** The length of the last line of a text. */
  function Column(text: seq<byte>): nat {
    if |text| == 0 || text[|text| - 1] == NEWLINE then 0 else 1 + Column(text[..|text| - 1])
  }

  lemma {:induction false} ColumnMore(text: seq<byte>, more: seq<byte>)
    requires forall i :: 0 <= i < |more| ==> more[i] != NEWLINE
    ensures Column(text + more) == Column(text) + |more|
  {
    if |more| == 0 {
      assert text + more == text;
    } else {
      ColumnMore(text, more[..|more| - 1]);
      assert (text + more)[..|text + more| - 1] == text + more[..|more| - 1];
    }
  }

  /** The characters of an attribute with its `=` and quotes. */
  function Width(a: Attr): nat {
    |a.name| + if a.value.Some? then |a.value.value| + 3 else 0
  }

  /** Nothing in the attribute is escaped or breaks a line. */
  ghost predicate OneLine(a: Attr) {
    && NameText(a.name) == a.name && (forall i :: 0 <= i < |a.name| ==> a.name[i] != NEWLINE)
    && (a.value.Some? ==> Escape(a.value.value) == a.value.value && forall i :: 0 <= i < |a.value.value| ==> a.value.value[i] != NEWLINE)
  }

  lemma AttrParts(a: Attr, wrap: int, o: Out) returns (sep: byte, more: seq<byte>)
    requires OneLine(a)
    ensures forall i :: 0 <= i < |more| ==> more[i] != NEWLINE
    ensures var r := AttrText(a, wrap, o);
      r.text == (o.text + [sep]) + more && r.col == |more| + if sep == NEWLINE then 0 else o.col + 1
  {
    hide NameText, Escape;
    more := a.name + ValueText(a.value);
    sep := AttrText(a, wrap, o).text[|o.text|];
  }

  lemma AttrColumn(a: Attr, wrap: int, o: Out)
    requires OneLine(a) && o.col == Column(o.text)
    ensures var r := AttrText(a, wrap, o); r.col == Column(r.text)
  {
    hide AttrText, OneLine;
    var sep, more := AttrParts(a, wrap, o);
    assert (o.text + [sep])[..|o.text|] == o.text;
    ColumnMore(o.text + [sep], more);
  }

  /** The column counted is the one reached, where nothing is escaped and no value breaks a line. */
  lemma {:induction false} ColumnKept(attrs: seq<Attr>, wrap: int, o: Out)
    requires (forall i :: 0 <= i < |attrs| ==> OneLine(attrs[i])) && o.col == Column(o.text)
    ensures var r := AttrsText(attrs, wrap, o); r.col == Column(r.text)
  {
    hide AttrText, OneLine, Column;
    if |attrs| > 0 {
      AttrColumn(attrs[0], wrap, o);
      ColumnKept(attrs[1..], wrap, AttrText(attrs[0], wrap, o));
    }
  }

  lemma {:induction false} AttrsSplit(attrs: seq<Attr>, wrap: int, o: Out, k: nat)
    requires k <= |attrs|
    ensures AttrsText(attrs, wrap, o) == AttrsText(attrs[k..], wrap, AttrsText(attrs[..k], wrap, o))
  {
    hide AttrText;
    if k == 0 {
      assert attrs[k..] == attrs;
    } else {
      AttrsSplit(attrs[1..], wrap, AttrText(attrs[0], wrap, o), k - 1);
      assert attrs[1..][k - 1..] == attrs[k..] && attrs[..k][1..] == attrs[1..][..k - 1];
    }
  }

  /**
    The line is broken in front of an attribute exactly if the attribute would have
    passed the margin. Behind it the column is at most one past the margin, or the
    attribute stands alone on its line.
  */
  lemma MarginKept(attrs: seq<Attr>, wrap: int, o: Out, k: nat)
    requires 0 < k <= |attrs|
    ensures var a, before, after := attrs[k - 1], AttrsText(attrs[..k - 1], wrap, o), AttrsText(attrs[..k], wrap, o);
      && AttrsText(attrs, wrap, o) == AttrsText(attrs[k..], wrap, after)
      && |after.text| > |before.text| && before.text == after.text[..|before.text|]
      && var sep := after.text[|before.text|];
      && (sep == NEWLINE || sep == SPACE)
      && (sep == NEWLINE <==> wrap > 0 && before.col + Width(a) > wrap)
      && (sep == NEWLINE ==> after.col == Width(a))
      && (wrap > 0 && sep == SPACE ==> before.col < after.col <= wrap + 1)
  {
    AttrsSplit(attrs, wrap, o, k);
    AttrsSplit(attrs[..k], wrap, o, k - 1);
    var a := attrs[k - 1];
    assert attrs[..k][k - 1..] == [a] && attrs[..k][..k - 1] == attrs[..k - 1];
    OneText(a, wrap, AttrsText(attrs[..k - 1], wrap, o));
  }

  lemma OneText(a: Attr, wrap: int, o: Out)
    ensures AttrsText([a], wrap, o) == AttrText(a, wrap, o)
  {
    assert [a][1..] == [];
  }
}
