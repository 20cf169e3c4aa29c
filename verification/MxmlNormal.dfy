/**
  The documents that text can carry: the names, attributes and texts an element may
  have, and what the loader makes of attribute names that start beyond ASCII.
*/
module MxmlNormal {
  import opened Basics
  import opened MxmlAttr
  import opened MxmlLoad
  import opened MxmlReading
  import opened MxmlSpelling
  import opened MxmlTree
  import opened MxmlUtf8

  // ------------------------------------------------------ normal form

  ghost predicate AllPlain(p: Place, cs: seq<int>) {
    forall i :: 0 <= i < |cs| ==> Legal(cs[i]) && Plain(p, cs[i])
  }

  /** An element name is written as it is and not read as markup. */
  ghost predicate NameChars(cs: seq<int>) {
    |cs| > 0 && cs[0] != BANG && cs[0] != QUESTION && AllPlain(InTag, cs)
  }

  ghost predicate NormalName(s: seq<byte>) {
    exists cs :: NameChars(cs) && AllLegal(cs) && s == EncodeAll(cs)
  }

  ghost predicate AttrChars(cs: seq<int>) {
    |cs| > 0 && Legal(cs[0]) && StartsName(cs[0]) && AllPlain(InAttrName, cs[1..])
  }

  ghost predicate NormalAttrName(s: seq<byte>) {
    exists cs :: AttrChars(cs) && AllLegal(cs) && s == EncodeAll(cs)
  }

  /** Text in UTF-8 without characters XML does not allow. */
  ghost predicate NormalText(s: seq<byte>) {
    exists cs :: AllLegal(cs) && s == EncodeAll(cs)
  }

  ghost predicate NormalAttr(a: Attr) {
    NormalAttrName(a.name) && a.value.Some? && NormalText(a.value.value)
  }

  ghost predicate NormalAttrs(attrs: seq<Attr>) {
    DistinctNames(attrs) && forall i :: 0 <= i < |attrs| ==> NormalAttr(attrs[i])
  }

  ghost predicate Normal(t: Tree)
    decreases t, 0
  {
    match t
    case Text(s) => s != [] && NormalText(s)
    case Elem(name, attrs, kids) => NormalName(name) && NormalAttrs(attrs) && NormalAll(kids)
  }

  /** No two texts stand next to each other. */
  ghost predicate NormalAll(ts: seq<Tree>)
    decreases ts, 1
  {
    |ts| > 0 ==>
      Normal(ts[0]) && NormalAll(ts[1..]) && !(|ts| > 1 && ts[0].Text? && ts[1].Text?)
  }

  // --------------------------------------------- names beyond ASCII

  /** An attribute name as the loader stores it: of its first character only the low byte is kept. */
  function StoredName(name: seq<byte>): seq<byte> {
    match GetC(name, 0)
    case Got(ch, pos) => CStr([ch % 256] + name[pos..])
    case _ => name
  }

  function StoredAttrs(attrs: seq<Attr>): (r: seq<Attr>)
    ensures |r| == |attrs|
  {
    if |attrs| == 0 then [] else [Attr(StoredName(attrs[0].name), attrs[0].value)] + StoredAttrs(attrs[1..])
  }

  function Stored(t: Tree): Tree
    decreases t, 0
  {
    match t
    case Text(_) => t
    case Elem(name, attrs, kids) => Elem(name, StoredAttrs(attrs), StoredAll(kids))
  }

  function StoredAll(ts: seq<Tree>): (r: seq<Tree>)
    ensures |r| == |ts|
    decreases ts, 1
  {
    if |ts| == 0 then [] else [Stored(ts[0])] + StoredAll(ts[1..])
  }

  ghost predicate AsciiNames(attrs: seq<Attr>) {
    forall i :: 0 <= i < |attrs| ==> Head(attrs[i].name) < 0x80
  }

  /** Every attribute name starts with an ASCII character. */
  ghost predicate AsciiStarts(t: Tree)
    decreases t, 0
  {
    t.Elem? ==> AsciiNames(t.attrs) && AllAsciiStarts(t.kids)
  }

  ghost predicate AllAsciiStarts(ts: seq<Tree>)
    decreases ts, 1
  {
    |ts| > 0 ==> AsciiStarts(ts[0]) && AllAsciiStarts(ts[1..])
  }

  // ------------------------------------------------------------ names

  lemma EncodeFirst(cs: seq<int>)
    requires |cs| > 0 && AllLegal(cs)
    ensures Legal(cs[0]) && AllLegal(cs[1..]) && EncodeAll(cs) == Encode(cs[0]) + EncodeAll(cs[1..])
  {
    hide Encode, BadChar;
  }

  /** The signs of characters that stand for themselves. */
  function RawSigns(cs: seq<int>): (xs: seq<Sign>)
    requires AllLegal(cs)
    ensures |xs| == |cs|
  {
    if |cs| == 0 then [] else [Raw(cs[0])] + RawSigns(cs[1..])
  }

  lemma {:induction false} RawText(cs: seq<int>)
    requires AllLegal(cs)
    ensures SignsText(RawSigns(cs)) == EncodeAll(cs) && Said(RawSigns(cs)) == EncodeAll(cs)
    ensures forall i :: 0 <= i < |cs| ==> RawSigns(cs)[i] == Raw(cs[i])
    decreases |cs|
  {
    hide Encode, BadChar;
    if |cs| > 0 {
      RawText(cs[1..]);
      assert RawSigns(cs)[1..] == RawSigns(cs[1..]);
    }
  }

  /** The name stored, in terms of its characters. */
  lemma StoredNameIs(cs: seq<int>)
    requires AttrChars(cs) && AllLegal(cs)
    ensures AllLegal(cs[1..]) && StoredName(EncodeAll(cs)) == LowFirst(cs[0], RawSigns(cs[1..]))
  {
    hide GetC, Encode, CStr, At, EncodeAll;
    var s, e := EncodeAll(cs), Encode(cs[0]);
    EncodeFirst(cs);
    RawText(cs[1..]);
    Whole(s);
    AtSplit(s, 0, e, EncodeAll(cs[1..]));
    CharAt(s, 0, cs[0]);
    assert s[|e|..] == EncodeAll(cs[1..]);
  }

  /** A name is stored as it is exactly if it starts with an ASCII character. */
  lemma StoredSame(name: seq<byte>)
    requires NormalAttrName(name)
    ensures StoredName(name) == name <==> Head(name) < 0x80
  {
    hide EncodeAll, CStr, Said, LowFirst, Encode, StoredName;
    var cs :| AttrChars(cs) && AllLegal(cs) && name == EncodeAll(cs);
    var first, more := cs[0], RawSigns(cs[1..]);
    StoredNameIs(cs);
    EncodeFirst(cs);
    RawText(cs[1..]);
    FirstKept(first, more);
    SaidFirst(first, more);
    FirstByte(first, EncodeAll(cs[1..]));
  }

  lemma SaidFirst(first: Char, more: seq<Sign>)
    ensures Said([Raw(first)] + more) == Encode(first) + Said(more)
  {
    hide Encode;
    assert ([Raw(first)] + more)[1..] == more;
  }

  /** A normal document is stored as it is exactly if all its attribute names start with ASCII characters. */
  lemma {:induction false} TreeSame(t: Tree)
    requires Normal(t)
    ensures Stored(t) == t <==> AsciiStarts(t)
    ensures AsciiStarts(t) ==> Fits(Stored(t))
    decreases t, 0
  {
    hide NormalAttrName, NormalText, StoredName, NormalName, AsciiNames, StoredAttrs;
    if t.Elem? {
      AttrsSame(t.attrs);
      AllSame(t.kids);
    }
  }

  lemma {:induction false} AttrsSame(attrs: seq<Attr>)
    requires forall i :: 0 <= i < |attrs| ==> NormalAttr(attrs[i])
    ensures StoredAttrs(attrs) == attrs <==> AsciiNames(attrs)
  {
    hide NormalAttrName, NormalText, StoredName;
    if |attrs| > 0 {
      var a, more := attrs[0], attrs[1..];
      assert NormalAttr(a);
      StoredSame(a.name);
      AttrsSame(more);
      assert attrs == [a] + more;
      assert AsciiNames(attrs) <==> Head(a.name) < 0x80 && AsciiNames(more);
    }
  }

  lemma {:induction false} AllSame(ts: seq<Tree>)
    requires NormalAll(ts)
    ensures StoredAll(ts) == ts <==> AllAsciiStarts(ts)
    ensures AllAsciiStarts(ts) ==> AllFit(StoredAll(ts))
    decreases ts, 1
  {
    if |ts| > 0 {
      TreeSame(ts[0]);
      AllSame(ts[1..]);
      assert ts == [ts[0]] + ts[1..];
    }
  }
}
