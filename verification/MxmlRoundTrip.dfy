/**
  Loading what was written: what is written for a document in normal form is a
  spelling of the document as it is stored, so loading rebuilds that.
*/
module MxmlRoundTrip {
  import opened Basics
  import opened MxmlAttr
  import opened MxmlEntity
  import opened MxmlLoad
  import opened MxmlNormal
  import opened MxmlReading
  import opened MxmlSpelled
  import opened MxmlSpelling
  import opened MxmlTree
  import opened MxmlUtf8

  // ------------------------------------------------------- characters

  lemma {:induction false} HighBytes(e: seq<byte>)
    requires forall i :: 0 <= i < |e| ==> e[i] >= 0x80
    ensures Escape(e) == e
  {
    if |e| > 0 {
      HighBytes(e[1..]);
      assert e == [e[0]] + e[1..];
    }
  }

  /** A character is written by its entity where `mxmlEntityGetName` has one. */
  function WrittenSign(c: int): Sign
    requires Legal(c)
  {
    if c < 0x80 && EntityName(c) != [] then Ref(EntityName(c), c) else Raw(c)
  }

  function WrittenSigns(cs: seq<int>): seq<Sign>
    requires AllLegal(cs)
  {
    if |cs| == 0 then [] else [WrittenSign(cs[0])] + WrittenSigns(cs[1..])
  }

  lemma SignWritten(table: seq<Entity>, c: int)
    requires Standard(table) && Legal(c)
    ensures SignText(WrittenSign(c)) == Escape(Encode(c))
    ensures Fine(table, InText, WrittenSign(c)) && Fine(table, InQuotes(QUOT), WrittenSign(c))
  {
    hide Sorted, LegalTable;
    if c < 0x80 {
      assert Escape([c]) == EscapeByte(c) + Escape([]);
      EntityNames(c);
    } else {
      HighBytes(Encode(c));
    }
  }

  lemma EntityNames(b: byte)
    ensures |EntityName(b)| <= 4 && forall i :: 0 <= i < |EntityName(b)| ==> IsAlnum(EntityName(b)[i])
  {
  }

  /** An escaped text spells the text, and may stand in an element and between double quotes. */
  lemma {:induction false} TextWritten(table: seq<Entity>, cs: seq<int>)
    requires Standard(table) && AllLegal(cs)
    ensures var xs := WrittenSigns(cs);
      && SignsText(xs) == Escape(EncodeAll(cs)) && Said(xs) == EncodeAll(cs)
      && AllFine(table, InText, xs) && AllFine(table, InQuotes(QUOT), xs) && |xs| == |cs|
    decreases |cs|
  {
    hide Encode, Escape, Standard, SignText, Fine, BadChar, EntityName;
    if |cs| == 0 {
      assert cs == [] && Escape([]) == [] by { EscapeNone(); }
    } else {
      var xs, more := WrittenSigns(cs), WrittenSigns(cs[1..]);
      EncodeFirst(cs);
      TextWritten(table, cs[1..]);
      SignWritten(table, cs[0]);
      EscapeJoin(Encode(cs[0]), EncodeAll(cs[1..]));
      assert xs[1..] == more;
    }
  }

  lemma EscapeNone()
    ensures Escape([]) == []
  {
  }

  lemma CharEscaped(c: int)
    requires Legal(c) && Plain(InTag, c)
    ensures Escape(Encode(c)) == Encode(c)
  {
    if c < 0x80 {
      assert Escape([c]) == EscapeByte(c) + Escape([]);
    } else {
      HighBytes(Encode(c));
    }
  }

  /** A name is written as it is, in a closing tag, too. */
  lemma {:induction false} NameEscaped(cs: seq<int>)
    requires AllPlain(InTag, cs) && AllLegal(cs)
    ensures Escape(EncodeAll(cs)) == EncodeAll(cs)
  {
    hide Encode, Plain, Escape, BadChar;
    if |cs| == 0 {
      EscapeNone();
    } else {
      EncodeFirst(cs);
      NameEscaped(cs[1..]);
      EscapeJoin(Encode(cs[0]), EncodeAll(cs[1..]));
      CharEscaped(cs[0]);
    }
  }

  // ------------------------------------------------------- attributes

  /** What is written for an attribute spells it as it is stored. */
  lemma AttrWritten(table: seq<Entity>, a: Attr, sep: byte) returns (g: Given)
    requires Standard(table) && NormalAttr(a) && IsSpace(sep)
    ensures GivenFine(table, g) && g.gap == [sep] && g.value.Quoted?
    ensures GivenText(g) == NameText(a.name) + ValueText(a.value)
    ensures GivenAttr(g) == Attr(StoredName(a.name), a.value)
  {
    hide Standard, EncodeAll, Encode, Escape, SignsText, Said, AllFine, StoredName, LowFirst, NameText;
    var cs :| AttrChars(cs) && AllLegal(cs) && a.name == EncodeAll(cs);
    var vs :| AllLegal(vs) && a.value.value == EncodeAll(vs);
    var xs := WrittenSigns(vs);
    g := NameWritten(table, cs, sep, xs);
    TextWritten(table, vs);
    assert GivenText(g) == a.name + ValueText(a.value);
  }

  lemma NameWritten(table: seq<Entity>, cs: seq<int>, sep: byte, xs: seq<Sign>) returns (g: Given)
    requires AttrChars(cs) && AllLegal(cs) && IsSpace(sep)
    ensures NameText(EncodeAll(cs)) == EncodeAll(cs)
    ensures g.gap == [sep] && g.before == [] && g.after == [] && g.value == Quoted(QUOT, xs)
    ensures StartsName(g.first) && AllFine(table, InAttrName, g.more)
    ensures Encode(g.first) + SignsText(g.more) == EncodeAll(cs) && LowFirst(g.first, g.more) == StoredName(EncodeAll(cs))
  {
    hide Encode, EncodeAll, LowFirst, StoredName, Said;
    EncodeFirst(cs);
    StoredNameIs(cs);
    RawText(cs[1..]);
    FirstByte(cs[0], EncodeAll(cs[1..]));
    g := Given([sep], cs[0], RawSigns(cs[1..]), [], [], Quoted(QUOT, xs));
  }

  /** What is written for attributes depends only on the column. */
  lemma {:induction false} AttrsFrom(attrs: seq<Attr>, wrap: int, o: Out)
    ensures var r := AttrsText(attrs, wrap, Out([], o.col));
      AttrsText(attrs, wrap, o) == Out(o.text + r.text, r.col)
  {
    hide NameText, ValueText;
    if |attrs| > 0 {
      var a, b := AttrText(attrs[0], wrap, o), AttrText(attrs[0], wrap, Out([], o.col));
      AttrsFrom(attrs[1..], wrap, a);
      AttrsFrom(attrs[1..], wrap, b);
      assert a.col == b.col && a.text == o.text + b.text;
    } else {
      assert o.text + [] == o.text;
    }
  }

  function AttrsBytes(attrs: seq<Attr>, wrap: int, col: int): seq<byte> {
    AttrsText(attrs, wrap, Out([], col)).text
  }

  lemma AttrsBytesNext(attrs: seq<Attr>, wrap: int, col: int) returns (sep: byte, col': int)
    requires |attrs| > 0
    ensures sep == SPACE || sep == NEWLINE
    ensures AttrsBytes(attrs, wrap, col)
         == [sep] + ((NameText(attrs[0].name) + ValueText(attrs[0].value)) + AttrsBytes(attrs[1..], wrap, col'))
  {
    hide NameText, ValueText;
    var a := AttrText(attrs[0], wrap, Out([], col));
    col' := a.col;
    sep := a.text[0];
    AttrsFrom(attrs[1..], wrap, a);
    assert a.text == [sep] + (NameText(attrs[0].name) + ValueText(attrs[0].value));
  }

  /** What is written for all attributes of an element spells them as they are stored. */
  lemma {:induction false} AttrsWritten(table: seq<Entity>, attrs: seq<Attr>, wrap: int, col: int, quoted: bool) returns (gs: seq<Given>)
    requires Standard(table) && forall i :: 0 <= i < |attrs| ==> NormalAttr(attrs[i])
    ensures GivensText(gs) == AttrsBytes(attrs, wrap, col) && GivenAttrs(gs) == StoredAttrs(attrs)
    ensures GivenAllFine(table, gs, quoted)
    decreases |attrs|
  {
    hide Standard, NormalAttr, NameText, ValueText, GivenText, GivenFine, StoredName, GivenAttr, AttrsText;
    if |attrs| == 0 {
      NoAttrs(wrap, col);
      gs := [];
    } else {
      var sep, col' := AttrsBytesNext(attrs, wrap, col);
      var g := AttrWritten(table, attrs[0], sep);
      var more := AttrsWritten(table, attrs[1..], wrap, col', true);
      gs := [g] + more;
      assert gs[1..] == more;
    }
  }

  lemma NoAttrs(wrap: int, col: int)
    ensures AttrsBytes([], wrap, col) == [] && StoredAttrs([]) == []
  {
  }

  // ------------------------------------------------------------- tags

  /** What is written for an opening tag is its name, its attributes and its end. */
  lemma TagWritten(table: seq<Entity>, cs: seq<int>, attrs: seq<Attr>, childless: bool, wrap: int, o: Out) returns (tag: Tag)
    requires Standard(table) && NameChars(cs) && AllLegal(cs) && NormalAttrs(attrs)
    ensures TagFine(table, tag) && Said(tag.name) == EncodeAll(cs) && GivenAttrs(tag.attrs) == StoredAttrs(attrs)
    ensures OpenTag(EncodeAll(cs), attrs, childless, wrap, o).text == o.text + OpeningText(tag, childless)
  {
    hide Standard, AttrsText, EncodeAll, NormalAttr, GivensText, GivenAttrs, StoredAttrs, SignsText, Said, GivenAllFine, TagText, Unclosed, DistinctNames;
    var n := EncodeAll(cs);
    var named := o.Add([LT] + n, |n| + 1);
    var name := NameSigns(table, cs);
    NameFacts(cs);
    AttrsFrom(attrs, wrap, named);
    var gs := AttrsWritten(table, attrs, wrap, named.col, false);
    tag := Tag(name, gs, if childless then [SPACE] else []);
    var last := if childless then [SPACE, SLASH, GT] else [GT];
    assert tag.end + (if childless then [SLASH, GT] else [GT]) == last;
    Regrouped(o.text, n, GivensText(gs), last);
  }

  lemma Regrouped(text: seq<byte>, name: seq<byte>, attrs: seq<byte>, last: seq<byte>)
    ensures text + ([LT] + name) + attrs + last == text + ([LT] + (name + (attrs + last)))
  {
  }

  lemma NameSigns(table: seq<Entity>, cs: seq<int>) returns (xs: seq<Sign>)
    requires NameChars(cs) && AllLegal(cs)
    ensures NameFine(table, xs) && SignsText(xs) == EncodeAll(cs) && Said(xs) == EncodeAll(cs)
  {
    hide Encode, EncodeAll;
    RawText(cs);
    xs := RawSigns(cs);
  }

  lemma NameFacts(cs: seq<int>)
    requires NameChars(cs) && AllLegal(cs)
    ensures TagText(EncodeAll(cs)) == EncodeAll(cs) && !Unclosed(EncodeAll(cs))
  {
    EncodeFirst(cs);
    FirstByte(cs[0], EncodeAll(cs[1..]));
  }

  lemma CloseWritten(cs: seq<int>, xs: seq<Sign>, o: Out)
    requires NameChars(cs) && AllLegal(cs) && SignsText(xs) == EncodeAll(cs)
    ensures CloseTag(EncodeAll(cs), o).text == o.text + ClosingText(xs, [])
  {
    hide EncodeAll, Escape, SignsText;
    NameFacts(cs);
    NameEscaped(cs);
    var n := EncodeAll(cs);
    assert [LT, SLASH] + n + [GT] == ClosingText(xs, []);
  }

  // ------------------------------------------------------- whole trees

  lemma OpenFrom(name: seq<byte>, attrs: seq<Attr>, childless: bool, wrap: int, o: Out)
    ensures var r := OpenTag(name, attrs, childless, wrap, Out([], o.col));
      OpenTag(name, attrs, childless, wrap, o) == Out(o.text + r.text, r.col)
  {
    hide AttrsText, TagText;
    var tag := [LT] + TagText(name);
    AttrsFrom(attrs, wrap, o.Add(tag, |name| + 1));
    AttrsFrom(attrs, wrap, Out([], o.col).Add(tag, |name| + 1));
    assert [] + tag == tag;
  }

  lemma CloseFrom(name: seq<byte>, o: Out)
    ensures var r := CloseTag(name, Out([], o.col)); CloseTag(name, o) == Out(o.text + r.text, r.col)
  {
    hide Escape;
    assert o.text + [] == o.text;
  }

  /** What is written for a document depends only on the column. */
  lemma {:induction false} WriteFrom(t: Tree, wrap: int, o: Out)
    ensures var r := Write(t, wrap, Out([], o.col)); Write(t, wrap, o) == Out(o.text + r.text, r.col)
    decreases t, 0
  {
    hide OpenTag, CloseTag, Escape;
    match t {
      case Text(s) =>
        assert [] + Escape(s) == Escape(s);
      case Elem(name, attrs, kids) =>
        OpenFrom(name, attrs, |kids| == 0, wrap, o);
        var a := OpenTag(name, attrs, |kids| == 0, wrap, Out([], o.col));
        if |kids| > 0 {
          WriteAllFrom(kids, wrap, OpenTag(name, attrs, false, wrap, o));
          WriteAllFrom(kids, wrap, a);
          CloseFrom(name, WriteAll(kids, wrap, OpenTag(name, attrs, false, wrap, o)));
          CloseFrom(name, WriteAll(kids, wrap, a));
        }
    }
  }

  lemma {:induction false} WriteAllFrom(ts: seq<Tree>, wrap: int, o: Out)
    ensures var r := WriteAll(ts, wrap, Out([], o.col)); WriteAll(ts, wrap, o) == Out(o.text + r.text, r.col)
    decreases ts, 1
  {
    hide Write;
    if |ts| == 0 {
      assert o.text + [] == o.text;
    } else {
      WriteFrom(ts[0], wrap, o);
      WriteAllFrom(ts[1..], wrap, Write(ts[0], wrap, o));
      WriteAllFrom(ts[1..], wrap, Write(ts[0], wrap, Out([], o.col)));
    }
  }

  function Bytes(t: Tree, wrap: int, col: int): seq<byte> {
    Write(t, wrap, Out([], col)).text
  }

  function AllBytes(ts: seq<Tree>, wrap: int, col: int): seq<byte> {
    WriteAll(ts, wrap, Out([], col)).text
  }

  lemma AllBytesNext(ts: seq<Tree>, wrap: int, col: int) returns (col': int)
    requires |ts| > 0
    ensures AllBytes(ts, wrap, col) == Bytes(ts[0], wrap, col) + AllBytes(ts[1..], wrap, col')
  {
    hide Write;
    var o := Write(ts[0], wrap, Out([], col));
    col' := o.col;
    WriteAllFrom(ts[1..], wrap, o);
  }

  lemma KidsText(kids: seq<Tree>, wrap: int, o: Out)
    ensures WriteAll(kids, wrap, o).text == o.text + AllBytes(kids, wrap, o.col)
  {
    WriteAllFrom(kids, wrap, o);
  }

  lemma NormalElem(t: Tree) returns (cs: seq<int>)
    requires t.Elem? && Normal(t)
    ensures NameChars(cs) && AllLegal(cs) && t.name == EncodeAll(cs) && NormalAttrs(t.attrs) && NormalAll(t.kids)
  {
    cs :| NameChars(cs) && AllLegal(cs) && t.name == EncodeAll(cs);
  }

  /** What is written for a document in normal form is a spelling of the document as it is stored. */
  lemma {:induction false} TreeWritten(table: seq<Entity>, t: Tree, wrap: int, col: int) returns (d: Spelled)
    requires Standard(table) && Normal(t)
    ensures SpelledFine(table, d) && SpelledText(d) == Bytes(t, wrap, col) && Meant(d) == Stored(t) && (d.Chars? <==> t.Text?)
    decreases t, 0
  {
    hide Standard, NormalAttrs, NormalAll, OpenTag, CloseTag, TagFine, OpeningText, ClosingText, SignsText, Said, AllFine, EncodeAll, Escape,
      GivenAttrs, StoredAttrs, AllText, AllSpelled, AllMeant, StoredAll, NormalName, NormalText, NameChars, AllLegal, WriteAll;
    match t {
      case Text(s) =>
        var cs := TextOf(s);
        TextWritten(table, cs);
        TextKept(cs);
        d := Chars(WrittenSigns(cs));
        assert [] + Escape(s) == Escape(s);
      case Elem(name, attrs, kids) =>
        var cs := NormalElem(t);
        var childless := |kids| == 0;
        var o := OpenTag(name, attrs, childless, wrap, Out([], col));
        var tag := TagWritten(table, cs, attrs, childless, wrap, Out([], col));
        assert [] + OpeningText(tag, childless) == OpeningText(tag, childless);
        if childless {
          NoneStored();
          d := Short(tag);
        } else {
          var xs := NameSigns(table, cs);
          var ds := AllWritten(table, kids, wrap, o.col);
          KidsText(kids, wrap, o);
          CloseWritten(cs, xs, WriteAll(kids, wrap, o));
          FineName(table, xs);
          d := Full(tag, ds, xs, []);
          assert o.text + AllText(ds) + ClosingText(xs, []) == SpelledText(d);
        }
    }
  }

  lemma TextOf(s: seq<byte>) returns (cs: seq<int>)
    requires NormalText(s)
    ensures AllLegal(cs) && s == EncodeAll(cs)
  {
    cs :| AllLegal(cs) && s == EncodeAll(cs);
  }

  lemma TextKept(cs: seq<int>)
    requires AllLegal(cs)
    ensures EncodeAll(cs) != [] ==> |cs| > 0
  {
  }

  lemma FineName(table: seq<Entity>, xs: seq<Sign>)
    requires NameFine(table, xs)
    ensures AllFine(table, InTag, xs)
  {
  }

  lemma NoneStored()
    ensures StoredAll([]) == []
  {
  }

  lemma {:induction false} AllWritten(table: seq<Entity>, ts: seq<Tree>, wrap: int, col: int) returns (ds: seq<Spelled>)
    requires Standard(table) && NormalAll(ts)
    ensures AllSpelled(table, ds) && AllText(ds) == AllBytes(ts, wrap, col) && AllMeant(ds) == StoredAll(ts)
    ensures |ds| == |ts| && (|ts| > 0 ==> (ds[0].Chars? <==> ts[0].Text?))
    decreases ts, 1
  {
    hide Standard, Normal, SpelledFine, SpelledText, Bytes, Meant, Stored, Write;
    if |ts| == 0 {
      ds := [];
    } else {
      var col' := AllBytesNext(ts, wrap, col);
      var d := TreeWritten(table, ts[0], wrap, col);
      var more := AllWritten(table, ts[1..], wrap, col');
      ds := [d] + more;
      assert ds[1..] == more;
    }
  }

  // --------------------------------------------------------- round trip

  /**
    What loading a written document gives, with or without a newline behind it: the
    document as stored, or nothing where two attribute names of an element collide.
  */
  lemma LoadGives(table: seq<Entity>, t: Tree, wrap: int, col: int, newline: bool)
    requires Standard(table) && t.Elem? && Normal(t)
    ensures LegalTable(table)
    ensures Load(table, Bytes(t, wrap, col) + if newline then [NEWLINE] else [])
         == if Fits(Stored(t)) then Document(Stored(t)) else BadDocument
  {
    hide *;
    StandardLegal(table);
    var d := TreeWritten(table, t, wrap, col);
    var trail := Newline(table, newline);
    LoadSpelled(table, [], d, trail);
    var text := Bytes(t, wrap, col) + SignsText(trail);
    assert SignsText([]) + text == text;
  }

  lemma StandardLegal(table: seq<Entity>)
    requires Standard(table)
    ensures LegalTable(table)
  {
  }

  lemma Newline(table: seq<Entity>, newline: bool) returns (trail: seq<Sign>)
    ensures SignsText([]) == [] && SignsText(trail) == if newline then [NEWLINE] else []
    ensures AllFine(table, InText, []) && AllFine(table, InText, trail)
  {
    trail := if newline then [Raw(NEWLINE)] else [];
    assert [Raw(NEWLINE)][1..] == [];
  }

  /** Loading what was written, and perhaps a newline, rebuilds the document exactly if its attribute names start with ASCII characters. */
  lemma LoadWritten(table: seq<Entity>, t: Tree, wrap: int, col: int, newline: bool)
    requires Standard(table) && t.Elem? && Normal(t)
    ensures LegalTable(table)
    ensures Load(table, Bytes(t, wrap, col) + if newline then [NEWLINE] else []) == Document(t) <==> AsciiStarts(t)
  {
    hide Standard, LegalTable, Bytes, Normal, Load, Fits, Stored, AsciiStarts;
    LoadGives(table, t, wrap, col, newline);
    TreeSame(t);
  }

  /** An attribute whose name is one character beyond ASCII comes back with a name of one byte. */
  lemma BeyondAsciiLost(table: seq<Entity>, t: Tree, c: int, wrap: int, col: int)
    requires Standard(table) && 0x80 <= c && Legal(c) && c % 256 != 0 && t == Elem([97], [Attr(Encode(c), Some([]))], [])
    ensures Normal(t) && !AsciiStarts(t) && LegalTable(table)
    ensures Load(table, Bytes(t, wrap, col)) == Document(Elem([97], [Attr([c % 256], Some([]))], []))
  {
    hide *;
    OneNamed(t, c);
    assert Bytes(t, wrap, col) + [] == Bytes(t, wrap, col);
    LoadGives(table, t, wrap, col, false);
  }

  lemma OneNamed(t: Tree, c: int)
    requires 0x80 <= c && Legal(c) && c % 256 != 0 && t == Elem([97], [Attr(Encode(c), Some([]))], [])
    ensures Normal(t) && !AsciiStarts(t) && Fits(Stored(t))
    ensures Stored(t) == Elem([97], [Attr([c % 256], Some([]))], [])
  {
    assert EncodeAll([c]) == Encode(c) && EncodeAll([97]) == [97] by { assert [c][1..] == [] && [97][1..] == []; }
    assert AttrChars([c]) && NameChars([97]) && AllLegal([97]) && AllLegal([c]) && AllLegal([]) && EncodeAll([]) == [];
    assert NormalAttrName(Encode(c)) && NormalName([97]) && NormalText([]);
    StoredNameIs([c]);
    assert [c % 256] + Said([]) == [c % 256] && CStr([c % 256]) == [c % 256];
    assert StoredAttrs(t.attrs) == [Attr([c % 256], Some([]))];
  }
}
