/**
  Reading any spelling of a document: the loader builds what is spelled, and refuses
  a name given twice, a closing tag with another name and markup that has no place.
*/
module MxmlReading {
  import opened Basics
  import opened MxmlAttr
  import opened MxmlEntity
  import opened MxmlLoad
  import opened MxmlSpelling
  import opened MxmlTree
  import opened MxmlUtf8

  // ------------------------------------------------- parts of the input

  ghost predicate At(s: seq<byte>, pos: nat, x: seq<byte>) {
    pos + |x| <= |s| && s[pos..pos + |x|] == x
  }

  lemma AtSplit(s: seq<byte>, pos: nat, x: seq<byte>, y: seq<byte>)
    requires At(s, pos, x + y)
    ensures At(s, pos, x) && At(s, pos + |x|, y) && pos + |x| + |y| <= |s|
  {
    var w := s[pos..pos + |x + y|];
    assert s[pos..pos + |x|] == w[..|x|] && s[pos + |x|..pos + |x| + |y|] == w[|x|..];
  }

  lemma Whole(s: seq<byte>)
    ensures At(s, 0, s)
  {
  }

  lemma AtBound(s: seq<byte>, pos: nat, x: seq<byte>)
    requires At(s, pos, x)
    ensures pos + |x| <= |s|
  {
  }

  lemma AsciiAt(s: seq<byte>, pos: nat, b: byte)
    requires At(s, pos, [b]) && Legal(b) && b < 0x80
    ensures pos < |s| && s[pos] == b && GetC(s, pos) == Got(b, pos + 1)
  {
    assert s[pos] == s[pos..pos + 1][0];
  }

  /** The ASCII characters at the head of a text. */
  lemma AsciiFirst(s: seq<byte>, pos: nat, b: byte, rest: seq<byte>)
    requires At(s, pos, [b] + rest) && Legal(b) && b < 0x80
    ensures pos < |s| && GetC(s, pos) == Got(b, pos + 1) && At(s, pos + 1, rest)
  {
    hide GetC;
    AtSplit(s, pos, [b], rest);
    AsciiAt(s, pos, b);
  }

  lemma CharAt(s: seq<byte>, pos: nat, c: int)
    requires Legal(c) && At(s, pos, Encode(c))
    ensures pos <= |s| && GetC(s, pos) == Got(c, pos + |Encode(c)|)
  {
    WriteThenRead(c, s, pos);
  }

  // ------------------------------------------------------- characters

  lemma {:induction false} EntityRead(s: seq<byte>, pos: nat, name: seq<byte>, acc: seq<byte>)
    requires At(s, pos, name + [SEMICOLON]) && |acc| + |name| <= 63
    requires forall i :: 0 <= i < |name| ==> IsAlnum(name[i])
    ensures pos <= |s| && EntityText(s, pos, acc) == Part(SEMICOLON, pos + |name| + 1, acc + name)
    decreases |name|
  {
    hide GetC, At;
    AtBound(s, pos, name + [SEMICOLON]);
    if |name| == 0 {
      assert name + [SEMICOLON] == [SEMICOLON] && acc + name == acc;
      AsciiAt(s, pos, SEMICOLON);
    } else {
      assert name + [SEMICOLON] == [name[0]] + (name[1..] + [SEMICOLON]);
      AsciiFirst(s, pos, name[0], name[1..] + [SEMICOLON]);
      EntityRead(s, pos + 1, name[1..], acc + [name[0]]);
      assert acc + [name[0]] + name[1..] == acc + name;
    }
  }

  /** The spelling of one character ends at `end`, and nothing in it reads as the end of its place. */
  ghost predicate IsRead(table: seq<Entity>, s: seq<byte>, pos: nat, p: Place, x: Sign, end: nat)
    requires pos <= |s| && LegalTable(table)
  {
    var r := GetC(s, pos);
    && r.Got? && (if x.Raw? then r.ch == x.c && r.ch != AMP && Plain(p, x.c) else r.ch == AMP)
    && var d := Decoded(table, s, r.ch, r.pos); d.Part? && d.ch == x.c && d.pos == end
  }

  /** A character is read as it is or from its entity, from any entity the table leads to it. */
  lemma SignRead(table: seq<Entity>, s: seq<byte>, pos: nat, p: Place, x: Sign)
    requires LegalTable(table) && Fine(table, p, x) && At(s, pos, SignText(x))
    ensures pos + |SignText(x)| <= |s| && IsRead(table, s, pos, p, x, pos + |SignText(x)|)
  {
    hide GetC, LegalTable, At, Encode, LookUp;
    AtBound(s, pos, SignText(x));
    if x.Raw? {
      CharAt(s, pos, x.c);
    } else {
      RefRead(table, s, pos, x.name, x.c);
    }
  }

  lemma RefRead(table: seq<Entity>, s: seq<byte>, pos: nat, name: seq<byte>, c: int)
    requires LegalTable(table) && Names(table, name, c) && At(s, pos, [AMP] + (name + [SEMICOLON]))
    ensures pos < |s| && GetC(s, pos) == Got(AMP, pos + 1)
    ensures GetEntity(table, s, pos + 1) == Part(c, pos + |name| + 2, name)
  {
    hide GetC, LegalTable, At, LookUp, EntityText;
    AsciiFirst(s, pos, AMP, name + [SEMICOLON]);
    EntityRead(s, pos + 1, name, []);
    assert [] + name == name;
  }

  lemma SignsFirst(table: seq<Entity>, p: Place, xs: seq<Sign>, acc: seq<byte>)
    requires |xs| > 0 && AllFine(table, p, xs)
    ensures Fine(table, p, xs[0]) && AllFine(table, p, xs[1..])
    ensures SignsText(xs) == SignText(xs[0]) + SignsText(xs[1..])
    ensures acc + Said(xs) == acc + Encode(xs[0].c) + Said(xs[1..])
  {
    hide Fine, SignText, Encode;
  }

  lemma SignsNone(xs: seq<Sign>, acc: seq<byte>)
    requires |xs| == 0
    ensures SignsText(xs) == [] && Said(xs) == [] && acc + Said(xs) == acc
  {
  }

  // ------------------------------------------- values and attribute names

  /** A value is read up to its quote, whichever that is. */
  lemma {:induction false} ValueRead(table: seq<Entity>, s: seq<byte>, pos: nat, xs: seq<Sign>, acc: seq<byte>, quote: byte)
    requires LegalTable(table) && IsQuote(quote) && AllFine(table, InQuotes(quote), xs)
    requires At(s, pos, SignsText(xs) + [quote])
    ensures pos + |SignsText(xs)| + 1 <= |s|
    ensures QuotedValue(table, s, pos, acc, quote) == Part(quote, pos + |SignsText(xs)| + 1, acc + Said(xs))
    decreases |xs|
  {
    hide GetC, LegalTable, At, SignsText, SignText, Said, AllFine, Fine, Encode, Decoded, QuotedValue;
    AtSplit(s, pos, SignsText(xs), [quote]);
    if |xs| == 0 {
      SignsNone(xs, acc);
      AsciiAt(s, pos, quote);
      QuotedEnds(table, s, pos, acc, quote);
    } else {
      SignsFirst(table, InQuotes(quote), xs, acc);
      var x, more := xs[0], SignsText(xs[1..]) + [quote];
      assert SignsText(xs) + [quote] == SignText(x) + more;
      AtSplit(s, pos, SignText(x), more);
      SignRead(table, s, pos, InQuotes(quote), x);
      QuotedStep(table, s, pos, x, acc, quote);
      ValueRead(table, s, pos + |SignText(x)|, xs[1..], acc + Encode(x.c), quote);
    }
  }

  lemma QuotedEnds(table: seq<Entity>, s: seq<byte>, pos: nat, acc: seq<byte>, quote: byte)
    requires pos < |s| && LegalTable(table) && GetC(s, pos) == Got(quote, pos + 1)
    ensures QuotedValue(table, s, pos, acc, quote) == Part(quote, pos + 1, acc)
  {
    hide GetC;
  }

  lemma QuotedStep(table: seq<Entity>, s: seq<byte>, pos: nat, x: Sign, acc: seq<byte>, quote: byte)
    requires pos + |SignText(x)| <= |s| && LegalTable(table) && IsQuote(quote)
    requires IsRead(table, s, pos, InQuotes(quote), x, pos + |SignText(x)|)
    ensures QuotedValue(table, s, pos, acc, quote)
         == QuotedValue(table, s, pos + |SignText(x)|, acc + Encode(x.c), quote)
  {
    hide GetC, Decoded, SignText, Encode;
  }

  /** An unquoted name, or the rest of a value without quotes, is read up to the character that ends it. */
  lemma {:induction false} WordRead(table: seq<Entity>, s: seq<byte>, pos: nat, xs: seq<Sign>, acc: seq<byte>, inName: bool)
    requires LegalTable(table) && AllFine(table, if inName then InAttrName else InBare, xs) && At(s, pos, SignsText(xs))
    requires pos + |SignsText(xs)| <= |s|
    requires var r := GetC(s, pos + |SignsText(xs)|); r.Got? && WordStops(r.ch, inName)
    ensures var r := GetC(s, pos + |SignsText(xs)|);
      Word(table, s, pos, acc, inName) == Part(r.ch, r.pos, acc + Said(xs))
    decreases |xs|
  {
    hide GetC, LegalTable, At, SignsText, SignText, Said, AllFine, Fine, Encode, Decoded, Word, WordStops;
    if |xs| == 0 {
      SignsNone(xs, acc);
      WordEnds(table, s, pos, acc, inName);
    } else {
      var p := if inName then InAttrName else InBare;
      SignsFirst(table, p, xs, acc);
      var x := xs[0];
      AtSplit(s, pos, SignText(x), SignsText(xs[1..]));
      SignRead(table, s, pos, p, x);
      WordStep(table, s, pos, x, acc, inName);
      WordRead(table, s, pos + |SignText(x)|, xs[1..], acc + Encode(x.c), inName);
    }
  }

  lemma WordEnds(table: seq<Entity>, s: seq<byte>, pos: nat, acc: seq<byte>, inName: bool)
    requires pos <= |s| && LegalTable(table) && GetC(s, pos).Got? && WordStops(GetC(s, pos).ch, inName)
    ensures Word(table, s, pos, acc, inName) == Part(GetC(s, pos).ch, GetC(s, pos).pos, acc)
  {
    hide GetC;
  }

  lemma WordStep(table: seq<Entity>, s: seq<byte>, pos: nat, x: Sign, acc: seq<byte>, inName: bool)
    requires pos + |SignText(x)| <= |s| && LegalTable(table)
    requires IsRead(table, s, pos, if inName then InAttrName else InBare, x, pos + |SignText(x)|)
    ensures Word(table, s, pos, acc, inName) == Word(table, s, pos + |SignText(x)|, acc + Encode(x.c), inName)
  {
    hide GetC, Decoded, SignText, Encode;
  }

  // ------------------------------------------------------ white space

  /** White space, perhaps none, is skipped up to the character behind it. */
  lemma {:induction false} WhiteRead(s: seq<byte>, pos: nat, w: seq<byte>)
    requires At(s, pos, w) && White(w) && pos + |w| <= |s|
    requires var r := GetC(s, pos + |w|); r.Got? && !IsSpace(r.ch)
    ensures GetC(s, pos).Got?
    ensures w != [] ==> GetC(s, pos).ch == w[0]
    ensures var r, e := GetC(s, pos), GetC(s, pos + |w|); SkipSpace(s, r.pos, r.ch) == Part(e.ch, e.pos, [])
    decreases |w|
  {
    hide GetC, At;
    if |w| > 0 {
      assert w == [w[0]] + w[1..];
      AsciiFirst(s, pos, w[0], w[1..]);
      assert White(w[1..]);
      WhiteRead(s, pos + 1, w[1..]);
    }
  }

  /** Of an attribute list, too. */
  lemma {:induction false} GapRead(table: seq<Entity>, s: seq<byte>, pos: nat, w: seq<byte>, done: seq<Attr>)
    requires At(s, pos, w) && White(w) && LegalTable(table)
    ensures pos + |w| <= |s| && Attrs(table, s, pos, done) == Attrs(table, s, pos + |w|, done)
    decreases |w|
  {
    hide GetC, At, LegalTable, OneAttr;
    AtBound(s, pos, w);
    if |w| > 0 {
      assert w == [w[0]] + w[1..];
      AsciiFirst(s, pos, w[0], w[1..]);
      assert White(w[1..]);
      GapRead(table, s, pos + 1, w[1..], done);
    }
  }

  // ------------------------------------------------------- attributes

  /** What may stand behind a value without quotes, and behind a name in a tag. */
  predicate TagStops(c: int) {
    IsSpace(c) || c == SLASH || c == GT
  }

  ghost predicate StopsAt(s: seq<byte>, pos: nat) {
    pos < |s| && GetC(s, pos).Got? && TagStops(GetC(s, pos).ch)
  }

  /** A name is read up to the white space, or to the `=` or what stands in its place. */
  lemma NameRead(table: seq<Entity>, s: seq<byte>, pos: nat, first: int, more: seq<Sign>, before: seq<byte>, stop: byte)
    requires LegalTable(table) && Legal(first) && StartsName(first) && AllFine(table, InAttrName, more) && White(before)
    requires Legal(stop) && stop < 0x80 && !IsSpace(stop) && (before == [] ==> WordStops(stop, true))
    requires At(s, pos, Encode(first) + (SignsText(more) + (before + [stop])))
    ensures pos <= |s| && GetC(s, pos) == Got(first, pos + |Encode(first)|)
    ensures var n := AttrName(table, s, first, pos + |Encode(first)|);
      var end := pos + |Encode(first)| + |SignsText(more)| + |before| + 1;
      && end <= |s|
      && n.Part? && n.value == [first % 256] + Said(more)
      && SkipSpace(s, n.pos, n.ch) == Part(stop, end, [])
  {
    hide GetC, At, LegalTable, SignsText, Said, AllFine, Encode, Word, SkipSpace, White;
    var e, xs, w := Encode(first), SignsText(more), before;
    AtSplit(s, pos, e, xs + (w + [stop]));
    AtSplit(s, pos + |e|, xs, w + [stop]);
    AtSplit(s, pos + |e| + |xs|, w, [stop]);
    CharAt(s, pos, first);
    AsciiAt(s, pos + |e| + |xs| + |w|, stop);
    WhiteRead(s, pos + |e| + |xs|, w);
    WhiteFirst(w);
    WordRead(table, s, pos + |e|, more, [first % 256], true);
  }

  lemma WhiteFirst(w: seq<byte>)
    requires White(w)
    ensures w != [] ==> IsSpace(w[0])
  {
  }

  /** Behind `=` and white space, a value in quotes of either kind, or without. */
  lemma AttrValueRead(table: seq<Entity>, s: seq<byte>, pos: nat, w: seq<byte>, v: Value)
    requires LegalTable(table) && White(w) && ValueFine(table, v) && At(s, pos, w + ValuesText(v))
    requires v.Bare? ==> StopsAt(s, pos + |w| + |ValuesText(v)|)
    ensures var end := pos + |w| + |ValuesText(v)|;
      && end <= |s|
      && AttrValue(table, s, pos)
         == if v.Quoted? then Part(v.quote, end, Said(v.signs))
            else Part(GetC(s, end).ch, GetC(s, end).pos, [v.first % 256] + Said(v.signs))
  {
    hide GetC, At, LegalTable, SignsText, Said, AllFine, Encode, Word, QuotedValue, SkipSpace, White;
    AtSplit(s, pos, w, ValuesText(v));
    var at := pos + |w|;
    if v.Quoted? {
      var xs := SignsText(v.signs);
      AsciiFirst(s, at, v.quote, xs + [v.quote]);
      ValueRead(table, s, at + 1, v.signs, [], v.quote);
      assert [] + Said(v.signs) == Said(v.signs);
    } else {
      AtSplit(s, at, Encode(v.first), SignsText(v.signs));
      CharAt(s, at, v.first);
      WordRead(table, s, at + |Encode(v.first)|, v.signs, [v.first % 256], false);
    }
    WhiteRead(s, pos, w);
    SkipFirst(s, pos);
  }

  lemma SkipFirst(s: seq<byte>, pos: nat)
    requires pos <= |s| && GetC(s, pos).Got?
    ensures SkipSpace(s, pos, SPACE) == SkipSpace(s, GetC(s, pos).pos, GetC(s, pos).ch)
  {
    hide GetC;
  }

  /** Text without NUL is a C string as it stands. */
  lemma {:induction false} SaidWhole(xs: seq<Sign>)
    ensures CStr(Said(xs)) == Said(xs)
  {
    if |xs| > 0 {
      SaidWhole(xs[1..]);
      NoNulIn(xs[0].c);
      CStrJoin(Encode(xs[0].c), Said(xs[1..]));
    }
  }

  lemma NoNulIn(c: int)
    requires Legal(c)
    ensures forall i :: 0 <= i < |Encode(c)| ==> Encode(c)[i] != 0
  {
  }

  lemma {:induction false} CStrJoin(a: seq<byte>, b: seq<byte>)
    requires forall i :: 0 <= i < |a| ==> a[i] != 0
    ensures CStr(a + b) == a + CStr(b)
  {
    if |a| == 0 {
      assert a + b == b;
    } else {
      assert (a + b)[1..] == a[1..] + b;
      CStrJoin(a[1..], b);
    }
  }

  lemma {:induction false} CStrShort(s: seq<byte>)
    ensures |CStr(s)| <= |s|
  {
    if |s| > 0 && s[0] != 0 {
      CStrShort(s[1..]);
    }
  }

  /** The first character is kept exactly if it is ASCII. */
  lemma FirstKept(first: Char, more: seq<Sign>)
    ensures LowFirst(first, more) == Said([Raw(first)] + more) <==> first < 0x80
  {
    hide CStr, Encode;
    assert ([Raw(first)] + more)[1..] == more;
    var low := [first % 256] + Said(more);
    if first < 0x80 {
      EncodeOne(first);
      SaidWhole([Raw(first)] + more);
    } else {
      EncodeMany(first);
      CStrShort(low);
    }
  }

  lemma EncodeOne(c: int)
    requires 0 <= c < 0x80
    ensures Encode(c) == [c] && c % 256 == c
  {
  }

  lemma EncodeMany(c: int)
    requires 0x80 <= c <= 0x1F_FFFF
    ensures |Encode(c)| > 1
  {
  }

  /** One attribute, whatever the quotes and the white space: it is added, or refused if its name is there. */
  lemma GivenRead(table: seq<Entity>, s: seq<byte>, pos: nat, a: Given, done: seq<Attr>)
    requires LegalTable(table) && GivenFine(table, a) && At(s, pos, GivenText(a))
    requires a.value.Bare? ==> StopsAt(s, pos + |GivenText(a)|)
    ensures pos + |GivenText(a)| <= |s|
    ensures var added := GivenAttr(a);
      Attrs(table, s, pos, done)
      == if GetAttr(done, added.name).Some? then Bad
         else Attrs(table, s, pos + |GivenText(a)|, SetAttr(done, added.name, added.value))
  {
    hide GetC, At, LegalTable, SignsText, Said, AllFine, Encode, AttrValue, AttrName, SkipSpace, White, ValuesText, CStr, Attrs,
      GetAttr, SetAttr, OneAttr;
    GivenParts(s, pos, a);
    NameRead(table, s, pos, a.first, a.more, a.before, EQUALS);
    var e := pos + |Encode(a.first)| + |SignsText(a.more)| + |a.before| + 1;
    AttrValueRead(table, s, e, a.after, a.value);
    var p := pos + |Encode(a.first)|;
    OneRead(table, s, p, a, done, e, pos + |GivenText(a)|);
    AttrsStep(table, s, pos, a, done, pos + |GivenText(a)|);
  }

  lemma GivenParts(s: seq<byte>, pos: nat, a: Given)
    requires At(s, pos, GivenText(a))
    ensures At(s, pos, Encode(a.first) + (SignsText(a.more) + (a.before + [EQUALS])))
    ensures var e := pos + |Encode(a.first)| + |SignsText(a.more)| + |a.before| + 1;
      && At(s, e, a.after + ValuesText(a.value))
      && pos + |GivenText(a)| == e + |a.after| + |ValuesText(a.value)|
  {
    hide At, SignsText, Encode, ValuesText;
    var f := Encode(a.first) + (SignsText(a.more) + (a.before + [EQUALS]));
    var g := a.after + ValuesText(a.value);
    assert GivenText(a) == f + g;
    AtSplit(s, pos, f, g);
  }

  lemma OneRead(table: seq<Entity>, s: seq<byte>, p: nat, a: Given, done: seq<Attr>, e: nat, end: nat)
    requires LegalTable(table) && p <= |s| && e <= |s| && end <= |s|
    requires a.value.Bare? ==> StopsAt(s, end)
    requires var n := AttrName(table, s, a.first, p);
      && n.Part? && n.value == [a.first % 256] + Said(a.more)
      && SkipSpace(s, n.pos, n.ch) == Part(EQUALS, e, [])
    requires var v := a.value;
      AttrValue(table, s, e)
      == if v.Quoted? then Part(v.quote, end, Said(v.signs)) else Part(GetC(s, end).ch, GetC(s, end).pos, [v.first % 256] + Said(v.signs))
    ensures var added, q := GivenAttr(a), GetC(s, end);
      OneAttr(table, s, a.first, p, done)
      == if GetAttr(done, added.name).Some? then Bad
         else Part(if a.value.Quoted? then a.value.quote else q.ch, if a.value.Quoted? then end else q.pos,
                   SetAttr(done, added.name, added.value))
  {
    hide GetC, LegalTable, Said, AttrValue, AttrName, SkipSpace, CStr, GetAttr, SetAttr;
    if a.value.Quoted? {
      SaidWhole(a.value.signs);
    }
  }

  /** Behind one attribute the list goes on, whether or not the character behind the value has been read. */
  lemma AttrsStep(table: seq<Entity>, s: seq<byte>, pos: nat, a: Given, done: seq<Attr>, end: nat)
    requires LegalTable(table) && pos <= |s| && end <= |s| && StartsName(a.first)
    requires a.value.Quoted? ==> IsQuote(a.value.quote)
    requires a.value.Bare? ==> StopsAt(s, end)
    requires GetC(s, pos) == Got(a.first, pos + |Encode(a.first)|) && pos + |Encode(a.first)| <= |s|
    requires var q, one := GetC(s, end), OneAttr(table, s, a.first, pos + |Encode(a.first)|, done);
      || one.Bad?
      || (one.Part? && if a.value.Quoted? then one.ch == a.value.quote && one.pos == end else one.ch == q.ch && one.pos == q.pos)
    ensures var one := OneAttr(table, s, a.first, pos + |Encode(a.first)|, done);
      Attrs(table, s, pos, done) == if one.Bad? then Bad else Attrs(table, s, end, one.value)
  {
    hide GetC, LegalTable, OneAttr, EndTag, Encode;
  }

  /** The attributes read so far: all with a value, and with different names. */
  ghost predicate Gathered(done: seq<Attr>) {
    DistinctNames(done) && forall i :: 0 <= i < |done| ==> done[i].value.Some?
  }

  /** A new name is added at the end, and one that is there already is there twice. */
  lemma GatherOne(done: seq<Attr>, a: Attr, more: seq<Attr>)
    requires Gathered(done) && a.value.Some?
    ensures if GetAttr(done, a.name).Some? then !DistinctNames(done + ([a] + more))
            else SetAttr(done, a.name, a.value) == done + [a] && Gathered(done + [a])
  {
    hide AttrAt;
    var all, k := done + ([a] + more), AttrAt(done, a.name);
    if k < |done| {
      assert all[k].name == a.name && all[|done|] == a;
    }
  }

  lemma GatheredDistinct(done: seq<Attr>)
    requires Gathered(done)
    ensures DistinctNames(done)
  {
  }

  /** The end of a tag. */
  lemma TagEnds(table: seq<Entity>, s: seq<byte>, pos: nat, done: seq<Attr>, short: bool)
    requires LegalTable(table) && At(s, pos, if short then [SLASH, GT] else [GT])
    ensures pos < |s| && StopsAt(s, pos)
    ensures Attrs(table, s, pos, done) == if short then Part(SLASH, pos + 2, done) else Part(GT, pos + 1, done)
  {
    hide GetC, LegalTable, OneAttr, At;
    if short {
      assert [SLASH, GT] == [SLASH] + [GT];
      AsciiFirst(s, pos, SLASH, [GT]);
      AsciiAt(s, pos + 1, GT);
    } else {
      AsciiAt(s, pos, GT);
    }
  }

  lemma SpaceStops(s: seq<byte>, pos: nat, w: seq<byte>)
    requires White(w) && w != [] && At(s, pos, w)
    ensures StopsAt(s, pos)
  {
    hide GetC, At;
    assert w == [w[0]] + w[1..];
    AsciiFirst(s, pos, w[0], w[1..]);
  }

  /** The end of a tag starts with white space, `/` or `>`. */
  lemma EndStops(table: seq<Entity>, s: seq<byte>, pos: nat, end: seq<byte>, short: bool)
    requires LegalTable(table) && White(end) && At(s, pos, end + if short then [SLASH, GT] else [GT])
    ensures StopsAt(s, pos)
  {
    hide GetC, LegalTable, At, Attrs;
    var last := if short then [SLASH, GT] else [GT];
    AtSplit(s, pos, end, last);
    if end != [] {
      SpaceStops(s, pos, end);
    } else {
      TagEnds(table, s, pos, [], short);
    }
  }

  /** Where no quote stands in front, so do the attributes of a tag. */
  lemma RestStops(table: seq<Entity>, s: seq<byte>, pos: nat, attrs: seq<Given>, more: seq<byte>)
    requires LegalTable(table) && GivenAllFine(table, attrs, false) && At(s, pos, GivensText(attrs) + more)
    requires attrs == [] ==> StopsAt(s, pos)
    ensures StopsAt(s, pos)
  {
    hide GetC, LegalTable, At, GivenText, GivenFine, StopsAt, White;
    if |attrs| > 0 {
      var rest := GivenText(attrs[0]) + GivensText(attrs[1..]);
      GapWhite(table, attrs[0]);
      assert GivensText(attrs) + more == attrs[0].gap + (rest + more);
      AtSplit(s, pos, attrs[0].gap, rest + more);
      SpaceStops(s, pos, attrs[0].gap);
    }
  }

  lemma GapWhite(table: seq<Entity>, a: Given)
    requires GivenFine(table, a)
    ensures White(a.gap)
  {
  }

  /** What a tag's attributes come to, where the tag ends at `end`. */
  ghost function TagRest(attrs: seq<Attr>, short: bool, end: nat): Part<seq<Attr>> {
    if DistinctNames(attrs) then Part(if short then SLASH as int else GT, end, attrs) else Bad
  }

  /** An attribute without a value is refused. */
  lemma LoneRead(table: seq<Entity>, s: seq<byte>, pos: nat, a: Lone, done: seq<Attr>)
    requires LegalTable(table) && LoneFine(table, a) && At(s, pos, LoneText(a))
    ensures pos <= |s| && Attrs(table, s, pos, done) == Bad
  {
    hide GetC, At, LegalTable, SignsText, Said, AllFine, Encode, AttrValue, AttrName, SkipSpace, White, CStr, GetAttr, SetAttr, EndTag;
    var name := Encode(a.first) + (SignsText(a.more) + (a.before + [a.stop]));
    AtSplit(s, pos, a.gap, name);
    GapRead(table, s, pos, a.gap, done);
    NameRead(table, s, pos + |a.gap|, a.first, a.more, a.before, a.stop);
  }

  predicate EndsBare(attrs: seq<Given>) {
    |attrs| > 0 && attrs[|attrs| - 1].value.Bare?
  }

  /** All attributes of a tag are added, or refused where a name is given twice. */
  lemma {:induction false} GivensRead(table: seq<Entity>, s: seq<byte>, pos: nat, done: seq<Attr>, attrs: seq<Given>, quoted: bool)
    requires LegalTable(table) && Gathered(done) && GivenAllFine(table, attrs, quoted) && At(s, pos, GivensText(attrs))
    requires EndsBare(attrs) ==> StopsAt(s, pos + |GivensText(attrs)|)
    ensures pos + |GivensText(attrs)| <= |s|
    ensures var all := done + GivenAttrs(attrs);
      Attrs(table, s, pos, done) == if DistinctNames(all) then Attrs(table, s, pos + |GivensText(attrs)|, all) else Bad
    decreases |attrs|
  {
    hide *;
    AtBound(s, pos, GivensText(attrs));
    if |attrs| == 0 {
      GivensNone(attrs, done);
      GatheredDistinct(done);
    } else {
      var a, more := attrs[0], attrs[1..];
      var added := GivenAttr(a);
      GivensFirst(table, attrs, quoted, done);
      AtSplit(s, pos, a.gap, GivenText(a) + GivensText(more));
      AtSplit(s, pos + |a.gap|, GivenText(a), GivensText(more));
      var next := pos + |a.gap| + |GivenText(a)|;
      GapRead(table, s, pos, a.gap, done);
      assert next + |GivensText(more)| == pos + |GivensText(attrs)|;
      if a.value.Bare? {
        GivensNone(more, []);
        assert GivensText(more) + [] == GivensText(more);
        RestStops(table, s, next, more, []);
      }
      GivenRead(table, s, pos + |a.gap|, a, done);
      GatherOne(done, added, GivenAttrs(more));
      if GetAttr(done, added.name).None? {
        GivensRead(table, s, next, done + [added], more, a.value.Quoted?);
      }
    }
  }

  /** All attributes of a tag, and its end. */
  lemma RestRead(table: seq<Entity>, s: seq<byte>, pos: nat, attrs: seq<Given>, end: seq<byte>, short: bool)
    requires LegalTable(table) && GivenAllFine(table, attrs, false) && White(end) && At(s, pos, RestText(attrs, end, short))
    ensures pos + |RestText(attrs, end, short)| <= |s| && StopsAt(s, pos)
    ensures Attrs(table, s, pos, []) == TagRest(GivenAttrs(attrs), short, pos + |RestText(attrs, end, short)|)
  {
    hide GetC, LegalTable, At, GivensText, GivenAttrs, Attrs, StopsAt, White, DistinctNames, EndsBare, GivenAllFine, Gathered;
    var last := if short then [SLASH, GT] else [GT];
    AtSplit(s, pos, GivensText(attrs), end + last);
    var at, all := pos + |GivensText(attrs)|, GivenAttrs(attrs);
    EndStops(table, s, at, end, short);
    GivensNone(attrs, []);
    RestStops(table, s, pos, attrs, end + last);
    NoneGathered();
    GivensRead(table, s, pos, [], attrs, false);
    assert [] + all == all;
    AtSplit(s, at, end, last);
    GapRead(table, s, at, end, all);
    TagEnds(table, s, at + |end|, all, short);
  }

  lemma NoneGathered()
    ensures Gathered([])
  {
  }

  lemma GivensNone(attrs: seq<Given>, done: seq<Attr>)
    ensures |attrs| == 0 ==> attrs == [] && GivensText(attrs) == [] && done + GivenAttrs(attrs) == done
  {
  }

  lemma GivensFirst(table: seq<Entity>, attrs: seq<Given>, quoted: bool, done: seq<Attr>)
    requires |attrs| > 0 && GivenAllFine(table, attrs, quoted)
    ensures var a := attrs[0];
      && GivensText(attrs) == a.gap + (GivenText(a) + GivensText(attrs[1..]))
      && done + GivenAttrs(attrs) == done + ([GivenAttr(a)] + GivenAttrs(attrs[1..]))
      && done + GivenAttrs(attrs) == (done + [GivenAttr(a)]) + GivenAttrs(attrs[1..])
      && GivenAttr(a).value.Some? && GivenFine(table, a) && White(a.gap)
      && GivenAllFine(table, attrs[1..], a.value.Quoted?)
      && (a.value.Bare? && |attrs| == 1 ==> EndsBare(attrs)) && (EndsBare(attrs[1..]) ==> EndsBare(attrs))
  {
    hide GivenText, LowFirst, Said;
  }

  // ------------------------------------------------------------- tags

  /** A name read so far that will not be taken for a comment, a CDATA section or a processing instruction. */
  predicate Ordinary(acc: seq<byte>) {
    acc != [] && acc[0] != BANG && acc[0] != QUESTION
  }

  lemma OrdinaryMore(acc: seq<byte>, c: int)
    requires Legal(c) && if acc == [] then c != BANG && c != QUESTION else Ordinary(acc)
    ensures Ordinary(acc + Encode(c)) && !Special(acc + Encode(c))
  {
    var e := Encode(c);
    assert (acc + e)[0] == if acc == [] then e[0] else acc[0];
  }

  /** The name in a tag is gathered character by character. */
  lemma {:induction false} TagNameRun(table: seq<Entity>, s: seq<byte>, pos: nat, xs: seq<Sign>, acc: seq<byte>)
    requires LegalTable(table) && AllFine(table, InTag, xs) && At(s, pos, SignsText(xs))
    requires if acc == [] then |xs| > 0 ==> xs[0].c != BANG && xs[0].c != QUESTION else Ordinary(acc)
    ensures pos + |SignsText(xs)| <= |s|
    ensures TagName(table, s, pos, acc) == TagName(table, s, pos + |SignsText(xs)|, acc + Said(xs))
    decreases |xs|
  {
    hide GetC, LegalTable, At, SignsText, SignText, Said, AllFine, Fine, Encode, Decoded, TagName, Ordinary;
    AtBound(s, pos, SignsText(xs));
    if |xs| == 0 {
      SignsNone(xs, acc);
    } else {
      SignsFirst(table, InTag, xs, acc);
      var x := xs[0];
      AtSplit(s, pos, SignText(x), SignsText(xs[1..]));
      SignRead(table, s, pos, InTag, x);
      LegalChar(x);
      OrdinaryMore(acc, x.c);
      TagNameStep(table, s, pos, x, acc);
      assert acc + Encode(x.c) != [] by { assert |acc + Encode(x.c)| > 0; }
      TagNameRun(table, s, pos + |SignText(x)|, xs[1..], acc + Encode(x.c));
    }
  }

  /** It is read up to the character that ends it. */
  lemma TagNameRead(table: seq<Entity>, s: seq<byte>, pos: nat, xs: seq<Sign>, acc: seq<byte>)
    requires LegalTable(table) && AllFine(table, InTag, xs) && At(s, pos, SignsText(xs))
    requires if acc == [] then |xs| > 0 && xs[0].c != BANG && xs[0].c != QUESTION else Ordinary(acc)
    requires StopsAt(s, pos + |SignsText(xs)|)
    ensures var r := GetC(s, pos + |SignsText(xs)|);
      TagName(table, s, pos, acc) == Part(r.ch, r.pos, acc + Said(xs))
  {
    hide GetC, LegalTable, At, SignsText, Said, AllFine, TagName, StopsAt;
    TagNameRun(table, s, pos, xs, acc);
    if acc == [] {
      assert acc + Said(xs) == Said(xs);
      SaidSome(xs);
    }
    TagNameEnds(table, s, pos + |SignsText(xs)|, acc + Said(xs));
  }

  lemma SaidSome(xs: seq<Sign>)
    requires |xs| > 0
    ensures Said(xs) != []
  {
  }

  /** A character that no name holds is refused in one. */
  lemma TagNameRefuses(table: seq<Entity>, s: seq<byte>, pos: nat, acc: seq<byte>, c: int)
    requires LegalTable(table) && pos <= |s| && GetC(s, pos).Got? && GetC(s, pos).ch == c && NoName(c)
    ensures TagName(table, s, pos, acc) == Bad
  {
    hide GetC;
  }

  lemma LegalChar(x: Sign)
    ensures Legal(x.c)
  {
  }

  lemma TagNameEnds(table: seq<Entity>, s: seq<byte>, pos: nat, acc: seq<byte>)
    requires LegalTable(table) && StopsAt(s, pos) && acc != []
    ensures TagName(table, s, pos, acc) == Part(GetC(s, pos).ch, GetC(s, pos).pos, acc)
  {
    hide GetC;
  }

  lemma TagNameStep(table: seq<Entity>, s: seq<byte>, pos: nat, x: Sign, acc: seq<byte>)
    requires pos + |SignText(x)| <= |s| && LegalTable(table) && IsRead(table, s, pos, InTag, x, pos + |SignText(x)|)
    requires !Special(acc + Encode(x.c))
    ensures TagName(table, s, pos, acc) == TagName(table, s, pos + |SignText(x)|, acc + Encode(x.c))
  {
    hide GetC, GetEntity, SignText, Encode, Special;
  }

  // ----------------------------------------------------------- rounds

  lemma RunGoes(table: seq<Entity>, s: seq<byte>, st: State, st': State)
    requires st.pos <= |s| && LegalTable(table) && GetC(s, st.pos).Got?
    requires var r := GetC(s, st.pos); Round(table, s, st, r.ch, r.pos) == Go(st')
    ensures st'.pos <= |s| && Run(table, s, st) == Run(table, s, st')
  {
    hide GetC, Round;
    var r := GetC(s, st.pos);
    RoundMoves(table, s, st, r.ch, r.pos);
  }

  lemma RunStops(table: seq<Entity>, s: seq<byte>, st: State, d: Loaded)
    requires st.pos <= |s| && LegalTable(table) && GetC(s, st.pos).Got?
    requires var r := GetC(s, st.pos); Round(table, s, st, r.ch, r.pos) == Stop(d)
    ensures Run(table, s, st) == d
  {
    hide GetC, Round;
    var r := GetC(s, st.pos);
    RoundMoves(table, s, st, r.ch, r.pos);
  }

  lemma RunEnds(table: seq<Entity>, s: seq<byte>, st: State)
    requires st.pos == |s| && LegalTable(table)
    ensures Run(table, s, st) == Ended(st)
  {
    EndOfString(s);
  }

  lemma MarkupRound(table: seq<Entity>, s: seq<byte>, st: State)
    requires st.buffer == [] && st.pos < |s| && LegalTable(table)
    ensures Round(table, s, st, LT, st.pos + 1) == Markup(table, s, st.(pos := st.pos + 1))
  {
    hide Markup;
  }

  /** Before markup, gathered text is as good as a node, or as nothing outside the root. */
  lemma FlushFirst(table: seq<Entity>, s: seq<byte>, st: State)
    requires LegalTable(table) && At(s, st.pos, [LT])
    ensures st.pos <= |s|
    ensures Run(table, s, st) == if st.buffer == [] then Run(table, s, st) else Run(table, s, Flushed(st))
  {
    hide GetC, Markup, LegalTable;
    AsciiAt(s, st.pos, LT);
    if st.buffer != [] {
      assert Round(table, s, st, LT, st.pos + 1) == Round(table, s, Flushed(st), LT, st.pos + 1);
    }
  }

  /** The loader after an opening tag that ends at `pos`. */
  function AfterOpen(st: State, name: seq<byte>, attrs: seq<Attr>, short: bool, pos: nat): State {
    if short then Placed(st.(pos := pos, buffer := []), Elem(name, attrs, []))
    else st.(pos := pos, buffer := [], open := st.open + [Open(name, attrs, [])], keep := true)
  }

  /** One round reads an opening tag, or refuses it: a second root, or an attribute given twice. */
  lemma OpenRound(table: seq<Entity>, s: seq<byte>, st: State, tag: Tag, short: bool)
    requires LegalTable(table) && TagFine(table, tag) && st.buffer == [] && At(s, st.pos, OpeningText(tag, short))
    ensures st.pos + |OpeningText(tag, short)| <= |s| && GetC(s, st.pos) == Got(LT, st.pos + 1)
    ensures var attrs := GivenAttrs(tag.attrs);
      Round(table, s, st, LT, st.pos + 1)
      == if (|st.open| == 0 && st.root.Some?) || !DistinctNames(attrs) then Stop(BadDocument)
         else Go(AfterOpen(st, Said(tag.name), attrs, short, st.pos + |OpeningText(tag, short)|))
  {
    hide GetC, LegalTable, At, SignsText, Said, RestText, Round, Opened, Markup, AfterOpen, Attrs, TagName, StopsAt, DistinctNames,
      GivenAttrs, GivenAllFine, White, AllFine;
    var name, rest := SignsText(tag.name), RestText(tag.attrs, tag.end, short);
    AtBound(s, st.pos, OpeningText(tag, short));
    AsciiFirst(s, st.pos, LT, name + rest);
    AtSplit(s, st.pos + 1, name, rest);
    var at := st.pos + 1 + |name|;
    var end := at + |rest|;
    RestRead(table, s, at, tag.attrs, tag.end, short);
    TagNameRead(table, s, st.pos + 1, tag.name, []);
    assert [] + Said(tag.name) == Said(tag.name);
    StopGot(s, at);
    MarkupRound(table, s, st);
    NameWhole(table, tag.name);
    var got := TagName(table, s, st.pos + 1, []);
    var st' := st.(pos := st.pos + 1);
    MarkupOpens(table, s, st', got);
    OpenedGoes(table, s, st', got, at, GivenAttrs(tag.attrs), short, end);
    AfterOpenAt(st, st', Said(tag.name), GivenAttrs(tag.attrs), short, end);
  }

  /** A tag with an attribute that has no value is refused. */
  lemma LoneRound(table: seq<Entity>, s: seq<byte>, st: State, name: seq<Sign>, attrs: seq<Given>, a: Lone)
    requires LegalTable(table) && NameFine(table, name) && GivenAllFine(table, attrs, false) && LoneFine(table, a)
    requires (a.gap == [] ==> attrs != [] && !EndsBare(attrs)) && st.buffer == []
    requires At(s, st.pos, [LT] + (SignsText(name) + (GivensText(attrs) + LoneText(a))))
    ensures st.pos < |s| && GetC(s, st.pos) == Got(LT, st.pos + 1)
    ensures Round(table, s, st, LT, st.pos + 1) == Stop(BadDocument)
  {
    hide GetC, LegalTable, At, SignsText, Said, Round, Opened, Markup, Attrs, TagName, StopsAt, DistinctNames, GivensText,
      GivenAttrs, GivenAllFine, White, AllFine, Gathered, LoneText, LoneFine;
    AsciiFirst(s, st.pos, LT, SignsText(name) + (GivensText(attrs) + LoneText(a)));
    AtSplit(s, st.pos + 1, SignsText(name), GivensText(attrs) + LoneText(a));
    var at := st.pos + 1 + |SignsText(name)|;
    AtSplit(s, at, GivensText(attrs), LoneText(a));
    var end := at + |GivensText(attrs)|;
    GivensNone(attrs, []);
    LoneStops(table, s, end, a);
    RestStops(table, s, at, attrs, LoneText(a));
    TagNameRead(table, s, st.pos + 1, name, []);
    assert [] + Said(name) == Said(name);
    NoneGathered();
    GivensRead(table, s, at, [], attrs, false);
    LoneRead(table, s, end, a, [] + GivenAttrs(attrs));
    MarkupRound(table, s, st);
    NameWhole(table, name);
    var got := TagName(table, s, st.pos + 1, []);
    var st' := st.(pos := st.pos + 1);
    StopGot(s, at);
    MarkupOpens(table, s, st', got);
    OpenedBad(table, s, st', got, at);
  }

  lemma LoneStops(table: seq<Entity>, s: seq<byte>, pos: nat, a: Lone)
    requires LoneFine(table, a) && At(s, pos, LoneText(a))
    ensures a.gap != [] ==> StopsAt(s, pos)
  {
    hide At, AllFine, SignsText, GetC, Encode;
    if a.gap != [] {
      AtSplit(s, pos, a.gap, Encode(a.first) + (SignsText(a.more) + (a.before + [a.stop])));
      SpaceStops(s, pos, a.gap);
    }
  }

  lemma OpenedBad(table: seq<Entity>, s: seq<byte>, st: State, name: Part<seq<byte>>, at: nat)
    requires LegalTable(table) && at < |s| && GetC(s, at).Got? && TagStops(GetC(s, at).ch)
    requires name.Part? && name.ch == GetC(s, at).ch && name.pos == GetC(s, at).pos
    requires Attrs(table, s, at, []) == Bad
    ensures Opened(table, s, st, name) == Stop(BadDocument)
  {
    hide GetC, LegalTable, OneAttr, EndTag, Placed, CStr;
    AttrsAtStop(table, s, at);
  }

  /** A tag whose name has a character that no name holds is refused. */
  lemma NoNameRound(table: seq<Entity>, s: seq<byte>, st: State, name: seq<Sign>, c: int)
    requires LegalTable(table) && AllFine(table, InTag, name) && (name == [] || NameFine(table, name)) && st.buffer == []
    requires Legal(c) && NoName(c) && At(s, st.pos, [LT] + (SignsText(name) + Encode(c)))
    ensures st.pos < |s| && GetC(s, st.pos) == Got(LT, st.pos + 1)
    ensures Round(table, s, st, LT, st.pos + 1) == Stop(BadDocument)
  {
    hide GetC, LegalTable, At, SignsText, Said, Round, TagName, AllFine, Opened, Closed, NoName;
    AsciiFirst(s, st.pos, LT, SignsText(name) + Encode(c));
    AtSplit(s, st.pos + 1, SignsText(name), Encode(c));
    TagNameRun(table, s, st.pos + 1, name, []);
    CharAt(s, st.pos + 1 + |SignsText(name)|, c);
    TagNameRefuses(table, s, st.pos + 1 + |SignsText(name)|, [] + Said(name), c);
    MarkupRound(table, s, st);
  }

  lemma AfterOpenAt(st: State, st': State, name: seq<byte>, attrs: seq<Attr>, short: bool, pos: nat)
    requires st' == st.(pos := st'.pos)
    ensures AfterOpen(st', name, attrs, short, pos) == AfterOpen(st, name, attrs, short, pos)
  {
    hide Placed;
  }

  lemma StopGot(s: seq<byte>, pos: nat)
    requires StopsAt(s, pos)
    ensures pos < |s| && GetC(s, pos).Got? && TagStops(GetC(s, pos).ch)
  {
  }

  /** A proper name opens and closes an ordinary element, and is the C string it looks like. */
  lemma NameWhole(table: seq<Entity>, xs: seq<Sign>)
    requires NameFine(table, xs)
    ensures var n := Said(xs); Ordinary(n) && Head(n) != SLASH && CStr(n) == n
  {
    SaidWhole(xs);
    LegalChar(xs[0]);
    FirstByte(xs[0].c, Said(xs[1..]));
  }

  lemma FirstByte(c: int, more: seq<byte>)
    requires Legal(c)
    ensures var n := Encode(c) + more; |n| > 0 && if c < 0x80 then n[0] == c else n[0] >= 0x80
  {
  }

  lemma MarkupOpens(table: seq<Entity>, s: seq<byte>, st: State, name: Part<seq<byte>>)
    requires st.pos <= |s| && LegalTable(table)
    requires name == TagName(table, s, st.pos, []) && name.Part? && Ordinary(name.value) && Head(name.value) != SLASH
    ensures Markup(table, s, st) == Opened(table, s, st, name)
  {
    hide TagName, Opened, Closed;
  }

  lemma MarkupCloses(table: seq<Entity>, s: seq<byte>, st: State, name: Part<seq<byte>>)
    requires st.pos <= |s| && LegalTable(table)
    requires name == TagName(table, s, st.pos, []) && name.Part? && Head(name.value) == SLASH
    ensures |name.value| > 0 && Markup(table, s, st) == Closed(s, st, name)
  {
    hide TagName, Opened, Closed;
  }

  lemma OpenedGoes(table: seq<Entity>, s: seq<byte>, st: State, name: Part<seq<byte>>, at: nat, attrs: seq<Attr>, short: bool, end: nat)
    requires LegalTable(table) && at < |s| && GetC(s, at).Got? && TagStops(GetC(s, at).ch)
    requires name.Part? && name.ch == GetC(s, at).ch && name.pos == GetC(s, at).pos && st.buffer == [] && CStr(name.value) == name.value
    requires Attrs(table, s, at, []) == TagRest(attrs, short, end)
    ensures Opened(table, s, st, name)
         == if (|st.open| == 0 && st.root.Some?) || !DistinctNames(attrs) then Stop(BadDocument)
            else Go(AfterOpen(st, name.value, attrs, short, end))
  {
    hide GetC, LegalTable, OneAttr, EndTag, Placed, CStr, DistinctNames;
    AttrsAtStop(table, s, at);
  }

  /** Behind a name in a tag, white space, `/` and `>` mean what they mean among attributes. */
  lemma AttrsAtStop(table: seq<Entity>, s: seq<byte>, at: nat)
    requires LegalTable(table) && at < |s| && GetC(s, at).Got? && TagStops(GetC(s, at).ch)
    ensures var r := GetC(s, at);
      Attrs(table, s, at, [])
      == if IsSpace(r.ch) then Attrs(table, s, r.pos, []) else if r.ch == SLASH then EndTag(s, SLASH, r.pos, []) else Part(r.ch, r.pos, [])
  {
    hide GetC, LegalTable, OneAttr, EndTag;
  }

  /** The loader after the current element has been closed by a tag that ends at `pos`. */
  function AfterClose(st: State, pos: nat): State
    requires |st.open| > 0
  {
    var o := st.open[|st.open| - 1];
    Placed(st.(pos := pos, open := st.open[..|st.open| - 1]), Elem(o.name, o.attrs, o.kids))
  }

  /** One round reads a closing tag: it closes the current element if it has its name, and is refused if it has not. */
  lemma CloseRound(table: seq<Entity>, s: seq<byte>, st: State, xs: seq<Sign>, space: seq<byte>)
    requires LegalTable(table) && AllFine(table, InTag, xs) && White(space) && st.buffer == []
    requires At(s, st.pos, ClosingText(xs, space))
    ensures st.pos + |ClosingText(xs, space)| <= |s| && GetC(s, st.pos) == Got(LT, st.pos + 1)
    ensures Round(table, s, st, LT, st.pos + 1)
         == if |st.open| == 0 || st.open[|st.open| - 1].name != Said(xs) then Stop(BadDocument)
            else Go(AfterClose(st, st.pos + |ClosingText(xs, space)|))
  {
    hide GetC, LegalTable, At, SignsText, Said, Round, Closed, Markup, TagName, StopsAt, White, AllFine, SkipTag, AfterClose;
    AtBound(s, st.pos, ClosingText(xs, space));
    var name := SignsText(xs);
    AsciiFirst(s, st.pos, LT, [SLASH] + (name + (space + [GT])));
    AsciiFirst(s, st.pos + 1, SLASH, name + (space + [GT]));
    AtSplit(s, st.pos + 2, name, space + [GT]);
    var at := st.pos + 2 + |name|;
    SpaceRead(s, at, space);
    StopGot(s, at);
    SlashFirst(table, s, st.pos + 1);
    TagNameRead(table, s, st.pos + 2, xs, [SLASH]);
    MarkupRound(table, s, st);
    SaidWhole(xs);
    var got := TagName(table, s, st.pos + 1, []);
    var st' := st.(pos := st.pos + 1);
    MarkupCloses(table, s, st', got);
    assert got.value[1..] == Said(xs);
    ClosedGoes(s, st', got, Said(xs), st.pos + |ClosingText(xs, space)|);
    AfterCloseAt(st, st', st.pos + |ClosingText(xs, space)|);
  }

  lemma AfterCloseAt(st: State, st': State, pos: nat)
    requires st' == st.(pos := st'.pos)
    ensures |st.open| > 0 ==> AfterClose(st', pos) == AfterClose(st, pos)
  {
    hide Placed;
  }

  /** White space in front of `>` */
  lemma {:induction false} SpaceRead(s: seq<byte>, pos: nat, space: seq<byte>)
    requires White(space) && At(s, pos, space + [GT])
    ensures StopsAt(s, pos)
    ensures SkipTag(s, GetC(s, pos).pos, GetC(s, pos).ch) == Part(GT, pos + |space| + 1, [])
    decreases |space|
  {
    hide GetC, At;
    if |space| == 0 {
      assert space + [GT] == [GT];
      AsciiAt(s, pos, GT);
    } else {
      assert space + [GT] == [space[0]] + (space[1..] + [GT]);
      AsciiFirst(s, pos, space[0], space[1..] + [GT]);
      assert White(space[1..]);
      SpaceRead(s, pos + 1, space[1..]);
    }
  }

  lemma SlashFirst(table: seq<Entity>, s: seq<byte>, pos: nat)
    requires pos < |s| && GetC(s, pos) == Got(SLASH, pos + 1) && LegalTable(table)
    ensures TagName(table, s, pos, []) == TagName(table, s, pos + 1, [SLASH])
  {
    hide GetC;
    assert Encode(SLASH) == [SLASH] && [] + [SLASH] == [SLASH];
  }

  lemma ClosedGoes(s: seq<byte>, st: State, name: Part<seq<byte>>, bytes: seq<byte>, end: nat)
    requires name.Part? && name.pos <= |s| && |name.value| > 0 && name.value[1..] == bytes && CStr(bytes) == bytes && st.buffer == []
    requires SkipTag(s, name.pos, name.ch) == Part(GT, end, [])
    ensures Closed(s, st, name)
         == if |st.open| == 0 || st.open[|st.open| - 1].name != bytes then Stop(BadDocument) else Go(AfterClose(st, end))
  {
    hide Placed, GetC, CStr, SkipTag;
  }
}
