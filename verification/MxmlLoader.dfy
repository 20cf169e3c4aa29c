/**
  The loops of the loader: each computes the function of MxmlLoad that specifies it.
*/
module MxmlLoader {
  import opened Basics
  import opened MxmlAttr
  import opened MxmlEntity
  import opened MxmlLoad
  import opened MxmlTree
  import opened MxmlUtf8

  ghost predicate Usable(table: seq<Entity>) {
    |table| > 0 && Sorted(table) && LegalTable(table)
  }

  /** The bytes gathered in a buffer, as `strdup` would copy them. */
  method Gathered(buf: CharBuffer) returns (s: seq<byte>)
    requires buf.Valid()
    ensures s == buf.Contents()
  {
    s := buf.buffer[..buf.bufptr];
  }

  /** `mxml_get_entity` */
  method ReadEntity(table: seq<Entity>, s: seq<byte>, start: nat) returns (r: Part<seq<byte>>)
    requires Usable(table) && start <= |s|
    ensures r == GetEntity(table, s, start)
  {
    hide GetC, LegalTable, Sorted, LookUp;
    var pos, ch := start, EOF;
    var name: seq<byte> := [];
    while true
      invariant start <= pos <= |s| && EntityText(s, pos, name) == EntityText(s, start, [])
      decreases |s| - pos
    {
      match GetC(s, pos) {
        case Utf16 => return Unmodelled;
        case Eof(p) =>
          ch, pos := EOF, p;
          break;
        case Got(c, p) =>
          ch, pos := c, p;
          if ch > 126 || (!IsAlnum(ch) && ch != HASH) {
            break;
          } else if |name| < 63 {
            name := name + [ch];
          } else {
            break;
          }
      }
    }
    assert EntityText(s, start, []) == Part(ch, pos, name);
    if ch != SEMICOLON {
      return Bad;
    }
    if Head(name) == HASH {
      return Unmodelled;
    }
    var val := EntityValue(table, name);
    if val < 0 {
      KnownLegal(table, name);
      return Bad;
    }
    return Part(val, pos, name);
  }

  lemma KnownLegal(table: seq<Entity>, name: seq<byte>)
    requires LegalTable(table)
    ensures LookUp(table, name).Some? ==> Legal(LookUp(table, name).value)
  {
  }

  /** The character `ch` just read, or the one its entity stands for. */
  method Decode(table: seq<Entity>, s: seq<byte>, ch: int, pos: nat) returns (r: Part<seq<byte>>)
    requires Usable(table) && pos <= |s| && Legal(ch)
    ensures r == Decoded(table, s, ch, pos)
  {
    if ch == AMP {
      r := ReadEntity(table, s, pos);
    } else {
      r := Part(ch, pos, []);
    }
  }

  /** The loop that reads the name in a tag */
  method ReadTagName(table: seq<Entity>, s: seq<byte>, start: nat) returns (r: Part<seq<byte>>)
    requires Usable(table) && start <= |s|
    ensures r == TagName(table, s, start, [])
  {
    hide GetC, Usable, LegalTable, Encode, GetEntity, Special;
    UsableLegal(table);
    var buf := new CharBuffer();
    var pos := start;
    while true
      invariant buf.Valid() && fresh(buf) && fresh(buf.buffer)
      invariant start <= pos <= |s| && TagName(table, s, pos, buf.Contents()) == TagName(table, s, start, [])
      decreases |s| - pos
    {
      var acc := Gathered(buf);
      match GetC(s, pos) {
        case Utf16 => return Unmodelled;
        case Eof(p) => return Part(EOF, p, acc);
        case Got(ch, p) =>
          pos := p;
          if IsSpace(ch) || ch == GT || (ch == SLASH && buf.bufptr > 0) {
            return Part(ch, p, acc);
          } else if ch == LT {
            return Bad;
          } else if ch == AMP {
            var e := ReadEntity(table, s, p);
            if !e.Part? {
              return e;
            }
            buf.AddChar(e.ch);
            pos := e.pos;
          } else if ch < 48 && ch != BANG && ch != 45 && ch != 46 && ch != SLASH {
            return Bad;
          } else {
            buf.AddChar(ch);
            var more := Gathered(buf);
            if Special(more) {
              return Part(ch, p, more);
            }
          }
      }
    }
    assert false;
  }

  lemma UsableLegal(table: seq<Entity>)
    requires Usable(table)
    ensures LegalTable(table)
  {
  }

  /** `while (ch != '>' && ch != EOF)` */
  method SkipToEnd(s: seq<byte>, start: nat, first: int) returns (r: Part<seq<byte>>)
    requires start <= |s|
    ensures r == SkipTag(s, start, first)
  {
    hide GetC;
    var pos, ch := start, first;
    while ch != GT && ch != EOF
      invariant start <= pos <= |s| && SkipTag(s, pos, ch) == SkipTag(s, start, first)
      decreases |s| - pos, ch != EOF
    {
      match GetC(s, pos) {
        case Utf16 => return Unmodelled;
        case Eof(p) => ch, pos := EOF, p;
        case Got(c, p) => ch, pos := c, p;
      }
    }
    return Part(ch, pos, []);
  }

  /** `while (mxml_isspace(ch))` */
  method SkipBlanks(s: seq<byte>, start: nat, first: int) returns (r: Part<seq<byte>>)
    requires start <= |s|
    ensures r == SkipSpace(s, start, first)
  {
    hide GetC;
    var pos, ch := start, first;
    while IsSpace(ch)
      invariant start <= pos <= |s| && SkipSpace(s, pos, ch) == SkipSpace(s, start, first)
      decreases |s| - pos, IsSpace(ch)
    {
      match GetC(s, pos) {
        case Utf16 => return Unmodelled;
        case Eof(p) => ch, pos := EOF, p;
        case Got(c, p) => ch, pos := c, p;
      }
    }
    return Part(ch, pos, []);
  }

  /** An unquoted attribute name or value, whose first byte is in the buffer already. */
  method ReadWord(table: seq<Entity>, s: seq<byte>, start: nat, first: byte, inName: bool) returns (r: Part<seq<byte>>)
    requires Usable(table) && start <= |s|
    ensures r == Word(table, s, start, [first], inName)
  {
    hide GetC, Usable, LegalTable, Encode, Decoded;
    UsableLegal(table);
    var buf := new CharBuffer();
    buf.Put(first);
    assert buf.Contents() == [first];
    var pos := start;
    while true
      invariant buf.Valid() && fresh(buf) && fresh(buf.buffer)
      invariant start <= pos <= |s| && Word(table, s, pos, buf.Contents(), inName) == Word(table, s, start, [first], inName)
      decreases |s| - pos
    {
      var acc := Gathered(buf);
      match GetC(s, pos) {
        case Utf16 => return Unmodelled;
        case Eof(p) => return Part(EOF, p, acc);
        case Got(ch, p) =>
          if WordStops(ch, inName) {
            return Part(ch, p, acc);
          }
          var d := Decode(table, s, ch, p);
          if !d.Part? {
            return d;
          }
          buf.AddChar(d.ch);
          pos := d.pos;
      }
    }
    assert false;
  }

  /** A quoted attribute name, whose opening quote is in the buffer already. */
  method ReadQuotedWord(table: seq<Entity>, s: seq<byte>, start: nat, quote: byte) returns (r: Part<seq<byte>>)
    requires Usable(table) && start <= |s|
    ensures r == QuotedWord(table, s, start, [quote], quote)
  {
    hide GetC, Usable, LegalTable, Encode, Decoded;
    UsableLegal(table);
    var buf := new CharBuffer();
    buf.Put(quote);
    assert buf.Contents() == [quote];
    var pos := start;
    while true
      invariant buf.Valid() && fresh(buf) && fresh(buf.buffer)
      invariant start <= pos <= |s| && QuotedWord(table, s, pos, buf.Contents(), quote) == QuotedWord(table, s, start, [quote], quote)
      decreases |s| - pos
    {
      var acc := Gathered(buf);
      match GetC(s, pos) {
        case Utf16 => return Unmodelled;
        case Eof(p) => return Part(EOF, p, acc);
        case Got(ch, p) =>
          var d := Decode(table, s, ch, p);
          if !d.Part? {
            return d;
          }
          buf.AddChar(d.ch);
          pos := d.pos;
          if d.ch == quote {
            var word := Gathered(buf);
            return Part(d.ch, pos, word);
          }
      }
    }
    assert false;
  }

  /** A quoted attribute value, behind its opening quote. */
  method ReadQuotedValue(table: seq<Entity>, s: seq<byte>, start: nat, quote: int) returns (r: Part<seq<byte>>)
    requires Usable(table) && start <= |s|
    ensures r == QuotedValue(table, s, start, [], quote)
  {
    hide GetC, Usable, LegalTable, Encode, Decoded;
    UsableLegal(table);
    var buf := new CharBuffer();
    var pos := start;
    while true
      invariant buf.Valid() && fresh(buf) && fresh(buf.buffer)
      invariant start <= pos <= |s| && QuotedValue(table, s, pos, buf.Contents(), quote) == QuotedValue(table, s, start, [], quote)
      decreases |s| - pos
    {
      var acc := Gathered(buf);
      match GetC(s, pos) {
        case Utf16 => return Unmodelled;
        case Eof(p) => return Part(EOF, p, acc);
        case Got(ch, p) =>
          if ch == quote {
            return Part(ch, p, acc);
          }
          var d := Decode(table, s, ch, p);
          if !d.Part? {
            return d;
          }
          buf.AddChar(d.ch);
          pos := d.pos;
      }
    }
    assert false;
  }

  /** The name of an attribute, whose first character `ch` is stored as one byte. */
  method ReadAttrName(table: seq<Entity>, s: seq<byte>, ch: int, pos: nat) returns (r: Part<seq<byte>>)
    requires Usable(table) && pos <= |s| && Legal(ch)
    ensures r == AttrName(table, s, ch, pos)
  {
    hide QuotedWord, Word;
    if ch == QUOT || ch == APOS {
      r := ReadQuotedWord(table, s, pos, ch);
    } else {
      r := ReadWord(table, s, pos, ch % 256, true);
    }
  }

  method ReadAttrValue(table: seq<Entity>, s: seq<byte>, pos: nat) returns (r: Part<seq<byte>>)
    requires Usable(table) && pos <= |s|
    ensures r == AttrValue(table, s, pos)
  {
    hide QuotedValue, Word, SkipSpace;
    var v := SkipBlanks(s, pos, SPACE);
    if !v.Part? {
      return v;
    }
    if v.ch == EOF {
      return Bad;
    }
    if v.ch == APOS || v.ch == QUOT {
      r := ReadQuotedValue(table, s, v.pos, v.ch);
    } else {
      r := ReadWord(table, s, v.pos, v.ch % 256, false);
    }
  }

  /** `mxml_parse_element`: reads attributes into the element until its tag ends. */
  method ParseElement(table: seq<Entity>, s: seq<byte>, start: nat) returns (r: Part<seq<Attr>>)
    requires Usable(table) && start <= |s|
    ensures r == Attrs(table, s, start, [])
  {
    hide GetC, Usable, LegalTable, AttrName, AttrValue, SkipSpace, GetAttr, SetAttr, CStr, EndTag;
    UsableLegal(table);
    var node := new Attributes();
    var pos := start;
    while true
      invariant node.Valid() && fresh(node) && fresh(node.attrs)
      invariant start <= pos <= |s| && Attrs(table, s, pos, node.Contents()) == Attrs(table, s, start, [])
      decreases |s| - pos
    {
      var attrs := node.attrs[..node.numAttrs];
      match GetC(s, pos) {
        case Utf16 => return Unmodelled;
        case Eof(p) => return Part(EOF, p, attrs);
        case Got(c, p) =>
          var ch := c;
          pos := p;
          if IsSpace(ch) {
            continue;
          }
          if ch == SLASH || ch == QUESTION {
            return EndTag(s, ch, pos, attrs);
          } else if ch == LT {
            return Bad;
          } else if ch == GT {
            return Part(ch, pos, attrs);
          }
          var n := ReadAttrName(table, s, ch, pos);
          if !n.Part? {
            return if n.Unmodelled? then Unmodelled else Bad;
          }
          var name := CStr(n.value);
          var before := node.Get(name);
          if before.Some? {
            return Bad;
          }
          var e := SkipBlanks(s, n.pos, n.ch);
          if !e.Part? {
            return if e.Unmodelled? then Unmodelled else Bad;
          }
          if e.ch != EQUALS {
            return Bad;
          }
          var v := ReadAttrValue(table, s, e.pos);
          if !v.Part? {
            return if v.Unmodelled? then Unmodelled else Bad;
          }
          node.Set(name, Some(CStr(v.value)));
          ch, pos := v.ch, v.pos;
          attrs := node.attrs[..node.numAttrs];
          if ch == SLASH || ch == QUESTION {
            return EndTag(s, ch, pos, attrs);
          } else if ch == GT {
            return Part(ch, pos, attrs);
          }
      }
    }
    assert false;
  }

  /** The part of the loop of `mxml_load_data` that handles markup, behind `<`. */
  method ReadMarkup(table: seq<Entity>, s: seq<byte>, st: State) returns (n: Next)
    requires Usable(table) && st.pos <= |s|
    ensures n == Markup(table, s, st)
  {
    hide GetC, Attrs, TagName, SkipTag, CStr, EndTag, Placed;
    var name := ReadTagName(table, s, st.pos);
    if !name.Part? {
      return Stop(if name.Unmodelled? then UnmodelledDocument else BadDocument);
    }
    var buffer := name.value;
    if Head(buffer) == QUESTION || Head(buffer) == BANG {
      return Stop(UnmodelledDocument);
    } else if Head(buffer) == SLASH {
      if |st.open| == 0 {
        return Stop(BadDocument);
      }
      var last := |st.open| - 1;
      var parent := st.open[last];
      if CStr(buffer[1..]) != parent.name {
        return Stop(BadDocument);
      }
      var end := SkipToEnd(s, name.pos, name.ch);
      if !end.Part? {
        return Stop(UnmodelledDocument);
      }
      return Go(Placed(st.(pos := end.pos, open := st.open[..last], buffer := []), Elem(parent.name, parent.attrs, parent.kids)));
    }
    if |st.open| == 0 && st.root.Some? {
      return Stop(BadDocument);
    }
    var end: Part<seq<Attr>>;
    if IsSpace(name.ch) {
      end := ParseElement(table, s, name.pos);
    } else if name.ch == SLASH {
      end := EndTag(s, SLASH, name.pos, []);
    } else {
      end := Part(name.ch, name.pos, []);
    }
    if end.Unmodelled? {
      return Stop(UnmodelledDocument);
    }
    if end.Bad? || (end.ch == EOF && IsSpace(name.ch)) {
      return Stop(BadDocument);
    }
    var node := Elem(CStr(buffer), end.value, []);
    var at := st.(pos := end.pos, buffer := []);
    if end.ch == EOF {
      return Stop(Ended(Placed(at, node)));
    }
    if end.ch != SLASH {
      return Go(at.(open := at.open + [Open(node.name, node.attrs, [])], keep := true));
    }
    return Go(Placed(at, node));
  }

  /** `mxml_load_data` */
  method LoadData(table: seq<Entity>, s: seq<byte>) returns (r: Loaded)
    requires Usable(table)
    ensures r == Load(table, s)
  {
    hide GetC, Usable, LegalTable, Markup, GetEntity, Encode, Flushed, Ended;
    UsableLegal(table);
    var st := State(0, [], None, [], false);
    while true
      invariant st.pos <= |s| && Run(table, s, st) == Load(table, s)
      decreases |s| - st.pos
    {
      match GetC(s, st.pos) {
        case Utf16 => return UnmodelledDocument;
        case Eof(_) => return Ended(st);
        case Got(ch, p) =>
          ghost var was := st;
          RoundMoves(table, s, st, ch, p);
          if (ch == LT || (IsSpace(ch) && !st.keep)) && st.buffer != [] {
            st := Flushed(st);
          }
          st := st.(pos := p);
          if ch == LT {
            var n := ReadMarkup(table, s, st);
            if n.Stop? {
              return n.r;
            }
            st := n.st;
          } else if ch == AMP {
            var e := ReadEntity(table, s, p);
            if !e.Part? {
              return if e.Unmodelled? then UnmodelledDocument else BadDocument;
            }
            st := st.(pos := e.pos, buffer := st.buffer + Encode(e.ch));
          } else if st.keep || !IsSpace(ch) {
            st := st.(buffer := st.buffer + Encode(ch));
          }
          assert Round(table, s, was, ch, p) == Go(st);
      }
    }
    assert false;
  }
}
