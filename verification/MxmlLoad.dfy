/**
  `mxml_load_data` for documents of elements and opaque text: the loader as a
  function of the input bytes, and its loops. Comments, CDATA sections, processing
  instructions, declarations, numeric references and UTF-16 input end with an
  outcome of their own.
*/
module MxmlLoad {
  import opened Basics
  import opened MxmlAttr
  import opened MxmlEntity
  import opened MxmlTree
  import opened MxmlUtf8

  const EOF: int := -1

  /** `mxml_isspace` */
  predicate IsSpace(ch: int) {
    ch == 32 || ch == 9 || ch == 13 || ch == 10
  }

  /** `isalnum` in the C locale */
  predicate IsAlnum(ch: int) {
    48 <= ch <= 57 || 65 <= ch <= 90 || 97 <= ch <= 122
  }

  /** A C string ends at its first NUL. */
  function CStr(s: seq<byte>): seq<byte> {
    if |s| == 0 || s[0] == 0 then [] else [s[0]] + CStr(s[1..])
  }

  /** What a loop over the input leaves: its last character or EOF, the position behind it, and what it gathered. */
  datatype Part<T> = Part(ch: int, pos: nat, value: T) | Bad | Unmodelled

  ghost predicate Within<T>(r: Part<T>, s: seq<byte>, pos: nat) {
    r.Part? ==> pos <= r.pos <= |s|
  }

  // -------------------------------------------------------- entities

  /** The name of an entity, up to the first character that cannot belong to it. */
  function EntityText(s: seq<byte>, pos: nat, acc: seq<byte>): (r: Part<seq<byte>>)
    requires pos <= |s|
    ensures Within(r, s, pos)
    decreases |s| - pos
  {
    match GetC(s, pos)
    case Utf16 => Unmodelled
    case Eof(p) => Part(EOF, p, acc)
    case Got(ch, p) =>
      if ch > 126 || (!IsAlnum(ch) && ch != HASH) then Part(ch, p, acc)
      else if |acc| < 63 then EntityText(s, p, acc + [ch])
      else Part(ch, p, acc)
  }

  /** `mxml_get_entity`: the character, and the position behind the semicolon. */
  function GetEntity(table: seq<Entity>, s: seq<byte>, pos: nat): (r: Part<seq<byte>>)
    requires pos <= |s| && LegalTable(table)
    ensures Within(r, s, pos) && (r.Part? ==> Legal(r.ch))
  {
    var e := EntityText(s, pos, []);
    if !e.Part? then e
    else if e.ch != SEMICOLON then Bad
    else if Head(e.value) == HASH then Unmodelled
    else
      var v := LookUp(table, e.value);
      if v.None? then Bad else Part(v.value, e.pos, e.value)
  }

  /** A character of a name, value or text, where `&` starts an entity. */
  function Decoded(table: seq<Entity>, s: seq<byte>, ch: int, pos: nat): (r: Part<seq<byte>>)
    requires pos <= |s| && Legal(ch) && LegalTable(table)
    ensures Within(r, s, pos) && (r.Part? ==> Legal(r.ch))
  {
    if ch == AMP then GetEntity(table, s, pos) else Part(ch, pos, [])
  }

  // ------------------------------------------------------------ tags

  /** The text behind `<` that decides what the markup is. */
  predicate Special(name: seq<byte>) {
    name == [QUESTION] || name == COMMENT || name == CDATA
  }

  predicate NameStops(ch: int, acc: seq<byte>) {
    IsSpace(ch) || ch == GT || (ch == SLASH && acc != [])
  }

  /** The loop that reads the name in a tag */
  function TagName(table: seq<Entity>, s: seq<byte>, pos: nat, acc: seq<byte>): (r: Part<seq<byte>>)
    requires pos <= |s| && LegalTable(table)
    ensures Within(r, s, pos)
    decreases |s| - pos
  {
    match GetC(s, pos)
    case Utf16 => Unmodelled
    case Eof(p) => Part(EOF, p, acc)
    case Got(ch, p) =>
      if NameStops(ch, acc) then Part(ch, p, acc)
      else if ch == LT then Bad
      else if ch == AMP then
        var e := GetEntity(table, s, p);
        if e.Part? then TagName(table, s, e.pos, acc + Encode(e.ch)) else e
      else if ch < 48 && ch != BANG && ch != 45 && ch != 46 && ch != SLASH then Bad
      else if Special(acc + Encode(ch)) then Part(ch, p, acc + Encode(ch))
      else TagName(table, s, p, acc + Encode(ch))
  }

  /** The rest of a closing tag, from character `ch` on. */
  function SkipTag(s: seq<byte>, pos: nat, ch: int): (r: Part<seq<byte>>)
    requires pos <= |s|
    ensures Within(r, s, pos)
    decreases |s| - pos
  {
    if ch == GT || ch == EOF then Part(ch, pos, [])
    else
      match GetC(s, pos)
      case Utf16 => Unmodelled
      case Eof(p) => Part(EOF, p, [])
      case Got(c, p) => SkipTag(s, p, c)
  }

  // ------------------------------------------------------ attributes

  /** Further white space after `ch` */
  function SkipSpace(s: seq<byte>, pos: nat, ch: int): (r: Part<seq<byte>>)
    requires pos <= |s|
    ensures Within(r, s, pos) && (r.Part? ==> r.ch == ch || r.ch == EOF || Legal(r.ch))
    decreases |s| - pos
  {
    if !IsSpace(ch) then Part(ch, pos, [])
    else
      match GetC(s, pos)
      case Utf16 => Unmodelled
      case Eof(p) => Part(EOF, p, [])
      case Got(c, p) => SkipSpace(s, p, c)
  }

  /** Where an unquoted attribute name, or an unquoted value, ends. */
  predicate WordStops(ch: int, inName: bool) {
    IsSpace(ch) || ch == EQUALS || ch == SLASH || ch == GT || (inName && ch == QUESTION)
  }

  function Word(table: seq<Entity>, s: seq<byte>, pos: nat, acc: seq<byte>, inName: bool): (r: Part<seq<byte>>)
    requires pos <= |s| && LegalTable(table)
    ensures Within(r, s, pos)
    decreases |s| - pos
  {
    match GetC(s, pos)
    case Utf16 => Unmodelled
    case Eof(p) => Part(EOF, p, acc)
    case Got(ch, p) =>
      if WordStops(ch, inName) then Part(ch, p, acc)
      else
        var d := Decoded(table, s, ch, p);
        if d.Part? then Word(table, s, d.pos, acc + Encode(d.ch), inName) else d
  }

  /** A quoted attribute name: the quotes belong to it, and one written as an entity ends it, too. */
  function QuotedWord(table: seq<Entity>, s: seq<byte>, pos: nat, acc: seq<byte>, quote: int): (r: Part<seq<byte>>)
    requires pos <= |s| && LegalTable(table)
    ensures Within(r, s, pos)
    decreases |s| - pos
  {
    match GetC(s, pos)
    case Utf16 => Unmodelled
    case Eof(p) => Part(EOF, p, acc)
    case Got(ch, p) =>
      var d := Decoded(table, s, ch, p);
      if !d.Part? then d
      else if d.ch == quote then Part(d.ch, d.pos, acc + Encode(d.ch))
      else QuotedWord(table, s, d.pos, acc + Encode(d.ch), quote)
  }

  /** A quoted attribute value, up to its closing quote. */
  function QuotedValue(table: seq<Entity>, s: seq<byte>, pos: nat, acc: seq<byte>, quote: int): (r: Part<seq<byte>>)
    requires pos <= |s| && LegalTable(table)
    ensures Within(r, s, pos)
    decreases |s| - pos
  {
    match GetC(s, pos)
    case Utf16 => Unmodelled
    case Eof(p) => Part(EOF, p, acc)
    case Got(ch, p) =>
      if ch == quote then Part(ch, p, acc)
      else
        var d := Decoded(table, s, ch, p);
        if d.Part? then QuotedValue(table, s, d.pos, acc + Encode(d.ch), quote) else d
  }

  /** An attribute's name, whose first character has been read. */
  function AttrName(table: seq<Entity>, s: seq<byte>, ch: int, pos: nat): (r: Part<seq<byte>>)
    requires pos <= |s| && Legal(ch) && LegalTable(table)
    ensures Within(r, s, pos)
  {
    if ch == QUOT || ch == APOS then QuotedWord(table, s, pos, [ch % 256], ch)
    else Word(table, s, pos, [ch % 256], true)
  }

  /** The value behind `=` */
  function AttrValue(table: seq<Entity>, s: seq<byte>, pos: nat): (r: Part<seq<byte>>)
    requires pos <= |s| && LegalTable(table)
    ensures Within(r, s, pos)
  {
    var v := SkipSpace(s, pos, SPACE);
    if !v.Part? then v
    else if v.ch == EOF then Bad
    else if v.ch == APOS || v.ch == QUOT then QuotedValue(table, s, v.pos, [], v.ch)
    else Word(table, s, v.pos, [v.ch % 256], false)
  }

  /** The `>` that must follow `/` or `?` at the end of a tag. */
  function EndTag<T>(s: seq<byte>, ch: int, pos: nat, value: T): (r: Part<T>)
    requires pos <= |s|
    ensures Within(r, s, pos)
  {
    match GetC(s, pos)
    case Utf16 => Unmodelled
    case Eof(_) => Bad
    case Got(c, p) => if c == GT then Part(ch, p, value) else Bad
  }

  /** One attribute, whose first character `ch` has been read, and the character behind it. */
  function OneAttr(table: seq<Entity>, s: seq<byte>, ch: int, pos: nat, attrs: seq<Attr>): (r: Part<seq<Attr>>)
    requires pos <= |s| && Legal(ch) && LegalTable(table)
    ensures Within(r, s, pos)
  {
    var n := AttrName(table, s, ch, pos);
    if n.Unmodelled? then Unmodelled
    else if n.Bad? || GetAttr(attrs, CStr(n.value)).Some? then Bad
    else
      var e := SkipSpace(s, n.pos, n.ch);
      if e.Unmodelled? then Unmodelled
      else if e.Bad? || e.ch != EQUALS then Bad
      else
        var v := AttrValue(table, s, e.pos);
        if v.Unmodelled? then Unmodelled
        else if v.Bad? then Bad
        else Part(v.ch, v.pos, SetAttr(attrs, CStr(n.value), Some(CStr(v.value))))
  }

  /** `mxml_parse_element` */
  function Attrs(table: seq<Entity>, s: seq<byte>, pos: nat, attrs: seq<Attr>): (r: Part<seq<Attr>>)
    requires pos <= |s| && LegalTable(table)
    ensures Within(r, s, pos)
    decreases |s| - pos
  {
    match GetC(s, pos)
    case Utf16 => Unmodelled
    case Eof(p) => Part(EOF, p, attrs)
    case Got(ch, p) =>
      if IsSpace(ch) then Attrs(table, s, p, attrs)
      else if ch == SLASH || ch == QUESTION then EndTag(s, ch, p, attrs)
      else if ch == LT then Bad
      else if ch == GT then Part(ch, p, attrs)
      else
        var a := OneAttr(table, s, ch, p, attrs);
        if !a.Part? then a
        else if a.ch == SLASH || a.ch == QUESTION then EndTag(s, a.ch, a.pos, a.value)
        else if a.ch == GT then a
        else Attrs(table, s, a.pos, a.value)
  }

  // -------------------------------------------------------- documents

  /** An element whose closing tag has not been read, with the children read so far. */
  datatype Open = Open(name: seq<byte>, attrs: seq<Attr>, kids: seq<Tree>)

  /**
    The loader between two rounds of its loop: the elements from the root to the
    current parent, the root once it is closed, the text gathered, and whether that
    text will be kept (`MXML_OPAQUE`) or not (`MXML_IGNORE`).
  */
  datatype State = State(pos: nat, open: seq<Open>, root: Option<Tree>, buffer: seq<byte>, keep: bool)

  datatype Loaded = Document(t: Tree) | NoDocument | BadDocument | UnmodelledDocument

  datatype Next = Go(st: State) | Stop(r: Loaded)

  /** A new last child of the current parent, or the root. */
  function Placed(st: State, t: Tree): State {
    if |st.open| == 0 then st.(root := Some(t))
    else
      var last := |st.open| - 1;
      st.(open := st.open[last := st.open[last].(kids := st.open[last].kids + [t])])
  }

  /** The text gathered becomes a node; text outside the root is lost. */
  function Flushed(st: State): State {
    if st.keep && |st.open| > 0 then Placed(st.(buffer := []), Text(CStr(st.buffer))) else st.(buffer := [])
  }

  /** A closing tag */
  function Closed(s: seq<byte>, st: State, name: Part<seq<byte>>): Next
    requires name.Part? && |name.value| > 0 && name.pos <= |s|
  {
    if |st.open| == 0 then Stop(BadDocument)
    else
      var last := |st.open| - 1;
      var o := st.open[last];
      if CStr(name.value[1..]) != o.name then Stop(BadDocument)
      else
        var end := SkipTag(s, name.pos, name.ch);
        if !end.Part? then Stop(UnmodelledDocument)
        else Go(Placed(st.(pos := end.pos, open := st.open[..last], buffer := []), Elem(o.name, o.attrs, o.kids)))
  }

  /** An opening tag */
  function Opened(table: seq<Entity>, s: seq<byte>, st: State, name: Part<seq<byte>>): Next
    requires name.Part? && name.pos <= |s| && LegalTable(table)
  {
    if |st.open| == 0 && st.root.Some? then Stop(BadDocument)
    else
      var end: Part<seq<Attr>> :=
        if IsSpace(name.ch) then Attrs(table, s, name.pos, [])
        else if name.ch == SLASH then EndTag(s, SLASH, name.pos, [])
        else Part(name.ch, name.pos, []);
      if end.Unmodelled? then Stop(UnmodelledDocument)
      else if end.Bad? || (end.ch == EOF && IsSpace(name.ch)) then Stop(BadDocument)
      else
        var el := CStr(name.value);
        var at := st.(pos := end.pos, buffer := []);
        if end.ch == EOF then Stop(Ended(Placed(at, Elem(el, end.value, []))))
        else if end.ch == SLASH then Go(Placed(at, Elem(el, end.value, [])))
        else Go(at.(open := at.open + [Open(el, end.value, [])], keep := true))
  }

  /** What is returned at the end of the input. */
  function Ended(st: State): Loaded {
    if |st.open| == 0 then (if st.root.Some? then Document(st.root.value) else NoDocument)
    else if |st.open| == 1 then Document(Elem(st.open[0].name, st.open[0].attrs, st.open[0].kids))
    else BadDocument
  }

  /** Markup, behind its `<` */
  function Markup(table: seq<Entity>, s: seq<byte>, st: State): Next
    requires st.pos <= |s| && LegalTable(table)
  {
    var name := TagName(table, s, st.pos, []);
    if name.Unmodelled? then Stop(UnmodelledDocument)
    else if name.Bad? then Stop(BadDocument)
    else if Head(name.value) == QUESTION || Head(name.value) == BANG then Stop(UnmodelledDocument)
    else if Head(name.value) == SLASH then Closed(s, st, name)
    else Opened(table, s, st, name)
  }

  /** One round of the loop of `mxml_load_data`, for the character `ch` in front of `pos`. */
  function Round(table: seq<Entity>, s: seq<byte>, st0: State, ch: int, pos: nat): Next
    requires pos <= |s| && Legal(ch) && LegalTable(table)
  {
    var kept := if (ch == LT || (IsSpace(ch) && !st0.keep)) && st0.buffer != [] then Flushed(st0) else st0;
    var st := kept.(pos := pos);
    if ch == LT then Markup(table, s, st)
    else if ch == AMP then
      var e := GetEntity(table, s, pos);
      if e.Unmodelled? then Stop(UnmodelledDocument)
      else if e.Bad? then Stop(BadDocument)
      else Go(st.(pos := e.pos, buffer := st.buffer + Encode(e.ch)))
    else if st.keep || !IsSpace(ch) then Go(st.(buffer := st.buffer + Encode(ch)))
    else Go(st)
  }

  lemma RoundMoves(table: seq<Entity>, s: seq<byte>, st: State, ch: int, pos: nat)
    requires pos <= |s| && Legal(ch) && LegalTable(table)
    ensures var n := Round(table, s, st, ch, pos); n.Go? ==> pos <= n.st.pos <= |s|
  {
  }

  function Run(table: seq<Entity>, s: seq<byte>, st: State): Loaded
    requires st.pos <= |s| && LegalTable(table)
    decreases |s| - st.pos
  {
    match GetC(s, st.pos)
    case Utf16 => UnmodelledDocument
    case Eof(_) => Ended(st)
    case Got(ch, p) =>
      RoundMoves(table, s, st, ch, p);
      match Round(table, s, st, ch, p)
      case Stop(r) => r
      case Go(st') => Run(table, s, st')
  }

  /** The document a string holds */
  function Load(table: seq<Entity>, s: seq<byte>): Loaded
    requires LegalTable(table)
  {
    Run(table, s, State(0, [], None, [], false))
  }
}
