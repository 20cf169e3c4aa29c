/**
  XML documents as values, and their text: what Mini-XML writes, defined by recursion.
*/
module MxmlTree {
  import opened Basics
  import opened MxmlAttr

  datatype Tree =
    | Elem(name: seq<byte>, attrs: seq<Attr>, kids: seq<Tree>)
    | Text(text: seq<byte>)

  const LT: byte := 60
  const GT: byte := 62
  const AMP: byte := 38
  const QUOT: byte := 34
  const APOS: byte := 39
  const SLASH: byte := 47
  const EQUALS: byte := 61
  const SPACE: byte := 32
  const NEWLINE: byte := 10
  const QUESTION: byte := 63
  const BANG: byte := 33
  const SEMICOLON: byte := 59
  const HASH: byte := 35
  const RBRACKET: byte := 93

  const ENT_AMP: seq<byte> := [97, 109, 112]
  const ENT_LT: seq<byte> := [108, 116]
  const ENT_GT: seq<byte> := [103, 116]
  const ENT_QUOT: seq<byte> := [113, 117, 111, 116]
  const COMMENT: seq<byte> := [33, 45, 45]
  const CDATA: seq<byte> := [33, 91, 67, 68, 65, 84, 65, 91]

  /** `mxmlEntityGetName`; empty where the character stands for itself */
  function EntityName(b: byte): seq<byte> {
    if b == AMP then ENT_AMP
    else if b == LT then ENT_LT
    else if b == GT then ENT_GT
    else if b == QUOT then ENT_QUOT
    else []
  }

  function EscapeByte(b: byte): seq<byte> {
    if EntityName(b) != [] then [AMP] + EntityName(b) + [SEMICOLON] else [b]
  }

  /** `mxml_write_string` */
  function Escape(s: seq<byte>): seq<byte> {
    if |s| == 0 then [] else EscapeByte(s[0]) + Escape(s[1..])
  }

  lemma {:induction false} EscapeJoin(s: seq<byte>, t: seq<byte>)
    ensures Escape(s + t) == Escape(s) + Escape(t)
  {
    if |s| == 0 {
      assert s + t == t;
    } else {
      assert (s + t)[1..] == s[1..] + t;
      EscapeJoin(s[1..], t);
    }
  }

  /** Nothing that is escaped looks like markup or ends a value, and what needs no entity is left alone. */
  lemma {:induction false} EscapeClean(s: seq<byte>)
    ensures forall i :: 0 <= i < |Escape(s)| ==> Escape(s)[i] !in {LT, GT, QUOT}
    ensures Escape(s) == s <==> forall i :: 0 <= i < |s| ==> s[i] !in {AMP, LT, GT, QUOT}
    ensures |Escape(s)| >= |s|
  {
    if |s| > 0 {
      EscapeClean(s[1..]);
      assert s == [s[0]] + s[1..];
      if s[0] !in {AMP, LT, GT, QUOT} {
        assert EscapeByte(s[0]) == [s[0]];
      } else {
        assert |EscapeByte(s[0])| > 1;
      }
    }
  }

  /** The first byte of a C string: NUL at its end. */
  function Head(s: seq<byte>): byte {
    if |s| > 0 then s[0] else 0
  }

  predicate Starts(s: seq<byte>, prefix: seq<byte>) {
    prefix <= s
  }

  /** What has been written, and the output column. */
  datatype Out = Out(text: seq<byte>, col: int) {
    function Add(s: seq<byte>, columns: int): Out {
      Out(text + s, col + columns)
    }
  }

  /** The bytes of a quoted name up to its second quote. */
  function QuotedName(s: seq<byte>, quote: byte): seq<byte> {
    if |s| == 0 || s[0] == quote then [quote] else EscapeByte(s[0]) + QuotedName(s[1..], quote)
  }

  /** `mxml_write_name` */
  function NameText(s: seq<byte>): seq<byte> {
    if Head(s) == QUOT || Head(s) == APOS then [s[0]] + QuotedName(s[1..], s[0]) else s
  }

  /** The name in an opening tag: comments, processing instructions and CDATA are copied. */
  function TagText(name: seq<byte>): seq<byte> {
    if Head(name) == QUESTION || Starts(name, COMMENT) then name
    else if Starts(name, CDATA) then name + [RBRACKET, RBRACKET]
    else NameText(name)
  }

  /** One attribute, on the same line or, past column `wrap`, on a new one. */
  function AttrText(a: Attr, wrap: int, o: Out): Out {
    var width := |a.name| + if a.value.Some? then |a.value.value| + 3 else 0;
    var newline := wrap > 0 && o.col + width > wrap;
    var sep := if newline then NEWLINE else SPACE;
    Out(o.text + [sep] + NameText(a.name) + ValueText(a.value), (if newline then 0 else o.col + 1) + width)
  }

  function ValueText(value: Option<seq<byte>>): seq<byte> {
    if value.Some? then [EQUALS, QUOT] + Escape(value.value) + [QUOT] else []
  }

  function AttrsText(attrs: seq<Attr>, wrap: int, o: Out): Out {
    if |attrs| == 0 then o else AttrsText(attrs[1..], wrap, AttrText(attrs[0], wrap, o))
  }

  /** Declarations and processing instructions have no closing tag and no slash. */
  predicate Unclosed(name: seq<byte>) {
    Head(name) == BANG || Head(name) == QUESTION
  }

  function OpenTag(name: seq<byte>, attrs: seq<Attr>, childless: bool, wrap: int, o: Out): Out {
    var named := o.Add([LT] + TagText(name), |name| + 1);
    var o' := AttrsText(attrs, wrap, named);
    if childless && !Unclosed(name) then o'.Add([SPACE, SLASH, GT], 3) else o'.Add([GT], 1)
  }

  function CloseTag(name: seq<byte>, o: Out): Out {
    if Unclosed(name) then o else o.Add([LT, SLASH] + Escape(name) + [GT], |name| + 3)
  }

  /** The text of a document without a whitespace callback, behind what has been written. */
  function Write(t: Tree, wrap: int, o: Out): Out
    decreases t, 0
  {
    match t
    case Text(s) => o.Add(Escape(s), |s|)
    case Elem(name, attrs, kids) =>
      var o' := OpenTag(name, attrs, |kids| == 0, wrap, o);
      if |kids| == 0 then o' else CloseTag(name, WriteAll(kids, wrap, o'))
  }

  function WriteAll(ts: seq<Tree>, wrap: int, o: Out): Out
    decreases ts, 1
  {
    if |ts| == 0 then o else WriteAll(ts[1..], wrap, Write(ts[0], wrap, o))
  }
}
