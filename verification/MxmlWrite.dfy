/**
  `mxml_write_node`: writing a tree along its links, without a stack.
*/
module MxmlWrite {
  import opened Basics
  import opened MxmlAttr
  import opened MxmlForest
  import opened MxmlNode
  import opened MxmlSearch
  import opened MxmlTree

  /** The document a node and all below it stand for. */
  ghost function ToTree(f: Forest, n: Node): Tree
    requires Wf(f) && n in f.kids
    decreases f.rank[n], |f.kids[n]| + 1
  {
    match n.value
    case Element(name, attrs) => Elem(name, attrs, KidTrees(f, n, 0))
    case Opaque(text) => Text(text)
  }

  ghost function KidTrees(f: Forest, n: Node, i: nat): (ts: seq<Tree>)
    requires Wf(f) && n in f.kids && i <= |f.kids[n]|
    ensures |ts| == |f.kids[n]| - i
    decreases f.rank[n], |f.kids[n]| - i
  {
    if i == |f.kids[n]| then [] else [ToTree(f, Kid(f, n, i))] + KidTrees(f, n, i + 1)
  }

  /** Only elements have children. */
  ghost predicate Shaped(f: Forest) {
    forall n :: n in f.kids && f.kids[n] != [] ==> n.value.Element?
  }

  // ------------------------------------------------------- the pieces

  /** One character of a string: as an entity where it has a name. */
  method WriteByte(b: byte, out: seq<byte>) returns (r: seq<byte>)
    ensures r == out + EscapeByte(b)
  {
    var name := EntityName(b);
    if name != [] {
      r := out + ([AMP] + name + [SEMICOLON]);
    } else {
      r := out + [b];
    }
  }

  /** `mxml_write_string` */
  method WriteString(s: seq<byte>, out: seq<byte>) returns (r: seq<byte>)
    ensures r == out + Escape(s)
  {
    hide EscapeByte;
    r := out;
    var i := 0;
    while i < |s|
      invariant 0 <= i <= |s| && r + Escape(s[i..]) == out + Escape(s)
    {
      r := WriteByte(s[i], r);
      assert s[i..][1..] == s[i + 1..];
      i := i + 1;
    }
  }

  /** The quoted form of a name, behind its first quote. */
  method WriteQuoted(s: seq<byte>, quote: byte, out: seq<byte>) returns (r: seq<byte>)
    ensures r == out + QuotedName(s, quote)
  {
    hide EscapeByte;
    r := out;
    var i := 0;
    while i < |s| && s[i] != quote
      invariant 0 <= i <= |s| && r + QuotedName(s[i..], quote) == out + QuotedName(s, quote)
    {
      r := WriteByte(s[i], r);
      assert s[i..][1..] == s[i + 1..];
      i := i + 1;
    }
    r := r + [quote];
  }

  /** `mxml_write_name` */
  method WriteName(s: seq<byte>, out: seq<byte>) returns (r: seq<byte>)
    ensures r == out + NameText(s)
  {
    hide QuotedName;
    if Head(s) == QUOT || Head(s) == APOS {
      r := WriteQuoted(s[1..], s[0], out + [s[0]]);
      assert r == out + ([s[0]] + QuotedName(s[1..], s[0]));
    } else {
      r := out + s;
    }
  }

  method WriteAttr(a: Attr, wrap: int, o: Out) returns (r: Out)
    ensures r == AttrText(a, wrap, o)
  {
    hide NameText, Escape;
    var text, col := o.text, o.col;
    var width := |a.name|;
    if a.value.Some? {
      width := width + |a.value.value| + 3;
    }
    if wrap > 0 && col + width > wrap {
      text := text + [NEWLINE];
      col := 0;
    } else {
      text := text + [SPACE];
      col := col + 1;
    }
    text := WriteName(a.name, text);
    if a.value.Some? {
      ghost var was := text;
      text := WriteString(a.value.value, text + [EQUALS, QUOT]);
      text := text + [QUOT];
      assert text == was + ([EQUALS, QUOT] + Escape(a.value.value) + [QUOT]);
    }
    r := Out(text, col + width);
  }

  method WriteAttrs(attrs: seq<Attr>, wrap: int, o: Out) returns (r: Out)
    ensures r == AttrsText(attrs, wrap, o)
  {
    hide AttrText;
    r := o;
    var i := 0;
    while i < |attrs|
      invariant 0 <= i <= |attrs| && AttrsText(attrs[i..], wrap, r) == AttrsText(attrs, wrap, o)
    {
      r := WriteAttr(attrs[i], wrap, r);
      assert attrs[i..][1..] == attrs[i + 1..];
      i := i + 1;
    }
  }

  /** The name in an opening tag */
  method WriteTag(name: seq<byte>, out: seq<byte>) returns (r: seq<byte>)
    ensures r == out + TagText(name)
  {
    hide NameText;
    if Head(name) == QUESTION || Starts(name, COMMENT) {
      r := out + name;
    } else if Starts(name, CDATA) {
      r := out + name + [RBRACKET, RBRACKET];
      assert r == out + (name + [RBRACKET, RBRACKET]);
    } else {
      r := WriteName(name, out);
    }
  }

  /** The element case of the switch in `mxml_write_node` */
  method WriteOpen(name: seq<byte>, attrs: seq<Attr>, childless: bool, wrap: int, o: Out) returns (r: Out)
    ensures r == OpenTag(name, attrs, childless, wrap, o)
  {
    hide TagText, AttrsText;
    var text := WriteTag(name, o.text + [LT]);
    r := Out(text, o.col + |name| + 1);
    assert r.text == o.text + ([LT] + TagText(name));
    r := WriteAttrs(attrs, wrap, r);
    if !childless {
      r := r.Add([GT], 1);
    } else if Head(name) == BANG || Head(name) == QUESTION {
      r := r.Add([GT], 1);
    } else {
      r := r.Add([SPACE, SLASH, GT], 3);
    }
  }

  method WriteClose(name: seq<byte>, o: Out) returns (r: Out)
    ensures r == CloseTag(name, o)
  {
    hide Escape;
    if Head(name) != BANG && Head(name) != QUESTION {
      var text := WriteString(name, o.text + [LT, SLASH]);
      r := Out(text + [GT], o.col + |name| + 3);
      Regrouped(o.text, [LT, SLASH], Escape(name), [GT]);
    } else {
      r := o;
    }
  }

  lemma Regrouped(a: seq<byte>, b: seq<byte>, c: seq<byte>, d: seq<byte>)
    ensures a + b + c + d == a + (b + c + d)
  {
  }

  // -------------------------------------------------------- the walk

  /** What is written from the point where `c` and all below it have been written to the end of `top`. */
  ghost function Finish(f: Forest, top: Node, c: Node, wrap: int, o: Out): Out
    requires Wf(f) && Shaped(f) && top in f.kids && c in f.kids && Within(f, top, c)
    decreases Gap(f, top, c)
  {
    if c == top then o
    else
      var p := f.par[c];
      assert p.value.Element? by { assert c in f.kids[p]; }
      var rest := WriteAll(KidTrees(f, p, Pos(Siblings(f, c), c) + 1), wrap, o);
      Finish(f, top, p, wrap, CloseTag(p.value.name, rest))
  }

  /** Going down: what is written for an element with children starts with its first child. */
  lemma FinishDown(f: Forest, top: Node, c: Node, wrap: int, o: Out)
    requires Wf(f) && Shaped(f) && top in f.kids && c in f.kids && Within(f, top, c) && |f.kids[c]| > 0
    ensures c.value.Element?
    ensures var k := Kid(f, c, 0); Within(f, top, k)
    ensures var k := Kid(f, c, 0);
      var o' := OpenTag(c.value.name, c.value.attrs, false, wrap, o);
      Finish(f, top, c, wrap, Write(ToTree(f, c), wrap, o)) == Finish(f, top, k, wrap, Write(ToTree(f, k), wrap, o'))
  {
    hide OpenTag, CloseTag;
    var k := Kid(f, c, 0);
    WithinRank(f, top, c);
    PosIs(f.kids[c], 0);
    var ts := KidTrees(f, c, 0);
    assert ts[0] == ToTree(f, k) && ts[1..] == KidTrees(f, c, 1);
  }

  /** Going on: to the next sibling, or to the closing tag of the parent. */
  lemma FinishAlong(f: Forest, top: Node, c: Node, wrap: int, o: Out)
    requires Wf(f) && Shaped(f) && top in f.kids && c in f.kids && Within(f, top, c) && c != top
    ensures var l := LinksIn(f, c);
      && l.parent != null && l.parent in f.kids && Within(f, top, l.parent) && l.parent.value.Element?
      && c in f.par && l.parent == f.par[c] && 0 <= Gap(f, top, l.parent) < Gap(f, top, c)
      && (l.next == null ==>
        Finish(f, top, c, wrap, o) == Finish(f, top, l.parent, wrap, CloseTag(l.parent.value.name, o)))
      && (l.next != null ==>
        && l.next in f.kids && Within(f, top, l.next) && l.next != top
        && Finish(f, top, c, wrap, o) == Finish(f, top, l.next, wrap, Write(ToTree(f, l.next), wrap, o)))
  {
    hide OpenTag, CloseTag;
    var p, i := f.par[c], Pos(Siblings(f, c), c);
    assert c in f.kids[p];
    WithinRank(f, top, p);
    if i + 1 < |f.kids[p]| {
      var k := Kid(f, p, i + 1);
      PosIs(f.kids[p], i + 1);
      var ts := KidTrees(f, p, i + 1);
      assert ts[0] == ToTree(f, k) && ts[1..] == KidTrees(f, p, i + 2);
    }
  }

  /** The switch in `mxml_write_node` */
  method WriteValue(n: Node, childless: bool, wrap: int, o: Out) returns (r: Out)
    ensures n.value.Element? ==> r == OpenTag(n.value.name, n.value.attrs, childless, wrap, o)
    ensures n.value.Opaque? ==> r == o.Add(Escape(n.value.text), |n.value.text|)
  {
    match n.value {
      case Element(name, attrs) =>
        r := WriteOpen(name, attrs, childless, wrap, o);
      case Opaque(text) =>
        var out := WriteString(text, o.text);
        r := Out(out, o.col + |text|);
    }
  }

  /** A node without children is written in full by the switch. */
  lemma FinishLeaf(f: Forest, c: Node, wrap: int, o: Out)
    requires Wf(f) && c in f.kids && f.kids[c] == []
    ensures Write(ToTree(f, c), wrap, o) ==
      if c.value.Element? then OpenTag(c.value.name, c.value.attrs, true, wrap, o) else o.Add(Escape(c.value.text), |c.value.text|)
  {
    assert KidTrees(f, c, 0) == [];
  }

  /**
    The climb to the next node to write, closing the elements it leaves. That the loop
    stops at `top` at the latest makes the test for it on entry redundant.
  */
  method Climb(ghost f: Forest, top: Node, start: Node, wrap: int, o0: Out) returns (next: Node?, o: Out)
    requires Rep(f) && Shaped(f) && top in f.kids && start in f.kids && Within(f, top, start) && start != top
    ensures next == First(After(f, top, start))
    ensures next == null ==> o == Finish(f, top, start, wrap, o0)
    ensures next != null ==>
      && next in f.kids && Within(f, top, next)
      && Finish(f, top, next, wrap, Write(ToTree(f, next), wrap, o)) == Finish(f, top, start, wrap, o0)
  {
    hide Wf, Within, ToTree, Write, Finish, CloseTag, LinksIn, Shaped, After, First;
    var current := start;
    o := o0;
    FinishAlong(f, top, current, wrap, o);
    FirstAfter(f, top, current);
    next := current.next;
    while next == null
      invariant current in f.kids && Within(f, top, current) && current != top && next == LinksIn(f, current).next
      invariant Finish(f, top, current, wrap, o) == Finish(f, top, start, wrap, o0)
      invariant After(f, top, current) == After(f, top, start)
      decreases Gap(f, top, current)
    {
      FinishAlong(f, top, current, wrap, o);
      FirstAfter(f, top, current);
      current := current.parent;
      o := WriteClose(current.value.name, o);
      if current == top {
        FinishTop(f, top, wrap, o);
        return null, o;
      }
      next := current.next;
    }
    FinishAlong(f, top, current, wrap, o);
    FirstAfter(f, top, current);
  }

  lemma FinishTop(f: Forest, top: Node, wrap: int, o: Out)
    requires Wf(f) && Shaped(f) && top in f.kids
    ensures Within(f, top, top) && Finish(f, top, top, wrap, o) == o && After(f, top, top) == [] && First([]) == null
  {
  }

  /** `mxml_write_node`: the stackless walk writes what the recursion does. */
  method WriteNode(ghost f: Forest, node: Node, wrap: int, col: int) returns (o: Out)
    requires Rep(f) && Shaped(f) && node in f.kids
    ensures o == Write(ToTree(f, node), wrap, Out([], col))
  {
    hide Wf, Within, ToTree, Write, Finish, OpenTag, CloseTag, LinksIn, Shaped, After, Ahead, First;
    o := Out([], col);
    ghost var whole := Write(ToTree(f, node), wrap, o);
    FinishTop(f, node, wrap, whole);
    var current: Node? := node;
    while current != null
      invariant current == null ==> o == whole
      invariant current != null ==>
        && current in f.kids && Within(f, node, current)
        && Finish(f, node, current, wrap, Write(ToTree(f, current), wrap, o)) == whole
      decreases Left(f, node, current)
    {
      FirstAhead(f, node, current);
      NextAhead(f, node, current);
      ChildLink(f, current);
      ghost var was := o;
      o := WriteValue(current, current.child == null, wrap, o);
      var next := current.child;
      if next == null {
        FinishLeaf(f, current, wrap, was);
        if current == node {
          FinishTop(f, node, wrap, o);
        } else {
          next, o := Climb(f, node, current, wrap, o);
        }
      } else {
        FinishDown(f, node, current, wrap, was);
      }
      current := next;
    }
  }

  lemma ChildLink(f: Forest, n: Node)
    requires Wf(f) && n in f.kids
    ensures var child := LinksIn(f, n).child;
      if child == null then f.kids[n] == [] else |f.kids[n]| > 0 && child == Kid(f, n, 0)
  {
  }

  ghost function Left(f: Forest, top: Node, current: Node?): nat
    requires Wf(f) && top in f.kids && (current != null ==> current in f.kids && Within(f, top, current))
  {
    if current == null then 0 else 1 + |Ahead(f, top, current)|
  }
}
