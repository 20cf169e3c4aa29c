/**
  The byte code that a syntax tree stands for, as a function of the tree, and
  the effect on it of walking and patching a chain of "next" links.

  A node is one opcode byte, two bytes of link (high byte first) and an operand
  that simply follows. The last node of a fragment is its tail. Its link is
  null until the fragment is hooked to what comes after it, so every layout
  function takes the distance `d` from the end of the fragment to the position
  the tail links to; `d == -1` stands for a tail not linked yet.
*/
module RegexCode {
  import opened RegexSyntax

  const MAGIC: byte := 156
  const END: byte := 0
  const BOL: byte := 1
  const EOL: byte := 2
  const ANY: byte := 3
  const ANYOF: byte := 4
  const ANYBUT: byte := 5
  const BRANCH: byte := 6
  const BACK: byte := 7
  const EXACTLY: byte := 8
  const NOTHING: byte := 9
  const STARNODE: byte := 10
  const PLUSNODE: byte := 11
  const OPEN: byte := 20
  const CLOSE: byte := 30

  // ------------------------------------------------------------ layout

  function Node(op: byte, off: nat): (c: seq<byte>)
    ensures |c| == 3
  {
    [op, (off / 256) % 256, off % 256]
  }

  /** The link of a tail that lies `k` bytes before the end of its fragment. */
  function TailLink(k: nat, d: int): nat {
    if d < 0 then 0 else k + d
  }

  function ItemBytes(it: ClassItem): seq<byte> {
    match it
    case Single(b) => [b]
    case UpTo(lo, hi) => Span(lo, hi)
  }

  /** The bytes above `lo` up to `hi`, in ascending order. */
  function Span(lo: byte, hi: byte): (s: seq<byte>)
    decreases hi - lo
  {
    if lo >= hi then [] else [lo + 1] + Span(lo + 1, hi)
  }

  function ClassBytes(items: seq<ClassItem>): seq<byte> {
    if |items| == 0 then [] else ClassBytes(items[..|items| - 1]) + ItemBytes(items[|items| - 1])
  }

  function AtomLen(a: Atom): nat {
    match a
    case Class(_, items) => 4 + |ClassBytes(items)|
    case Lit(text, _) => 4 + |text|
    case Group(_, bs) => 6 + AltsLen(bs)
    case _ => 3
  }

  function PieceLen(p: Piece): nat {
    match p.mult
    case One => AtomLen(p.atom)
    case ZeroOrMore => AtomLen(p.atom) + if SimpleAtom(p.atom) then 3 else 12
    case OneOrMore => AtomLen(p.atom) + if SimpleAtom(p.atom) then 3 else 12
    case ZeroOrOne => AtomLen(p.atom) + 9
  }

  function PiecesLen(ps: seq<Piece>): nat
    decreases ps, 0
  {
    if |ps| == 0 then 0 else PieceLen(ps[0]) + PiecesLen(ps[1..])
  }

  function BodyLen(ps: seq<Piece>): nat
    decreases ps, 1
  {
    if |ps| == 0 then 3 else PiecesLen(ps)
  }

  function AltsLen(bs: seq<Branch>): nat {
    if |bs| == 0 then 0 else 3 + BodyLen(bs[0].pieces) + AltsLen(bs[1..])
  }

  function OpOf(a: Atom): byte {
    match a
    case Bol => BOL
    case Eol => EOL
    case Any => ANY
    case Class(neg, _) => if neg then ANYBUT else ANYOF
    case Lit(_, _) => EXACTLY
    case Group(no, _) => if no < NSUBEXP then OPEN + no else OPEN
  }

  function CloseOf(no: nat): byte {
    if no < NSUBEXP then CLOSE + no else CLOSE
  }

  function Operand(a: Atom): seq<byte> {
    match a
    case Class(_, items) => ClassBytes(items) + [0]
    case Lit(text, _) => text + [0]
    case _ => []
  }

  function AtomCode(a: Atom, d: int): (c: seq<byte>)
    ensures |c| == AtomLen(a)
  {
    match a
    case Group(no, bs) => Node(OpOf(a), 3) + AltsCode(bs) + Node(CloseOf(no), TailLink(3, d))
    case _ => Node(OpOf(a), TailLink(AtomLen(a), d)) + Operand(a)
  }

  /** `x*` and `x+` for a simple operand `x`: one node in front of it. */
  function RepeatCode(op: byte, x: seq<byte>, d: int): (c: seq<byte>)
    ensures |c| == |x| + 3
  {
    Node(op, TailLink(3 + |x|, d)) + x
  }

  /** The end of every construct with alternatives: an empty last branch. */
  function EmptyBranch(d: int): (c: seq<byte>)
    ensures |c| == 6
  {
    Node(BRANCH, 3) + Node(NOTHING, TailLink(3, d))
  }

  /** `x*` as (x&|), where & loops back to the first BRANCH */
  function StarCode(x: seq<byte>, d: int): (c: seq<byte>)
    ensures |c| == |x| + 12
  {
    Node(BRANCH, |x| + 6) + x + Node(BACK, |x| + 3) + EmptyBranch(d)
  }

  /** `x+` as x(&|), where & loops back to x */
  function PlusCode(x: seq<byte>, d: int): (c: seq<byte>)
    ensures |c| == |x| + 12
  {
    x + Node(BRANCH, 6) + Node(BACK, |x| + 3) + EmptyBranch(d)
  }

  /** `x?` as (x|) */
  function OptCode(x: seq<byte>, d: int): (c: seq<byte>)
    ensures |c| == |x| + 9
  {
    Node(BRANCH, |x| + 3) + x + EmptyBranch(d)
  }

  function PieceCode(p: Piece, d: int): (c: seq<byte>)
    ensures |c| == PieceLen(p)
  {
    match p.mult
    case One => AtomCode(p.atom, d)
    case ZeroOrMore =>
      if SimpleAtom(p.atom) then RepeatCode(STARNODE, AtomCode(p.atom, -1), d) else StarCode(AtomCode(p.atom, 0), d)
    case OneOrMore =>
      if SimpleAtom(p.atom) then RepeatCode(PLUSNODE, AtomCode(p.atom, -1), d) else PlusCode(AtomCode(p.atom, 0), d)
    case ZeroOrOne => OptCode(AtomCode(p.atom, 3), d)
  }

  /** Pieces one after the other, each linked to the next. */
  function PiecesCode(ps: seq<Piece>, d: int): (c: seq<byte>)
    ensures |c| == PiecesLen(ps)
    decreases ps, 0
  {
    if |ps| == 0 then []
    else if |ps| == 1 then PieceCode(ps[0], d)
    else PieceCode(ps[0], 0) + PiecesCode(ps[1..], d)
  }

  function BodyCode(ps: seq<Piece>, d: int): (c: seq<byte>)
    ensures |c| == BodyLen(ps)
    decreases ps, 1
  {
    if |ps| == 0 then Node(NOTHING, TailLink(3, d)) else PiecesCode(ps, d)
  }

  /** The finished branches of a choice: all tails link to the byte behind the last branch. */
  function AltsCode(bs: seq<Branch>): (c: seq<byte>)
    ensures |c| == AltsLen(bs)
  {
    if |bs| == 0 then []
    else
      Node(BRANCH, 3 + BodyLen(bs[0].pieces)) + BodyCode(bs[0].pieces, AltsLen(bs[1..])) + AltsCode(bs[1..])
  }

  /** The branches of a choice while it is being parsed: no tail is linked, and the last BRANCH is not. */
  function OpenAlts(bs: seq<Branch>): (c: seq<byte>)
    ensures |c| == AltsLen(bs)
  {
    if |bs| == 0 then []
    else
      Node(BRANCH, if |bs| == 1 then 0 else 3 + BodyLen(bs[0].pieces)) + BodyCode(bs[0].pieces, -1) + OpenAlts(bs[1..])
  }

  /** The branches of a choice when all BRANCH nodes and the tails of the first `k` branches are linked. */
  function HookedAlts(bs: seq<Branch>, k: nat): (c: seq<byte>)
    ensures |c| == AltsLen(bs)
  {
    if |bs| == 0 then []
    else
      Node(BRANCH, 3 + BodyLen(bs[0].pieces))
      + BodyCode(bs[0].pieces, if k > 0 then AltsLen(bs[1..]) else -1)
      + HookedAlts(bs[1..], if k > 0 then k - 1 else 0)
  }

  // ------------------------------------------------------------- links

  function LinkAt(c: seq<byte>, q: nat): nat
    requires q + 3 <= |c|
  {
    256 * (c[q + 1] as int) + c[q + 2] as int
  }

  function SetLink(c: seq<byte>, q: nat, off: nat): (r: seq<byte>)
    requires q + 3 <= |c|
    ensures |r| == |c|
  {
    c[..q] + Node(c[q], off) + c[q + 3..]
  }

  /** Following forward links from `p` ends at `q`, whose link is null. */
  ghost predicate ChainTo(c: seq<byte>, p: nat, q: nat)
    decreases q - p
  {
    p <= q && q + 3 <= |c| &&
    if p == q then LinkAt(c, q) == 0
    else c[p] != BACK && 3 <= LinkAt(c, p) <= q - p && ChainTo(c, p + LinkAt(c, p), q)
  }

  lemma NodeLink(op: byte, off: nat)
    requires off < 0x1_0000
    ensures Node(op, off)[0] == op && LinkAt(Node(op, off), 0) == off
  {
  }

  lemma LinkInside(pre: seq<byte>, c: seq<byte>, post: seq<byte>, q: nat)
    requires q + 3 <= |c|
    ensures (pre + c + post)[|pre| + q] == c[q] && LinkAt(pre + c + post, |pre| + q) == LinkAt(c, q)
  {
  }

  /** A chain and a patch inside a fragment do not depend on what surrounds the fragment. */
  lemma {:induction false} ChainInside(pre: seq<byte>, c: seq<byte>, post: seq<byte>, p: nat, q: nat)
    requires ChainTo(c, p, q)
    ensures ChainTo(pre + c + post, |pre| + p, |pre| + q)
    decreases q - p
  {
    var w := pre + c + post;
    assert w[|pre| + p..|pre| + p + 3] == c[p..p + 3];
    assert w[|pre| + p + 1] == c[p + 1] && w[|pre| + p + 2] == c[p + 2] && w[|pre| + p] == c[p];
    if p < q {
      ChainInside(pre, c, post, p + LinkAt(c, p), q);
    }
  }

  lemma PatchInside(pre: seq<byte>, c: seq<byte>, post: seq<byte>, q: nat, off: nat)
    requires q + 3 <= |c|
    ensures SetLink(pre + c + post, |pre| + q, off) == pre + SetLink(c, q, off) + post
  {
    var w := pre + c + post;
    assert w[|pre| + q] == c[q];
    assert w[..|pre| + q] == pre + c[..q];
    assert w[|pre| + q + 3..] == c[q + 3..] + post;
  }

  /** Linking the tail of a chain to the fragment behind it makes one chain of two. */
  lemma {:induction false} ChainJoin(c: seq<byte>, p: nat, t: nat, rest: seq<byte>, q: nat)
    requires ChainTo(c, p, t) && c[t] != BACK && ChainTo(rest, 0, q) && |c| < 0x1_0000
    ensures ChainTo(SetLink(c, t, |c| - t) + rest, p, |c| + q)
    decreases t - p
  {
    var w := SetLink(c, t, |c| - t) + rest;
    if p == t {
      NodeLink(c[t], |c| - t);
      assert w[t] == c[t] && w[t + 1] == Node(c[t], |c| - t)[1] && w[t + 2] == Node(c[t], |c| - t)[2];
      assert w == SetLink(c, t, |c| - t) + rest + [];
      ChainInside(SetLink(c, t, |c| - t), rest, [], 0, q);
    } else {
      ChainJoin(c, p + LinkAt(c, p), t, rest, q);
      assert w[p] == c[p] && w[p + 1] == c[p + 1] && w[p + 2] == c[p + 2];
    }
  }

  /** `t` is the tail of the chain that starts at `p` of `c`, and linking it by `off` gives `r`. */
  ghost predicate Hooks(c: seq<byte>, p: nat, t: nat, off: nat, r: seq<byte>) {
    p + t + 3 <= |c| && ChainTo(c, p, p + t) && c[p + t] != BACK && SetLink(c, p + t, off) == r
  }

  lemma HooksInside(pre: seq<byte>, c: seq<byte>, post: seq<byte>, p: nat, t: nat, off: nat, r: seq<byte>)
    requires Hooks(c, p, t, off, r)
    ensures Hooks(pre + c + post, |pre| + p, t, off, pre + r + post)
  {
    ChainInside(pre, c, post, p, p + t);
    PatchInside(pre, c, post, p + t, off);
    LinkInside(pre, c, post, p + t);
  }

  /** A node in front of a chain it links to. */
  lemma ChainCons(op: byte, off: nat, between: seq<byte>, rest: seq<byte>, q: nat)
    requires op != BACK && off == 3 + |between| < 0x1_0000 && ChainTo(rest, 0, q)
    ensures ChainTo(Node(op, off) + between + rest, 0, off + q)
  {
    var w := Node(op, off) + between + rest;
    assert w == (Node(op, off) + between) + rest + [];
    ChainInside(Node(op, off) + between, rest, [], 0, q);
    NodeLink(op, off);
    assert w[0] == op && w[1] == Node(op, off)[1] && w[2] == Node(op, off)[2];
  }

  // ------------------------------------------- tails of the fragments

  function AtomTail(a: Atom): (t: nat)
    ensures t + 3 <= AtomLen(a)
  {
    if a.Group? then AtomLen(a) - 3 else 0
  }

  function PieceTail(p: Piece): (t: nat)
    ensures t + 3 <= PieceLen(p)
  {
    if p.mult == One then AtomTail(p.atom)
    else if SimpleAtom(p.atom) && p.mult != ZeroOrOne then 0
    else PieceLen(p) - 3
  }

  function PiecesTail(ps: seq<Piece>): (t: nat)
    requires |ps| > 0
    ensures t + 3 <= PiecesLen(ps)
  {
    if |ps| == 1 then PieceTail(ps[0]) else PieceLen(ps[0]) + PiecesTail(ps[1..])
  }

  function BodyTail(ps: seq<Piece>): (t: nat)
    ensures t + 3 <= BodyLen(ps)
  {
    if |ps| == 0 then 0 else PiecesTail(ps)
  }

  lemma AltsCodeFirst(bs: seq<Branch>)
    requires |bs| > 0
    ensures AltsCode(bs) == Node(BRANCH, 3 + BodyLen(bs[0].pieces)) + BodyCode(bs[0].pieces, AltsLen(bs[1..])) + AltsCode(bs[1..])
    ensures AltsLen(bs) == 3 + BodyLen(bs[0].pieces) + AltsLen(bs[1..])
  {
    hide BodyCode, BodyLen, Node;
  }

  lemma NoAltsChain(bs: seq<Branch>, ender: seq<byte>)
    requires bs == [] && |ender| == 3 && LinkAt(ender, 0) == 0
    ensures ChainTo(AltsCode(bs) + ender, 0, AltsLen(bs))
  {
    assert AltsCode(bs) + ender == ender;
  }

  lemma {:induction false} AltsChain(bs: seq<Branch>, ender: seq<byte>)
    requires |ender| == 3 && LinkAt(ender, 0) == 0 && AltsLen(bs) < 0x1_0000
    ensures ChainTo(AltsCode(bs) + ender, 0, AltsLen(bs))
  {
    hide BodyCode, BodyLen, Node, ChainTo, AltsCode, AltsLen;
    if |bs| == 0 {
      NoAltsChain(bs, ender);
    } else {
      var len := BodyLen(bs[0].pieces);
      var head, body := Node(BRANCH, 3 + len), BodyCode(bs[0].pieces, AltsLen(bs[1..]));
      var rest := AltsCode(bs[1..]) + ender;
      AltsCodeFirst(bs);
      AltsChain(bs[1..], ender);
      ChainCons(BRANCH, 3 + len, body, rest, AltsLen(bs[1..]));
      assert AltsCode(bs) + ender == head + body + rest;
    }
  }

  /** Patching the tail of an unlinked atom gives the linked atom. */
  lemma {:induction false} AtomHook(a: Atom, d: nat)
    requires AtomLen(a) < 0x1_0000
    ensures Hooks(AtomCode(a, -1), 0, AtomTail(a), AtomLen(a) - AtomTail(a) + d, AtomCode(a, d))
  {
    if a.Group? {
      GroupHook(a, d);
    } else {
      hide Hooks, Node, Operand;
      HookNew(OpOf(a), Operand(a), AtomLen(a) + d);
    }
  }

  /** The branches of a choice, with the tail of the node that closes them. */
  lemma AltsClose(bs: seq<Branch>, op: byte, off: nat)
    requires AltsLen(bs) < 0x1_0000 && op != BACK
    ensures Hooks(AltsCode(bs) + Node(op, 0), 0, AltsLen(bs), off, AltsCode(bs) + Node(op, off))
  {
    hide AltsCode, AltsLen;
    NodeLink(op, 0);
    AltsChain(bs, Node(op, 0));
    PatchBehind(AltsCode(bs), Node(op, 0), 0, off);
    LinkInside(AltsCode(bs), Node(op, 0), [], 0);
    assert AltsCode(bs) + Node(op, 0) + [] == AltsCode(bs) + Node(op, 0);
    assert SetLink(Node(op, 0), 0, off) == Node(op, off);
  }

  lemma GroupHook(a: Atom, d: nat)
    requires AtomLen(a) < 0x1_0000 && a.Group?
    ensures Hooks(AtomCode(a, -1), 0, AtomTail(a), AtomLen(a) - AtomTail(a) + d, AtomCode(a, d))
  {
    hide AltsCode, AltsLen, Node, Hooks;
    var open, alts := Node(OpOf(a), 3), AltsCode(a.alts);
    AltsClose(a.alts, CloseOf(a.no), 3 + d);
    HookVia(OpOf(a), [], alts + Node(CloseOf(a.no), 0), AltsLen(a.alts), 3 + d, alts + Node(CloseOf(a.no), 3 + d));
    assert open + [] == open;
    assert AtomCode(a, -1) == open + (alts + Node(CloseOf(a.no), 0));
    assert AtomCode(a, d) == open + (alts + Node(CloseOf(a.no), 3 + d));
  }

  lemma EmptyBranchHook(d: nat)
    ensures Hooks(EmptyBranch(-1), 0, 3, 3 + d, EmptyBranch(d))
  {
    var c := EmptyBranch(-1);
    assert c == Node(BRANCH, 3) + [] + Node(NOTHING, 0);
    ChainCons(BRANCH, 3, [], Node(NOTHING, 0), 0);
    assert c == Node(BRANCH, 3) + Node(NOTHING, 0) + [];
    PatchInside(Node(BRANCH, 3), Node(NOTHING, 0), [], 0, 3 + d);
  }

  lemma RepeatHook(op: byte, x: seq<byte>, d: nat)
    requires op != BACK
    ensures Hooks(RepeatCode(op, x, -1), 0, 0, |x| + 3 + d, RepeatCode(op, x, d))
  {
    var w := RepeatCode(op, x, -1);
    assert w[0] == op && w[1] == 0 && w[2] == 0;
  }

  lemma StarHook(x: seq<byte>, d: nat)
    requires |x| + 12 < 0x1_0000
    ensures Hooks(StarCode(x, -1), 0, |x| + 9, 3 + d, StarCode(x, d))
  {
    EmptyBranchHook(d);
    var between := x + Node(BACK, |x| + 3);
    assert StarCode(x, -1) == Node(BRANCH, |x| + 6) + between + EmptyBranch(-1);
    ChainCons(BRANCH, |x| + 6, between, EmptyBranch(-1), 3);
    LastHook(Node(BRANCH, |x| + 6) + x + Node(BACK, |x| + 3), d);
  }

  /** Patching the NOTHING node that ends a construct. */
  lemma LastHook(head: seq<byte>, d: nat)
    ensures (head + EmptyBranch(-1))[|head| + 3] != BACK
    ensures SetLink(head + EmptyBranch(-1), |head| + 3, 3 + d) == head + EmptyBranch(d)
  {
    EmptyBranchHook(d);
    assert head + EmptyBranch(-1) == head + EmptyBranch(-1) + [];
    PatchInside(head, EmptyBranch(-1), [], 3, 3 + d);
  }

  /** `x` is the operand with its tail unlinked, `t` that tail, and `x0` the operand linked to what follows it. */
  lemma PlusHook(x: seq<byte>, t: nat, x0: seq<byte>, d: nat)
    requires t + 3 <= |x| && Hooks(x, 0, t, |x| - t, x0) && |x| + 12 < 0x1_0000
    ensures |x0| == |x| && Hooks(PlusCode(x0, -1), 0, |x| + 9, 3 + d, PlusCode(x0, d))
  {
    EmptyBranchHook(d);
    var back := Node(BACK, |x| + 3);
    var rest := Node(BRANCH, 6) + back + EmptyBranch(-1);
    ChainCons(BRANCH, 6, back, EmptyBranch(-1), 3);
    ChainJoin(x, 0, t, rest, 9);
    assert PlusCode(x0, -1) == x0 + rest;
    LastHook(x0 + Node(BRANCH, 6) + back, d);
  }

  lemma OptHook(x: seq<byte>, d: nat)
    requires |x| + 9 < 0x1_0000
    ensures Hooks(OptCode(x, -1), 0, |x| + 6, 3 + d, OptCode(x, d))
  {
    EmptyBranchHook(d);
    ChainCons(BRANCH, |x| + 3, x, EmptyBranch(-1), 3);
    LastHook(Node(BRANCH, |x| + 3) + x, d);
  }

  lemma PieceHook(p: Piece, d: nat)
    requires PieceLen(p) < 0x1_0000
    ensures Hooks(PieceCode(p, -1), 0, PieceTail(p), PieceLen(p) - PieceTail(p) + d, PieceCode(p, d))
  {
    hide AtomCode, Hooks, StarCode, PlusCode, OptCode, RepeatCode, AtomLen, AtomTail;
    var a := p.atom;
    match p.mult {
      case One => AtomHook(a, d);
      case ZeroOrMore =>
        if SimpleAtom(a) { RepeatHook(STARNODE, AtomCode(a, -1), d); } else { StarHook(AtomCode(a, 0), d); }
      case OneOrMore =>
        if SimpleAtom(a) {
          RepeatHook(PLUSNODE, AtomCode(a, -1), d);
        } else {
          AtomHook(a, 0);
          PlusHook(AtomCode(a, -1), AtomTail(a), AtomCode(a, 0), d);
        }
      case ZeroOrOne => OptHook(AtomCode(a, 3), d);
    }
  }

  lemma PiecesFirst(ps: seq<Piece>, d: int)
    requires |ps| > 0
    ensures PiecesCode(ps, d) == if |ps| == 1 then PieceCode(ps[0], d) else PieceCode(ps[0], 0) + PiecesCode(ps[1..], d)
    ensures PiecesLen(ps) == PieceLen(ps[0]) + if |ps| == 1 then 0 else PiecesLen(ps[1..])
    ensures PiecesTail(ps) == if |ps| == 1 then PieceTail(ps[0]) else PieceLen(ps[0]) + PiecesTail(ps[1..])
  {
    hide PieceCode, PieceLen, PieceTail;
  }

  lemma {:induction false} PiecesHook(ps: seq<Piece>, d: nat)
    requires |ps| > 0 && PiecesLen(ps) < 0x1_0000
    ensures Hooks(PiecesCode(ps, -1), 0, PiecesTail(ps), PiecesLen(ps) - PiecesTail(ps) + d, PiecesCode(ps, d))
  {
    hide Hooks, PieceCode, PieceTail, PieceLen, PiecesCode, PiecesLen, PiecesTail;
    var p := ps[0];
    PiecesFirst(ps, -1);
    PiecesFirst(ps, d);
    if |ps| == 1 {
      PieceHook(p, d);
    } else {
      PieceHook(p, 0);
      PiecesHook(ps[1..], d);
      HookAfter(PieceCode(p, -1), PieceTail(p), PieceCode(p, 0), PiecesCode(ps[1..], -1), PiecesTail(ps[1..]),
                PiecesLen(ps) - PiecesTail(ps) + d, PiecesCode(ps[1..], d));
    }
  }

  lemma {:induction false} BodyHook(ps: seq<Piece>, d: nat)
    requires BodyLen(ps) < 0x1_0000
    ensures Hooks(BodyCode(ps, -1), 0, BodyTail(ps), BodyLen(ps) - BodyTail(ps) + d, BodyCode(ps, d))
  {
    if |ps| > 0 {
      hide Hooks, PiecesCode, PiecesTail, PiecesLen;
      PiecesHook(ps, d);
    }
  }

  // -------------------------------------------------- growing a fragment

  lemma {:induction false} PiecesSnoc(ps: seq<Piece>, q: Piece, d: int)
    ensures PiecesLen(ps + [q]) == PiecesLen(ps) + PieceLen(q)
    ensures PiecesCode(ps + [q], d) == PiecesCode(ps, 0) + PieceCode(q, d)
  {
    var all := ps + [q];
    if |ps| == 0 {
      assert all[1..] == [];
    } else {
      assert all[1..] == ps[1..] + [q];
      PiecesSnoc(ps[1..], q, d);
      if |ps| == 1 {
        assert ps[1..] == [];
      }
    }
  }

  lemma {:induction false} AltsSnoc(bs: seq<Branch>, b: Branch)
    ensures AltsLen(bs + [b]) == AltsLen(bs) + 3 + BodyLen(b.pieces)
  {
    var all := bs + [b];
    if |bs| > 0 {
      assert all[1..] == bs[1..] + [b];
      AltsSnoc(bs[1..], b);
    } else {
      assert all[1..] == [];
    }
  }

  // ---------------------------------------- hooking the branches of a choice

  /** Position of branch `k`; position `|bs|` is the byte behind the last branch. */
  function BranchPos(bs: seq<Branch>, k: nat): (pos: nat)
    requires k <= |bs|
    ensures pos <= AltsLen(bs)
    ensures k == |bs| ==> pos == AltsLen(bs)
    ensures k < |bs| ==> pos + 3 + BodyLen(bs[k].pieces) <= AltsLen(bs)
  {
    if k == 0 then 0 else 3 + BodyLen(bs[0].pieces) + BranchPos(bs[1..], k - 1)
  }

  lemma OpenFirst(bs: seq<Branch>)
    requires |bs| > 0
    ensures var body := BodyCode(bs[0].pieces, -1);
      OpenAlts(bs) == if |bs| == 1 then Node(BRANCH, 0) + body else Node(BRANCH, 3 + |body|) + body + OpenAlts(bs[1..])
    ensures AltsLen(bs) == 3 + BodyLen(bs[0].pieces) + AltsLen(bs[1..]) && (|bs| == 1 ==> AltsLen(bs[1..]) == 0)
  {
    hide BodyCode, BodyLen, Node;
    if |bs| == 1 {
      var c := Node(BRANCH, 0) + BodyCode(bs[0].pieces, -1);
      assert bs[1..] == [] && c + [] == c;
    }
  }

  lemma OneOpen(body: seq<byte>)
    ensures ChainTo(Node(BRANCH, 0) + body, 0, 0) && (Node(BRANCH, 0) + body)[0] == BRANCH
  {
    var w := Node(BRANCH, 0) + body;
    assert w[0] == BRANCH && w[1] == 0 && w[2] == 0;
  }

  lemma {:induction false} OpenChain(bs: seq<Branch>)
    requires |bs| > 0 && AltsLen(bs) < 0x1_0000
    ensures ChainTo(OpenAlts(bs), 0, BranchPos(bs, |bs| - 1))
    ensures OpenAlts(bs)[BranchPos(bs, |bs| - 1)] == BRANCH
  {
    hide BodyCode, BodyLen, Node, ChainTo, OpenAlts, AltsLen, BranchPos;
    var body := BodyCode(bs[0].pieces, -1);
    OpenFirst(bs);
    BranchPosFirst(bs, |bs| - 1);
    if |bs| == 1 {
      OneOpen(body);
    } else {
      OpenChain(bs[1..]);
      ChainCons(BRANCH, 3 + |body|, body, OpenAlts(bs[1..]), BranchPos(bs[1..], |bs| - 2));
    }
  }

  lemma FirstLink(body: seq<byte>, rest: seq<byte>)
    ensures SetLink(Node(BRANCH, 0) + body + rest, 0, 3 + |body|) == Node(BRANCH, 3 + |body|) + body + rest
  {
    var w := Node(BRANCH, 0) + body + rest;
    assert w[..0] + Node(w[0], 3 + |body|) + w[3..] == Node(BRANCH, 3 + |body|) + body + rest;
  }

  /** Linking the last BRANCH of a choice leaves only the tails of its branches unlinked. */
  lemma NoneHooked(bs: seq<Branch>)
    requires bs == []
    ensures HookedAlts(bs, 0) == []
  {
  }

  lemma {:induction false} OpenClose(bs: seq<Branch>)
    requires |bs| > 0
    ensures LinkedAlts(bs) == HookedAlts(bs, 0)
  {
    hide BodyCode, BodyLen, SetLink, Node, BranchPos, AltsLen, OpenAlts, HookedAlts;
    var body := BodyCode(bs[0].pieces, -1);
    OpenFirst(bs);
    BranchPosFirst(bs, |bs| - 1);
    var node, b := HookedFirst(bs, 0);
    if |bs| == 1 {
      FirstLink(body, []);
      NoneHooked(bs[1..]);
      assert OpenAlts(bs) == Node(BRANCH, 0) + body + [];
    } else {
      var rest := OpenAlts(bs[1..]);
      OpenClose(bs[1..]);
      PatchBehind(node + body, rest, BranchPos(bs[1..], |bs| - 2), AltsLen(bs[1..]) - BranchPos(bs[1..], |bs| - 2));
    }
  }

  lemma PatchBehind(pre: seq<byte>, c: seq<byte>, q: nat, off: nat)
    requires q + 3 <= |c|
    ensures SetLink(pre + c, |pre| + q, off) == pre + SetLink(c, q, off)
  {
    PatchInside(pre, c, [], q, off);
    assert pre + c + [] == pre + c && pre + SetLink(c, q, off) + [] == pre + SetLink(c, q, off);
  }

  /** A linked choice with one more branch behind it. */
  lemma OpenExtend(bs: seq<Branch>, b: Branch)
    requires |bs| > 0
    ensures LinkedAlts(bs) + OpenAlts([b]) == OpenAlts(bs + [b])
  {
    hide BodyCode, BodyLen, LinkedAlts, Node;
    OpenClose(bs);
    HookedExtend(bs, b);
  }

  lemma {:induction false} HookedExtend(bs: seq<Branch>, b: Branch)
    requires |bs| > 0
    ensures HookedAlts(bs, 0) + OpenAlts([b]) == OpenAlts(bs + [b])
  {
    hide BodyCode, BodyLen, Node;
    var all := bs + [b];
    assert all[1..] == bs[1..] + [b] && all[0] == bs[0];
    if |bs| == 1 {
      assert bs[1..] + [b] == [b] && HookedAlts(bs[1..], 0) == [];
    } else {
      HookedExtend(bs[1..], b);
    }
  }

  lemma {:induction false} BranchPosNext(bs: seq<Branch>, j: nat)
    requires j < |bs|
    ensures BranchPos(bs, j + 1) == BranchPos(bs, j) + 3 + BodyLen(bs[j].pieces)
  {
    hide BodyLen;
    if j > 0 {
      BranchPosNext(bs[1..], j - 1);
    }
  }

  /** BRANCH nodes of a hooked choice are linked one to the next, the last to the end of the choice. */
  lemma {:induction false} HookNode(bs: seq<Branch>, k: nat, j: nat)
    requires j < |bs| && AltsLen(bs) < 0x1_0000
    ensures var c, pos := HookedAlts(bs, k), BranchPos(bs, j);
      c[pos] == BRANCH && LinkAt(c, pos) == BranchPos(bs, j + 1) - pos
  {
    hide BodyCode, BodyLen, Node, LinkAt, HookedAlts, AltsLen, BranchPos;
    var len := BodyLen(bs[0].pieces);
    var node, body := HookedFirst(bs, k);
    var rest := HookedAlts(bs[1..], if k > 0 then k - 1 else 0);
    NodeLink(BRANCH, 3 + len);
    BranchPosFirst(bs, j);
    BranchPosFirst(bs, j + 1);
    if j == 0 {
      BranchPosFirst(bs[1..], 0);
      assert HookedAlts(bs, k) == [] + node + (body + rest);
      LinkInside([], node, body + rest, 0);
    } else {
      var pos := BranchPos(bs[1..], j - 1);
      HookNode(bs[1..], if k > 0 then k - 1 else 0, j - 1);
      assert HookedAlts(bs, k) == (node + body) + rest + [];
      LinkInside(node + body, rest, [], pos);
    }
  }

  /** A hooked choice is its first BRANCH node and body, and the choice among the others. */
  lemma HookedFirst(bs: seq<Branch>, k: nat) returns (node: seq<byte>, body: seq<byte>)
    requires |bs| > 0
    ensures node == Node(BRANCH, 3 + BodyLen(bs[0].pieces))
    ensures body == BodyCode(bs[0].pieces, if k > 0 then AltsLen(bs[1..]) else -1) && |body| == BodyLen(bs[0].pieces)
    ensures HookedAlts(bs, k) == node + body + HookedAlts(bs[1..], if k > 0 then k - 1 else 0)
    ensures AltsLen(bs) == 3 + BodyLen(bs[0].pieces) + AltsLen(bs[1..])
  {
    hide BodyCode, BodyLen, Node;
    node := Node(BRANCH, 3 + BodyLen(bs[0].pieces));
    body := BodyCode(bs[0].pieces, if k > 0 then AltsLen(bs[1..]) else -1);
  }

  lemma BranchPosFirst(bs: seq<Branch>, k: nat)
    requires k <= |bs|
    ensures BranchPos(bs, k) == if k == 0 then 0 else 3 + BodyLen(bs[0].pieces) + BranchPos(bs[1..], k - 1)
  {
    hide BodyLen;
  }

  /** Nothing, or an OPEN node linked to the byte behind it. */
  ghost predicate IsOpen(h: seq<byte>) {
    h == [] || exists op: byte :: op != BACK && op != BRANCH && h == Node(op, 3)
  }

  lemma IsOpenEmpty()
    ensures IsOpen([])
  {
  }

  /** Open alternatives with all BRANCH nodes linked. */
  function LinkedAlts(bs: seq<Branch>): (c: seq<byte>)
    requires |bs| > 0
    ensures |c| == AltsLen(bs)
  {
    var q := BranchPos(bs, |bs| - 1);
    SetLink(OpenAlts(bs), q, AltsLen(bs) - q)
  }

  lemma HookBehindOpen(h: seq<byte>, c: seq<byte>, t: nat, off: nat, r: seq<byte>)
    requires IsOpen(h) && Hooks(c, 0, t, off, r)
    ensures Hooks(h + c, 0, |h| + t, off, h + r)
  {
    hide Hooks, Node;
    if h == [] {
      assert h + c == c && h + r == r;
    } else {
      var op: byte :| op != BACK && op != BRANCH && h == Node(op, 3);
      HookVia(op, [], c, t, off, r);
      assert Node(op, 3) + [] == h;
    }
  }

  lemma {:induction false} AltsHook(pre: seq<byte>, h: seq<byte>, bs: seq<Branch>, rest: seq<byte>)
    requires |bs| > 0 && IsOpen(h) && AltsLen(bs) < 0x1_0000
    ensures var q := BranchPos(bs, |bs| - 1);
      Hooks(pre + (h + OpenAlts(bs) + rest), |pre|, |h| + q, AltsLen(bs) - q, pre + (h + LinkedAlts(bs) + rest))
  {
    hide OpenAlts, AltsLen, BranchPos, Node, ChainTo, IsOpen;
    var q := BranchPos(bs, |bs| - 1);
    var off := AltsLen(bs) - q;
    OpenChain(bs);
    assert Hooks(OpenAlts(bs), 0, q, off, LinkedAlts(bs));
    hide Hooks, LinkedAlts;
    HookBehindOpen(h, OpenAlts(bs), q, off, LinkedAlts(bs));
    HooksInside(pre, h + OpenAlts(bs), rest, 0, |h| + q, off, h + LinkedAlts(bs));
    assert pre + (h + OpenAlts(bs)) + rest == pre + (h + OpenAlts(bs) + rest);
    assert pre + (h + LinkedAlts(bs)) + rest == pre + (h + LinkedAlts(bs) + rest);
  }

  lemma {:induction false} HookFirst(bs: seq<Branch>)
    requires 0 < |bs| && AltsLen(bs) < 0x1_0000
    ensures var t := BodyTail(bs[0].pieces); Hooks(HookedAlts(bs, 0), 3, t, AltsLen(bs) - 3 - t, HookedAlts(bs, 1))
  {
    hide BodyCode, BodyLen, BodyTail, Node, Hooks;
    var ps := bs[0].pieces;
    var node := Node(BRANCH, 3 + BodyLen(ps));
    var t := BodyTail(ps);
    var d := AltsLen(bs[1..]);
    BodyHook(ps, d);
    HooksInside(node, BodyCode(ps, -1), HookedAlts(bs[1..], 0), 0, t, BodyLen(ps) - t + d, BodyCode(ps, d));
  }

  /** One step of the loop that hooks the tails of the branches to the closing node. */
  lemma {:induction false} HookStep(bs: seq<Branch>, k: nat)
    requires k < |bs| && AltsLen(bs) < 0x1_0000
    ensures var p, t := BranchPos(bs, k) + 3, BodyTail(bs[k].pieces);
      Hooks(HookedAlts(bs, k), p, t, AltsLen(bs) - p - t, HookedAlts(bs, k + 1))
  {
    hide BodyCode, BodyLen, BodyTail, Node, Hooks, HookedAlts, AltsLen, BranchPos;
    BranchPosFirst(bs, k);
    if k == 0 {
      HookFirst(bs);
    } else {
      var rest := HookedAlts(bs[1..], k - 1);
      var node, body := HookedFirst(bs, k);
      var _, _ := HookedFirst(bs, k + 1);
      var head := node + body;
      var t := BodyTail(bs[k].pieces);
      var pos := BranchPos(bs[1..], k - 1) + 3;
      var off := AltsLen(bs[1..]) - pos - t;
      HookStep(bs[1..], k - 1);
      HooksInside(head, rest, [], pos, t, off, HookedAlts(bs[1..], k));
      assert head + rest + [] == HookedAlts(bs, k);
      assert head + HookedAlts(bs[1..], k) + [] == HookedAlts(bs, k + 1);
    }
  }

  lemma {:induction false} HookedAll(bs: seq<Branch>)
    ensures HookedAlts(bs, |bs|) == AltsCode(bs)
  {
    hide BodyCode, BodyLen;
    if |bs| > 0 {
      HookedAll(bs[1..]);
    }
  }

  // ----------------------------- the steps that build x*, x+ and x? around x

  /** Like Hooks, for a chain that ends at a BACK node, whose link counts backwards. */
  ghost predicate HooksBack(c: seq<byte>, p: nat, t: nat, off: nat, r: seq<byte>) {
    p + t + 3 <= |c| && ChainTo(c, p, p + t) && c[p + t] == BACK && SetLink(c, p + t, off) == r
  }

  lemma HooksBackInside(pre: seq<byte>, c: seq<byte>, post: seq<byte>, p: nat, t: nat, off: nat, r: seq<byte>)
    requires HooksBack(c, p, t, off, r)
    ensures HooksBack(pre + c + post, |pre| + p, t, off, pre + r + post)
  {
    ChainInside(pre, c, post, p, p + t);
    PatchInside(pre, c, post, p + t, off);
    LinkInside(pre, c, post, p + t);
  }

  /** A node with a null link, hooked to what lies `off` bytes further on. */
  lemma HookNew(op: byte, rest: seq<byte>, off: nat)
    requires op != BACK
    ensures Hooks(Node(op, 0) + rest, 0, 0, off, Node(op, off) + rest)
  {
    var w := Node(op, 0) + rest;
    assert w[0] == op && w[1] == 0 && w[2] == 0;
  }

  lemma HookBackNew(off: nat)
    ensures HooksBack(Node(BACK, 0), 0, 0, off, Node(BACK, off))
  {
    var w := Node(BACK, 0);
    assert w[0] == BACK && w[1] == 0 && w[2] == 0;
  }

  lemma HookBack(x: seq<byte>, t: nat, x0: seq<byte>, off: nat)
    requires t + 3 <= |x| < 0x1_0000 && Hooks(x, 0, t, |x| - t, x0)
    ensures |x0| == |x| && HooksBack(x0 + Node(BACK, 0), 0, |x|, off, x0 + Node(BACK, off))
  {
    var back := Node(BACK, 0);
    assert back[0] == BACK && back[1] == 0 && back[2] == 0;
    ChainJoin(x, 0, t, back, 0);
    assert x0 + back == x0 + back + [];
    PatchInside(x0, back, [], 0, off);
    assert SetLink(back, 0, off) == Node(BACK, off);
    LinkInside(x0, back, [], 0);
  }

  /** A hooked node in front of a fragment whose tail is hooked next. */
  lemma HookVia(op: byte, between: seq<byte>, rest: seq<byte>, t: nat, off: nat, rest': seq<byte>)
    requires op != BACK && 3 + |between| < 0x1_0000 && Hooks(rest, 0, t, off, rest')
    ensures var h := Node(op, 3 + |between|) + between; Hooks(h + rest, 0, |h| + t, off, h + rest')
  {
    var h := Node(op, 3 + |between|) + between;
    ChainCons(op, 3 + |between|, between, rest, t);
    assert h + rest == h + rest + [] && h + rest' == h + rest' + [];
    HooksInside(h, rest, [], 0, t, off, rest');
  }

  /** The same in front of a fragment `x` whose own tail is linked to `rest`. */
  lemma HookAfter(x: seq<byte>, s: nat, x0: seq<byte>, rest: seq<byte>, t: nat, off: nat, rest': seq<byte>)
    requires s + 3 <= |x| < 0x1_0000 && Hooks(x, 0, s, |x| - s, x0) && Hooks(rest, 0, t, off, rest')
    ensures |x0| == |x| && Hooks(x0 + rest, 0, |x| + t, off, x0 + rest')
  {
    ChainJoin(x, 0, s, rest, t);
    assert x0 + rest == x0 + rest + [] && x0 + rest' == x0 + rest' + [];
    HooksInside(x0, rest, [], 0, t, off, rest');
  }

  lemma HooksBehind(pre: seq<byte>, c: seq<byte>, p: nat, t: nat, off: nat, r: seq<byte>)
    requires Hooks(c, p, t, off, r)
    ensures Hooks(pre + c, |pre| + p, t, off, pre + r)
  {
    HooksInside(pre, c, [], p, t, off, r);
    assert pre + c + [] == pre + c && pre + r + [] == pre + r;
  }

  lemma HooksBackBehind(pre: seq<byte>, c: seq<byte>, p: nat, t: nat, off: nat, r: seq<byte>)
    requires HooksBack(c, p, t, off, r)
    ensures HooksBack(pre + c, |pre| + p, t, off, pre + r)
  {
    HooksBackInside(pre, c, [], p, t, off, r);
    assert pre + c + [] == pre + c && pre + r + [] == pre + r;
  }

  lemma HeadByte(pre: seq<byte>, op: byte, off: nat, rest: seq<byte>)
    ensures (pre + (Node(op, off) + rest))[|pre|] == op
  {
  }

  /** `x` with a BRANCH in front and a BACK behind it: what `x*` is made from. */
  function Loop(first: nat, x: seq<byte>, back: nat): (c: seq<byte>)
    ensures |c| == |x| + 6
  {
    Node(BRANCH, first) + (x + Node(BACK, back))
  }

  lemma StarSteps(pre: seq<byte>, x: seq<byte>, t: nat, x0: seq<byte>)
    requires t + 3 <= |x| < 0x1_0000 - 12 && Hooks(x, 0, t, |x| - t, x0)
    ensures |x0| == |x|
    ensures Hooks(pre + Loop(0, x, 0), |pre| + 3, t, |x| - t, pre + Loop(0, x0, 0))
    ensures HooksBack(pre + Loop(0, x0, 0), |pre| + 3, |x|, |x| + 3, pre + Loop(0, x0, |x| + 3))
    ensures Hooks(pre + (Loop(0, x0, |x| + 3) + Node(BRANCH, 0)), |pre|, 0, |x| + 6,
                  pre + (Loop(|x| + 6, x0, |x| + 3) + Node(BRANCH, 0)))
  {
    hide Hooks, HooksBack, Node;
    var b0, n0, len := Node(BRANCH, 0), Node(BACK, 0), |x|;
    var back := Node(BACK, len + 3);
    HookBack(x, t, x0, len + 3);
    HooksInside(b0, x, n0, 0, t, len - t, x0);
    assert b0 + x + n0 == Loop(0, x, 0) && b0 + x0 + n0 == Loop(0, x0, 0);
    HooksBehind(pre, Loop(0, x, 0), 3, t, len - t, Loop(0, x0, 0));
    HooksBackBehind(b0, x0 + n0, 0, len, len + 3, x0 + back);
    HooksBackBehind(pre, Loop(0, x0, 0), 3, len, len + 3, Loop(0, x0, len + 3));
    HookNew(BRANCH, x0 + back + b0, len + 6);
    assert b0 + (x0 + back + b0) == Loop(0, x0, len + 3) + b0;
    assert Node(BRANCH, len + 6) + (x0 + back + b0) == Loop(len + 6, x0, len + 3) + b0;
    HooksBehind(pre, Loop(0, x0, len + 3) + b0, 0, 0, len + 6, Loop(len + 6, x0, len + 3) + b0);
  }

  /** The last step of every construct: BRANCH, `between`, and an empty branch whose BRANCH is hooked to its NOTHING. */
  lemma LastStep(pre: seq<byte>, between: seq<byte>)
    requires |between| + 3 < 0x1_0000
    ensures var h := Node(BRANCH, 3 + |between|) + between;
      Hooks(pre + (h + (Node(BRANCH, 0) + Node(NOTHING, 0))), |pre|, |h|, 3, pre + (h + EmptyBranch(-1)))
  {
    hide Hooks, Node;
    var h := Node(BRANCH, 3 + |between|) + between;
    HookNew(BRANCH, Node(NOTHING, 0), 3);
    HookVia(BRANCH, between, Node(BRANCH, 0) + Node(NOTHING, 0), 0, 3, EmptyBranch(-1));
    HooksBehind(pre, h + (Node(BRANCH, 0) + Node(NOTHING, 0)), 0, |h|, 3, h + EmptyBranch(-1));
  }

  lemma StarLast(pre: seq<byte>, x0: seq<byte>)
    requires |x0| < 0x1_0000 - 12
    ensures Hooks(pre + (Loop(|x0| + 6, x0, |x0| + 3) + Node(BRANCH, 0) + Node(NOTHING, 0)), |pre|, |x0| + 6, 3,
                  pre + StarCode(x0, -1))
  {
    hide Hooks, Node, EmptyBranch;
    var between := x0 + Node(BACK, |x0| + 3);
    var h := Node(BRANCH, 3 + |between|) + between;
    LastStep(pre, between);
    assert h + (Node(BRANCH, 0) + Node(NOTHING, 0)) == Loop(|x0| + 6, x0, |x0| + 3) + Node(BRANCH, 0) + Node(NOTHING, 0);
    assert h + EmptyBranch(-1) == StarCode(x0, -1);
  }

  lemma PlusSteps(pre: seq<byte>, x: seq<byte>, t: nat, x0: seq<byte>)
    requires t + 3 <= |x| < 0x1_0000 - 12 && Hooks(x, 0, t, |x| - t, x0)
    ensures |x0| == |x|
    ensures Hooks(pre + x + Node(BRANCH, 0), |pre|, t, |x| - t, pre + x0 + Node(BRANCH, 0))
    ensures HooksBack(pre + x0 + Node(BRANCH, 0) + Node(BACK, 0), |pre| + |x| + 3, 0, |x| + 3,
                      pre + x0 + Node(BRANCH, 0) + Node(BACK, |x| + 3))
    ensures Hooks(pre + x0 + (Node(BRANCH, 0) + Node(BACK, |x| + 3) + Node(BRANCH, 0)), |pre| + |x|, 0, 6,
                  pre + x0 + (Node(BRANCH, 6) + Node(BACK, |x| + 3) + Node(BRANCH, 0)))
  {
    hide Hooks, HooksBack, Node;
    var b0, n0, len := Node(BRANCH, 0), Node(BACK, 0), |x|;
    var back := Node(BACK, len + 3);
    HookBack(x, t, x0, len + 3);
    HooksInside(pre, x, b0, 0, t, len - t, x0);
    HookBackNew(len + 3);
    HooksBackBehind(pre + x0 + b0, n0, 0, 0, len + 3, back);
    HookNew(BRANCH, back + b0, 6);
    assert b0 + (back + b0) == b0 + back + b0 && Node(BRANCH, 6) + (back + b0) == Node(BRANCH, 6) + back + b0;
    HooksBehind(pre + x0, b0 + back + b0, 0, 0, 6, Node(BRANCH, 6) + back + b0);
  }

  lemma PlusLast(pre: seq<byte>, x: seq<byte>, t: nat, x0: seq<byte>)
    requires t + 3 <= |x| < 0x1_0000 - 12 && Hooks(x, 0, t, |x| - t, x0)
    ensures |x0| == |x|
    ensures Hooks(pre + x0 + (Node(BRANCH, 6) + Node(BACK, |x| + 3) + Node(BRANCH, 0)) + Node(NOTHING, 0), |pre|, |x| + 6, 3,
                  pre + PlusCode(x0, -1))
  {
    hide Hooks, Node, EmptyBranch;
    var back := Node(BACK, |x| + 3);
    var tail := Node(BRANCH, 0) + Node(NOTHING, 0);
    var h := Node(BRANCH, 6) + back;
    LastStep([], back);
    assert [] + (h + tail) == h + tail && [] + (h + EmptyBranch(-1)) == h + EmptyBranch(-1);
    HookAfter(x, t, x0, h + tail, 6, 3, h + EmptyBranch(-1));
    HooksBehind(pre, x0 + (h + tail), 0, |x| + 6, 3, x0 + (h + EmptyBranch(-1)));
    assert pre + (x0 + (h + tail)) == pre + x0 + (Node(BRANCH, 6) + back + Node(BRANCH, 0)) + Node(NOTHING, 0);
    assert x0 + (h + EmptyBranch(-1)) == PlusCode(x0, -1);
  }

  lemma OptSteps(pre: seq<byte>, x: seq<byte>, t: nat, x3: seq<byte>)
    requires t + 3 <= |x| < 0x1_0000 - 12 && |x3| == |x| && Hooks(x, 0, t, |x| + 3 - t, x3)
    ensures Hooks(pre + (Node(BRANCH, 0) + x + Node(BRANCH, 0)), |pre|, 0, |x| + 3,
                  pre + (Node(BRANCH, |x| + 3) + x + Node(BRANCH, 0)))
    ensures Hooks(pre + (Node(BRANCH, |x| + 3) + x + Node(BRANCH, 0)) + Node(NOTHING, 0), |pre|, |x| + 3, 3,
                  pre + OptCode(x, -1))
    ensures Hooks(pre + OptCode(x, -1), |pre| + 3, t, |x| + 3 - t, pre + OptCode(x3, -1))
  {
    hide Hooks, Node, EmptyBranch;
    var b0, len := Node(BRANCH, 0), |x|;
    var h := Node(BRANCH, len + 3);
    HookNew(BRANCH, x + b0, len + 3);
    assert b0 + (x + b0) == b0 + x + b0 && h + (x + b0) == h + x + b0;
    HooksBehind(pre, b0 + x + b0, 0, 0, len + 3, h + x + b0);
    LastStep(pre, x);
    assert pre + (h + x + (b0 + Node(NOTHING, 0))) == pre + (h + x + b0) + Node(NOTHING, 0);
    HooksInside(h, x, EmptyBranch(-1), 0, t, len + 3 - t, x3);
    HooksBehind(pre, OptCode(x, -1), 3, t, len + 3 - t, OptCode(x3, -1));
  }

  // ------------------------------------ the loop that closes a choice

  /** The nodes that loop visits: the OPEN node (-1), the branches, and the closing node (`|bs|`). */
  function ClosePos(pre: seq<byte>, h: seq<byte>, bs: seq<Branch>, k: int): nat
    requires -1 <= k <= |bs|
  {
    if k < 0 then |pre| else |pre| + |h| + BranchPos(bs, k)
  }

  /** The code when it has visited the nodes before `k`. */
  function CloseCode(pre: seq<byte>, h: seq<byte>, bs: seq<Branch>, e: seq<byte>, k: int): (c: seq<byte>)
    requires -1 <= k <= |bs|
    ensures |c| == |pre| + |h| + AltsLen(bs) + |e|
  {
    pre + (h + HookedAlts(bs, if k < 0 then 0 else k) + e)
  }

  lemma CloseFirst(pre: seq<byte>, h: seq<byte>, bs: seq<Branch>, e: seq<byte>)
    requires IsOpen(h) && h != []
    ensures var c := CloseCode(pre, h, bs, e, -1);
      c[|pre|] != BRANCH && c[|pre|] != BACK && LinkAt(c, |pre|) == 3 == |h|
  {
    hide HookedAlts, AltsLen, Node;
    var op: byte :| op != BACK && op != BRANCH && h == Node(op, 3);
    NodeLink(op, 3);
    LinkInside(pre, h, HookedAlts(bs, 0) + e, 0);
    assert pre + h + (HookedAlts(bs, 0) + e) == CloseCode(pre, h, bs, e, -1);
  }

  lemma CloseStart(pre: seq<byte>, h: seq<byte>, bs: seq<Branch>, e: seq<byte>)
    ensures CloseCode(pre, h, bs, e, -1) == CloseCode(pre, h, bs, e, 0)
    ensures ClosePos(pre, h, bs, 0) == |pre| + |h|
  {
  }

  lemma CloseLast(pre: seq<byte>, h: seq<byte>, bs: seq<Branch>, op: byte)
    ensures var c, p := CloseCode(pre, h, bs, Node(op, 0), |bs|), ClosePos(pre, h, bs, |bs|);
      c[p] == op && LinkAt(c, p) == 0
  {
    hide HookedAlts, AltsLen, Node, BranchPos;
    var before := pre + (h + HookedAlts(bs, |bs|));
    NodeLink(op, 0);
    LinkInside(before, Node(op, 0), [], 0);
    assert before + Node(op, 0) + [] == CloseCode(pre, h, bs, Node(op, 0), |bs|);
  }

  lemma {:induction false} CloseNode(pre: seq<byte>, h: seq<byte>, bs: seq<Branch>, e: seq<byte>, k: nat, j: nat)
    requires k <= |bs| && j < |bs| && AltsLen(bs) < 0x1_0000
    ensures var c, p := CloseCode(pre, h, bs, e, k), ClosePos(pre, h, bs, j);
      c[p] == BRANCH && LinkAt(c, p) == ClosePos(pre, h, bs, j + 1) - p > 0
  {
    hide HookedAlts, AltsLen, BranchPos;
    HookNode(bs, k, j);
    BranchPosNext(bs, j);
    LinkInside(pre + h, HookedAlts(bs, k), e, BranchPos(bs, j));
    assert pre + h + HookedAlts(bs, k) + e == CloseCode(pre, h, bs, e, k);
  }

  lemma {:induction false} CloseStep(pre: seq<byte>, h: seq<byte>, bs: seq<Branch>, e: seq<byte>, k: nat)
    requires k < |bs| && AltsLen(bs) < 0x1_0000
    ensures var p, t := ClosePos(pre, h, bs, k) + 3, BodyTail(bs[k].pieces);
      && p + t <= ClosePos(pre, h, bs, |bs|)
      && Hooks(CloseCode(pre, h, bs, e, k), p, t, ClosePos(pre, h, bs, |bs|) - p - t, CloseCode(pre, h, bs, e, k + 1))
  {
    hide HookedAlts, AltsLen, Hooks, BranchPos, BodyTail;
    var p, t := BranchPos(bs, k) + 3, BodyTail(bs[k].pieces);
    var off := AltsLen(bs) - p - t;
    HookStep(bs, k);
    HooksInside(pre + h, HookedAlts(bs, k), e, p, t, off, HookedAlts(bs, k + 1));
    assert pre + h + HookedAlts(bs, k) + e == CloseCode(pre, h, bs, e, k);
    assert pre + h + HookedAlts(bs, k + 1) + e == CloseCode(pre, h, bs, e, k + 1);
  }
}
