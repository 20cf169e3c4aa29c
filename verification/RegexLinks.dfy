/**
  Where the nodes of a finished program stand and where their links lead: every link
  lands on a node, only BACK leads backward, and a BRANCH leads on to another
  alternative of its own choice or to a node that is no BRANCH.
*/
module RegexLinks {
  import opened RegexSyntax
  import opened RegexCode
  import opened RegexPaths
  import opened RegexMatcher
  import Execution = RegexExec

  /** A node: its position, opcode and link (-1 if it has none), and for a BRANCH where its choice begins. */
  datatype Spot = Spot(pos: nat, op: byte, to: int, choice: int)

  function To(end: nat, d: int): int {
    if d < 0 then -1 else end + d
  }

  function AtomSpots(a: Atom, pos: nat, d: int): seq<Spot> {
    match a
    case Group(no, bs) =>
      [Spot(pos, OpOf(a), pos + 3, -1)] + AltsSpots(bs, pos + 3, pos + 3)
      + [Spot(pos + 3 + AltsLen(bs), CloseOf(no), To(pos + AtomLen(a), d), -1)]
    case _ => [Spot(pos, OpOf(a), To(pos + AtomLen(a), d), -1)]
  }

  function EmptySpots(pos: nat, d: int, choice: int): seq<Spot> {
    [Spot(pos, BRANCH, pos + 3, choice), Spot(pos + 3, NOTHING, To(pos + 6, d), -1)]
  }

  function PieceSpots(p: Piece, pos: nat, d: int): seq<Spot> {
    var x := AtomLen(p.atom);
    match p.mult
    case One => AtomSpots(p.atom, pos, d)
    case ZeroOrMore =>
      if SimpleAtom(p.atom) then [Spot(pos, STARNODE, To(pos + 3 + x, d), -1)] + AtomSpots(p.atom, pos + 3, -1)
      else
        [Spot(pos, BRANCH, pos + x + 6, pos)] + AtomSpots(p.atom, pos + 3, 0)
        + [Spot(pos + 3 + x, BACK, pos, -1)] + EmptySpots(pos + x + 6, d, pos)
    case OneOrMore =>
      if SimpleAtom(p.atom) then [Spot(pos, PLUSNODE, To(pos + 3 + x, d), -1)] + AtomSpots(p.atom, pos + 3, -1)
      else
        AtomSpots(p.atom, pos, 0)
        + [Spot(pos + x, BRANCH, pos + x + 6, pos + x), Spot(pos + x + 3, BACK, pos, -1)]
        + EmptySpots(pos + x + 6, d, pos + x)
    case ZeroOrOne =>
      [Spot(pos, BRANCH, pos + x + 3, pos)] + AtomSpots(p.atom, pos + 3, 3) + EmptySpots(pos + x + 3, d, pos)
  }

  function PiecesSpots(ps: seq<Piece>, pos: nat, d: int): seq<Spot>
    decreases ps, 0
  {
    if |ps| == 0 then []
    else if |ps| == 1 then PieceSpots(ps[0], pos, d)
    else PieceSpots(ps[0], pos, 0) + PiecesSpots(ps[1..], pos + PieceLen(ps[0]), d)
  }

  function BodySpots(ps: seq<Piece>, pos: nat, d: int): seq<Spot>
    decreases ps, 1
  {
    if |ps| == 0 then [Spot(pos, NOTHING, To(pos + 3, d), -1)] else PiecesSpots(ps, pos, d)
  }

  function AltsSpots(bs: seq<Branch>, pos: nat, choice: nat): seq<Spot> {
    if |bs| == 0 then []
    else
      var n := BodyLen(bs[0].pieces);
      [Spot(pos, BRANCH, pos + 3 + n, choice)] + BodySpots(bs[0].pieces, pos + 3, AltsLen(bs[1..]))
      + AltsSpots(bs[1..], pos + 3 + n, choice)
  }

  /** All nodes of the finished program, behind the magic byte. */
  function ProgramSpots(bs: seq<Branch>): seq<Spot> {
    AltsSpots(bs, 1, 1) + [Spot(1 + AltsLen(bs), END, -1, -1)]
  }

  // ------------------------------------------------- where links lead

  /** Only BACK leads backward. */
  ghost predicate Directed(n: Spot) {
    n.to != -1 ==> if n.op == BACK then n.to < n.pos else n.to > n.pos
  }

  /** `m` is where the link lands; from a BRANCH, it is no BRANCH of another choice. */
  ghost predicate LandsOn(n: Spot, m: Spot) {
    m.pos == n.to && (n.op == BRANCH && m.op == BRANCH ==> m.choice == n.choice)
  }

  ghost predicate Lands(n: Spot, all: seq<Spot>) {
    exists i :: 0 <= i < |all| && LandsOn(n, all[i])
  }

  /** The link lands on one of `all`, or else leads to `after`, which only a BRANCH of the choice `last` may. */
  ghost predicate Good(n: Spot, all: seq<Spot>, after: int, last: int) {
    && Directed(n) && (n.op == BRANCH ==> n.choice >= 0)
    && (n.to == -1 || (n.to == after && (n.op == BRANCH ==> n.choice == last)) || Lands(n, all))
  }

  ghost predicate AllGood(part: seq<Spot>, all: seq<Spot>, after: int, last: int) {
    forall i :: 0 <= i < |part| ==> Good(part[i], all, after, last)
  }

  // No BRANCH may leave.
  const NOCHOICE: int := -2

  lemma LandsAt(n: Spot, all: seq<Spot>, i: nat)
    requires i < |all| && LandsOn(n, all[i])
    ensures Lands(n, all)
  {
  }

  lemma LandsMore(n: Spot, pre: seq<Spot>, part: seq<Spot>, post: seq<Spot>)
    requires Lands(n, part)
    ensures Lands(n, pre + part + post)
  {
    hide LandsOn;
    var i :| 0 <= i < |part| && LandsOn(n, part[i]);
    LandsAt(n, pre + part + post, |pre| + i);
  }

  /** A part whose links lead out to a node that stands behind it. */
  lemma Lift(pre: seq<Spot>, part: seq<Spot>, post: seq<Spot>, mid: int, lastMid: int, i: nat, after: int, last: int)
    requires AllGood(part, part, mid, lastMid) && i < |post| && post[i].pos == mid
    requires post[i].op == BRANCH ==> lastMid == NOCHOICE || lastMid == post[i].choice
    ensures AllGood(part, pre + part + post, after, last)
  {
    var all := pre + part + post;
    forall k | 0 <= k < |part| ensures Good(part[k], all, after, last) {
      var n := part[k];
      if n.to != -1 {
        if Lands(n, part) {
          LandsMore(n, pre, part, post);
        } else {
          assert all[|pre| + |part| + i] == post[i];
          LandsAt(n, all, |pre| + |part| + i);
        }
      }
    }
  }

  /** A part whose links lead out to where those of the whole do. */
  lemma Keep(pre: seq<Spot>, part: seq<Spot>, post: seq<Spot>, after: int, lastPart: int, last: int)
    requires AllGood(part, part, after, lastPart) && (lastPart == NOCHOICE || lastPart == last)
    ensures AllGood(part, pre + part + post, after, last)
  {
    hide Directed, LandsOn;
    forall k | 0 <= k < |part| ensures Good(part[k], pre + part + post, after, last) {
      if Lands(part[k], part) {
        LandsMore(part[k], pre, part, post);
      }
    }
  }

  lemma Together(a: seq<Spot>, b: seq<Spot>, all: seq<Spot>, after: int, last: int)
    requires AllGood(a, all, after, last) && AllGood(b, all, after, last)
    ensures AllGood(a + b, all, after, last)
  {
    hide Good;
  }

  lemma OneGood(n: Spot, all: seq<Spot>, after: int, last: int)
    requires Good(n, all, after, last)
    ensures AllGood([n], all, after, last)
  {
    hide Good;
  }

  /** The first node of a fragment stands where the fragment begins, and is a BRANCH only in a choice. */
  lemma FirstSpot(p: Piece, pos: nat, d: int)
    ensures |AtomSpots(p.atom, pos, d)| > 0 && AtomSpots(p.atom, pos, d)[0].pos == pos
    ensures AtomSpots(p.atom, pos, d)[0].op == OpOf(p.atom)
    ensures |PieceSpots(p, pos, d)| > 0 && PieceSpots(p, pos, d)[0].pos == pos
  {
    hide AltsSpots;
  }

  lemma {:induction false} AtomGood(a: Atom, pos: nat, d: int)
    requires WfAtom(a) && (d >= 0 || (d == -1 && SimpleAtom(a)))
    ensures AllGood(AtomSpots(a, pos, d), AtomSpots(a, pos, d), To(pos + AtomLen(a), d), NOCHOICE)
    decreases a, 0
  {
    hide AltsSpots, AltsLen, Good;
    var after := To(pos + AtomLen(a), d);
    var all := AtomSpots(a, pos, d);
    if a.Group? {
      var open, close := Spot(pos, OpOf(a), pos + 3, -1), Spot(pos + 3 + AltsLen(a.alts), CloseOf(a.no), after, -1);
      var alts := AltsSpots(a.alts, pos + 3, pos + 3);
      AltsGood(a.alts, pos + 3, pos + 3);
      AltsFirst(a.alts, pos + 3, pos + 3);
      assert all == [open] + alts + [close];
      Lift([open], alts, [close], pos + 3 + AltsLen(a.alts), pos + 3, 0, after, NOCHOICE);
      assert all[1] == alts[0];
      LandsAt(open, all, 1);
      Plain(open, all, after);
      Plain(close, all, after);
      OneGood(open, all, after, NOCHOICE);
      OneGood(close, all, after, NOCHOICE);
      Together([open], alts, all, after, NOCHOICE);
      Together([open] + alts, [close], all, after, NOCHOICE);
    } else {
      Plain(all[0], all, after);
      OneGood(all[0], all, after, NOCHOICE);
      assert all == [all[0]];
    }
  }

  /** A node that is neither a BRANCH nor BACK, and leads on or out. */
  lemma Plain(n: Spot, all: seq<Spot>, after: int)
    requires n.op != BRANCH && n.op != BACK && (n.to == -1 || n.to > n.pos) && (n.to == after || Lands(n, all))
    ensures Good(n, all, after, NOCHOICE)
  {
  }

  /** A BRANCH or BACK whose link lands. */
  lemma Landed(n: Spot, all: seq<Spot>, after: int, last: int)
    requires Directed(n) && (n.op == BRANCH ==> n.choice >= 0) && Lands(n, all)
    ensures Good(n, all, after, last)
  {
  }

  lemma EmptyGood(pos: nat, d: nat, choice: nat, pre: seq<Spot>)
    ensures AllGood(EmptySpots(pos, d, choice), pre + EmptySpots(pos, d, choice), To(pos + 6, d), NOCHOICE)
  {
    var e := EmptySpots(pos, d, choice);
    var all := pre + e;
    assert all[|pre| + 1] == e[1] && LandsOn(e[0], e[1]);
    LandsAt(e[0], all, |pre| + 1);
  }

  lemma {:induction false} StarGood(p: Piece, pos: nat, d: nat)
    requires WfAtom(p.atom) && p.mult == ZeroOrMore && !SimpleAtom(p.atom)
    ensures AllGood(PieceSpots(p, pos, d), PieceSpots(p, pos, d), To(pos + PieceLen(p), d), NOCHOICE)
    decreases p.atom, 1
  {
    hide AtomSpots, Good, AtomLen;
    var x, after := AtomLen(p.atom), To(pos + PieceLen(p), d);
    var head, back := Spot(pos, BRANCH, pos + x + 6, pos), Spot(pos + 3 + x, BACK, pos, -1);
    var inner, e := AtomSpots(p.atom, pos + 3, 0), EmptySpots(pos + x + 6, d, pos);
    var all := PieceSpots(p, pos, d);
    AtomGood(p.atom, pos + 3, 0);
    assert all == [head] + inner + ([back] + e);
    Lift([head], inner, [back] + e, pos + 3 + x, NOCHOICE, 0, after, NOCHOICE);
    assert all[1 + |inner| + 1] == e[0] && all[0] == head;
    LandsAt(head, all, 1 + |inner| + 1);
    LandsAt(back, all, 0);
    Landed(head, all, after, NOCHOICE);
    Landed(back, all, after, NOCHOICE);
    OneGood(head, all, after, NOCHOICE);
    OneGood(back, all, after, NOCHOICE);
    EmptyGood(pos + x + 6, d, pos, [head] + inner + [back]);
    assert all == ([head] + inner + [back]) + e;
    Together([head], inner, all, after, NOCHOICE);
    Together([head] + inner, [back], all, after, NOCHOICE);
    Together([head] + inner + [back], e, all, after, NOCHOICE);
  }

  lemma {:induction false} PlusGood(p: Piece, pos: nat, d: nat)
    requires WfAtom(p.atom) && p.mult == OneOrMore && !SimpleAtom(p.atom)
    ensures AllGood(PieceSpots(p, pos, d), PieceSpots(p, pos, d), To(pos + PieceLen(p), d), NOCHOICE)
    decreases p.atom, 1
  {
    hide AtomSpots, Good, AtomLen;
    var x, after := AtomLen(p.atom), To(pos + PieceLen(p), d);
    var head, back := Spot(pos + x, BRANCH, pos + x + 6, pos + x), Spot(pos + x + 3, BACK, pos, -1);
    var inner, e := AtomSpots(p.atom, pos, 0), EmptySpots(pos + x + 6, d, pos + x);
    var all := PieceSpots(p, pos, d);
    AtomGood(p.atom, pos, 0);
    FirstSpot(p, pos, 0);
    assert all == [] + inner + ([head, back] + e);
    Lift([], inner, [head, back] + e, pos + x, NOCHOICE, 0, after, NOCHOICE);
    assert all[|inner| + 2] == e[0] && all[0] == inner[0];
    LandsAt(head, all, |inner| + 2);
    LandsAt(back, all, 0);
    Landed(head, all, after, NOCHOICE);
    Landed(back, all, after, NOCHOICE);
    OneGood(head, all, after, NOCHOICE);
    OneGood(back, all, after, NOCHOICE);
    EmptyGood(pos + x + 6, d, pos + x, inner + [head, back]);
    assert all == (inner + [head, back]) + e;
    Together([head], [back], all, after, NOCHOICE);
    assert [head] + [back] == [head, back];
    Together(inner, [head, back], all, after, NOCHOICE);
    Together(inner + [head, back], e, all, after, NOCHOICE);
  }

  lemma {:induction false} OptGood(p: Piece, pos: nat, d: nat)
    requires WfAtom(p.atom) && p.mult == ZeroOrOne
    ensures AllGood(PieceSpots(p, pos, d), PieceSpots(p, pos, d), To(pos + PieceLen(p), d), NOCHOICE)
    decreases p.atom, 1
  {
    hide AtomSpots, Good, AtomLen;
    var x, after := AtomLen(p.atom), To(pos + PieceLen(p), d);
    var head := Spot(pos, BRANCH, pos + x + 3, pos);
    var inner, e := AtomSpots(p.atom, pos + 3, 3), EmptySpots(pos + x + 3, d, pos);
    var all := PieceSpots(p, pos, d);
    AtomGood(p.atom, pos + 3, 3);
    assert all == [head] + inner + e;
    Lift([head], inner, e, pos + x + 6, NOCHOICE, 1, after, NOCHOICE);
    assert all[1 + |inner|] == e[0];
    LandsAt(head, all, 1 + |inner|);
    Landed(head, all, after, NOCHOICE);
    OneGood(head, all, after, NOCHOICE);
    EmptyGood(pos + x + 3, d, pos, [head] + inner);
    Together([head], inner, all, after, NOCHOICE);
    Together([head] + inner, e, all, after, NOCHOICE);
  }

  lemma {:induction false} PieceGood(p: Piece, pos: nat, d: nat)
    requires WfPiece(p) && WfAtom(p.atom)
    ensures AllGood(PieceSpots(p, pos, d), PieceSpots(p, pos, d), To(pos + PieceLen(p), d), NOCHOICE)
    decreases p, 2
  {
    if p.mult == One {
      AtomGood(p.atom, pos, d);
    } else if p.mult == ZeroOrOne {
      OptGood(p, pos, d);
    } else if !SimpleAtom(p.atom) {
      if p.mult == ZeroOrMore {
        StarGood(p, pos, d);
      } else {
        PlusGood(p, pos, d);
      }
    } else {
      RepeatGood(p, pos, d);
    }
  }

  lemma RepeatGood(p: Piece, pos: nat, d: nat)
    requires WfAtom(p.atom) && SimpleAtom(p.atom) && (p.mult == ZeroOrMore || p.mult == OneOrMore)
    ensures AllGood(PieceSpots(p, pos, d), PieceSpots(p, pos, d), To(pos + PieceLen(p), d), NOCHOICE)
  {
    var all, after := PieceSpots(p, pos, d), To(pos + PieceLen(p), d);
    Plain(all[0], all, after);
  }

  lemma {:induction false} PiecesGood(ps: seq<Piece>, pos: nat, d: nat)
    requires WfPieces(ps) && |ps| > 0
    ensures AllGood(PiecesSpots(ps, pos, d), PiecesSpots(ps, pos, d), To(pos + PiecesLen(ps), d), NOCHOICE)
    ensures |PiecesSpots(ps, pos, d)| > 0 && PiecesSpots(ps, pos, d)[0].pos == pos
    decreases ps, 0
  {
    hide AtomSpots, PieceSpots, Good, PieceLen;
    FirstSpot(ps[0], pos, d);
    FirstSpot(ps[0], pos, 0);
    if |ps| == 1 {
      PieceGood(ps[0], pos, d);
    } else {
      var after := To(pos + PiecesLen(ps), d);
      var mid := pos + PieceLen(ps[0]);
      var a, b := PieceSpots(ps[0], pos, 0), PiecesSpots(ps[1..], mid, d);
      PieceGood(ps[0], pos, 0);
      PiecesGood(ps[1..], mid, d);
      assert [] + a + b == a + b;
      Lift([], a, b, mid, NOCHOICE, 0, after, NOCHOICE);
      assert a + b + [] == a + b;
      Keep(a, b, [], after, NOCHOICE, NOCHOICE);
      Together(a, b, a + b, after, NOCHOICE);
    }
  }

  lemma {:induction false} BodyGood(ps: seq<Piece>, pos: nat, d: nat)
    requires WfPieces(ps)
    ensures AllGood(BodySpots(ps, pos, d), BodySpots(ps, pos, d), To(pos + BodyLen(ps), d), NOCHOICE)
    decreases ps, 1
  {
    if |ps| > 0 {
      PiecesGood(ps, pos, d);
    } else {
      var all := BodySpots(ps, pos, d);
      Plain(all[0], all, To(pos + 3, d));
    }
  }

  lemma AltsFirst(bs: seq<Branch>, pos: nat, choice: nat)
    requires |bs| > 0
    ensures var s := AltsSpots(bs, pos, choice); |s| > 0 && s[0].pos == pos && s[0].op == BRANCH && s[0].choice == choice
  {
    hide BodySpots;
  }

  lemma {:induction false} AltsGood(bs: seq<Branch>, pos: nat, choice: nat)
    requires WfAlts(bs)
    ensures AllGood(AltsSpots(bs, pos, choice), AltsSpots(bs, pos, choice), pos + AltsLen(bs), choice)
    decreases bs, 2
  {
    hide BodySpots, Good, BodyLen;
    if |bs| > 0 {
      var n, after := BodyLen(bs[0].pieces), pos + AltsLen(bs);
      var head := Spot(pos, BRANCH, pos + 3 + n, choice);
      var body, rest := BodySpots(bs[0].pieces, pos + 3, AltsLen(bs[1..])), AltsSpots(bs[1..], pos + 3 + n, choice);
      var all := AltsSpots(bs, pos, choice);
      BodyGood(bs[0].pieces, pos + 3, AltsLen(bs[1..]));
      AltsGood(bs[1..], pos + 3 + n, choice);
      assert all == [head] + body + rest;
      Keep([head], body, rest, after, NOCHOICE, choice);
      assert all == ([head] + body) + rest + [];
      Keep([head] + body, rest, [], after, choice, choice);
      if |bs| > 1 {
        AltsFirst(bs[1..], pos + 3 + n, choice);
        assert all[1 + |body|] == rest[0];
        LandsAt(head, all, 1 + |body|);
        Landed(head, all, after, choice);
      } else {
        LastBranch(head, all, after, choice);
      }
      OneGood(head, all, after, choice);
      Together([head], body, all, after, choice);
      Together([head] + body, rest, all, after, choice);
    }
  }

  lemma LastBranch(n: Spot, all: seq<Spot>, after: int, choice: nat)
    requires n.op == BRANCH && n.choice == choice && n.to == after && after > n.pos
    ensures Good(n, all, after, choice)
  {
  }

  /** In a finished program, every link lands on a node. */
  lemma ProgramGood(bs: seq<Branch>)
    requires WfAlts(bs)
    ensures AllGood(ProgramSpots(bs), ProgramSpots(bs), -1, NOCHOICE)
  {
    hide AltsSpots, Good;
    var alts, end := AltsSpots(bs, 1, 1), Spot(1 + AltsLen(bs), END, -1, -1);
    AltsGood(bs, 1, 1);
    var all := ProgramSpots(bs);
    assert all == [] + alts + [end];
    Lift([], alts, [end], 1 + AltsLen(bs), 1, 0, -1, NOCHOICE);
    Plain(end, all, -1);
    OneGood(end, all, -1, NOCHOICE);
    Together(alts, [end], all, -1, NOCHOICE);
  }

  // ---------------------------------------------- where the nodes stand

  /** The node is in the code, with its opcode and its link. */
  ghost predicate Laid(code: seq<byte>, n: Spot) {
    n.pos + 3 <= |code| && code[n.pos] == n.op && RegNext(code, n.pos) == n.to
  }

  /** The length of the node at `pos`, from its bytes alone: literals and classes carry a string. */
  function NodeSize(code: seq<byte>, pos: nat): nat
    requires pos + 3 <= |code|
  {
    3 + if code[pos] == EXACTLY || code[pos] == ANYOF || code[pos] == ANYBUT then StrLen(code, pos + 3) + 1 else 0
  }

  /** Read node by node, the code from `from` to `to` consists of these nodes. */
  ghost predicate Tiled(code: seq<byte>, ss: seq<Spot>, from: nat, to: nat) {
    if |ss| == 0 then from == to
    else ss[0].pos == from && Laid(code, ss[0]) && Tiled(code, ss[1..], from + NodeSize(code, from), to)
  }

  lemma {:induction false} TiledTogether(code: seq<byte>, a: seq<Spot>, b: seq<Spot>, from: nat, mid: nat, to: nat)
    requires Tiled(code, a, from, mid) && Tiled(code, b, mid, to)
    ensures Tiled(code, a + b, from, to)
    decreases |a|
  {
    hide RegNext, NodeSize;
    if |a| == 0 {
      assert a + b == b;
    } else {
      assert (a + b)[1..] == a[1..] + b;
      TiledTogether(code, a[1..], b, from + NodeSize(code, from), mid, to);
    }
  }

  lemma {:induction false} TiledLaid(code: seq<byte>, ss: seq<Spot>, from: nat, to: nat, i: nat)
    requires Tiled(code, ss, from, to) && i < |ss|
    ensures Laid(code, ss[i])
  {
    hide RegNext, NodeSize;
    if i > 0 {
      TiledLaid(code, ss[1..], from + NodeSize(code, from), to, i - 1);
    }
  }

  lemma OneTiled(code: seq<byte>, n: Spot, to: nat)
    requires Laid(code, n) && to == n.pos + NodeSize(code, n.pos)
    ensures Tiled(code, [n], n.pos, to)
  {
    hide Laid, NodeSize;
    assert [n][1..] == [];
  }

  lemma NodeLaid(code: seq<byte>, pos: nat, op: byte, off: nat, choice: int)
    requires Sub(code, pos, Node(op, off)) && off < 0x1_0000 && op != EXACTLY && op != ANYOF && op != ANYBUT
    ensures Tiled(code, [Spot(pos, op, if off == 0 then -1 else if op == BACK then pos - off else pos + off, choice)], pos, pos + 3)
  {
    hide Sub, StrLen;
    SubNode(code, pos, op, off);
    OneTiled(code, Spot(pos, op, if off == 0 then -1 else if op == BACK then pos - off else pos + off, choice), pos + 3);
  }

  /** The node of an atom that is no group, with the string it may carry. */
  lemma OperandLaid(code: seq<byte>, a: Atom, pos: nat, off: nat)
    requires WfAtom(a) && !a.Group? && Sub(code, pos, Node(OpOf(a), off)) && Sub(code, pos + 3, Operand(a)) && off < 0x1_0000
    ensures Tiled(code, [Spot(pos, OpOf(a), if off == 0 then -1 else pos + off, -1)], pos, pos + AtomLen(a))
  {
    hide Sub, StrLen, ClassBytes, Node;
    SubNode(code, pos, OpOf(a), off);
    if a.Class? {
      ClassNoNul(a.items);
      StrLenFinds(code, pos + 3, ClassBytes(a.items));
    } else if a.Lit? {
      StrLenFinds(code, pos + 3, a.text);
    }
    OneTiled(code, Spot(pos, OpOf(a), if off == 0 then -1 else pos + off, -1), pos + AtomLen(a));
  }

  lemma EmptyLaid(code: seq<byte>, pos: nat, d: nat, choice: int)
    requires Sub(code, pos, EmptyBranch(d)) && pos + 6 + d <= |code| < 0x1_0000
    ensures Tiled(code, EmptySpots(pos, d, choice), pos, pos + 6)
  {
    hide Sub, Node, Laid;
    SubTwo(code, pos, Node(BRANCH, 3), Node(NOTHING, 3 + d));
    NodeLaid(code, pos, BRANCH, 3, choice);
    NodeLaid(code, pos + 3, NOTHING, 3 + d, -1);
    var s0, s1 := [Spot(pos, BRANCH, pos + 3, choice)], [Spot(pos + 3, NOTHING, pos + 6 + d, -1)];
    TiledTogether(code, s0, s1, pos, pos + 3, pos + 6);
    assert s0 + s1 == EmptySpots(pos, d, choice);
  }

  lemma {:induction false} AtomLaid(code: seq<byte>, a: Atom, pos: nat, d: int)
    requires WfAtom(a) && Sub(code, pos, AtomCode(a, d)) && -1 <= d && pos + AtomLen(a) + d <= |code| < 0x1_0000
    ensures Tiled(code, AtomSpots(a, pos, d), pos, pos + AtomLen(a))
    decreases a, 0
  {
    hide Sub, Node, AltsCode, AltsLen, AltsSpots, Laid, ClassBytes, Tiled;
    SubFits(code, pos, AtomCode(a, d));
    if a.Group? {
      var open, close := Node(OpOf(a), 3), Node(CloseOf(a.no), TailLink(3, d));
      SubTwo(code, pos, open + AltsCode(a.alts), close);
      SubTwo(code, pos, open, AltsCode(a.alts));
      AltsLaid(code, a.alts, pos + 3, pos + 3);
      NodeLaid(code, pos, OpOf(a), 3, -1);
      NodeLaid(code, pos + 3 + AltsLen(a.alts), CloseOf(a.no), TailLink(3, d), -1);
      var alts := AltsSpots(a.alts, pos + 3, pos + 3);
      var mid := pos + 3 + AltsLen(a.alts);
      TiledTogether(code, [Spot(pos, OpOf(a), pos + 3, -1)], alts, pos, pos + 3, mid);
      TiledTogether(code, [Spot(pos, OpOf(a), pos + 3, -1)] + alts, [Spot(mid, CloseOf(a.no), To(pos + AtomLen(a), d), -1)],
                    pos, mid, mid + 3);
    } else {
      SubTwo(code, pos, Node(OpOf(a), TailLink(AtomLen(a), d)), Operand(a));
      OperandLaid(code, a, pos, TailLink(AtomLen(a), d));
    }
  }

  lemma SubFits(code: seq<byte>, pos: int, frag: seq<byte>)
    requires Sub(code, pos, frag)
    ensures 0 <= pos && pos + |frag| <= |code|
  {
  }

  lemma {:induction false} StarLaid(code: seq<byte>, p: Piece, pos: nat, d: nat)
    requires WfAtom(p.atom) && p.mult == ZeroOrMore && !SimpleAtom(p.atom)
    requires Sub(code, pos, PieceCode(p, d)) && pos + PieceLen(p) + d <= |code| < 0x1_0000
    ensures Tiled(code, PieceSpots(p, pos, d), pos, pos + PieceLen(p))
    decreases p.atom, 1
  {
    hide Sub, Node, AtomCode, AtomSpots, AtomLen, Laid, Tiled, EmptyBranch;
    var x := AtomCode(p.atom, 0);
    var head, back, e := Node(BRANCH, |x| + 6), Node(BACK, |x| + 3), EmptyBranch(d);
    SubTwo(code, pos, head + x + back, e);
    SubTwo(code, pos, head + x, back);
    SubTwo(code, pos, head, x);
    AtomLaid(code, p.atom, pos + 3, 0);
    NodeLaid(code, pos, BRANCH, |x| + 6, pos);
    NodeLaid(code, pos + 3 + |x|, BACK, |x| + 3, -1);
    EmptyLaid(code, pos + |x| + 6, d, pos);
    var s0, s1, s2 := [Spot(pos, BRANCH, pos + |x| + 6, pos)], AtomSpots(p.atom, pos + 3, 0), [Spot(pos + 3 + |x|, BACK, pos, -1)];
    TiledTogether(code, s0, s1, pos, pos + 3, pos + 3 + |x|);
    TiledTogether(code, s0 + s1, s2, pos, pos + 3 + |x|, pos + |x| + 6);
    TiledTogether(code, s0 + s1 + s2, EmptySpots(pos + |x| + 6, d, pos), pos, pos + |x| + 6, pos + |x| + 12);
  }

  lemma {:induction false} PlusLaid(code: seq<byte>, p: Piece, pos: nat, d: nat)
    requires WfAtom(p.atom) && p.mult == OneOrMore && !SimpleAtom(p.atom)
    requires Sub(code, pos, PieceCode(p, d)) && pos + PieceLen(p) + d <= |code| < 0x1_0000
    ensures Tiled(code, PieceSpots(p, pos, d), pos, pos + PieceLen(p))
    decreases p.atom, 1
  {
    hide Sub, Node, AtomCode, AtomSpots, AtomLen, Laid, Tiled, EmptyBranch;
    var x := AtomCode(p.atom, 0);
    var head, back, e := Node(BRANCH, 6), Node(BACK, |x| + 3), EmptyBranch(d);
    SubTwo(code, pos, x + head + back, e);
    SubTwo(code, pos, x + head, back);
    SubTwo(code, pos, x, head);
    AtomLaid(code, p.atom, pos, 0);
    NodeLaid(code, pos + |x|, BRANCH, 6, pos + |x|);
    NodeLaid(code, pos + |x| + 3, BACK, |x| + 3, -1);
    EmptyLaid(code, pos + |x| + 6, d, pos + |x|);
    var s0, s1, s2 := AtomSpots(p.atom, pos, 0), [Spot(pos + |x|, BRANCH, pos + |x| + 6, pos + |x|)], [Spot(pos + |x| + 3, BACK, pos, -1)];
    TiledTogether(code, s1, s2, pos + |x|, pos + |x| + 3, pos + |x| + 6);
    assert s1 + s2 == [s1[0], s2[0]];
    TiledTogether(code, s0, s1 + s2, pos, pos + |x|, pos + |x| + 6);
    TiledTogether(code, s0 + (s1 + s2), EmptySpots(pos + |x| + 6, d, pos + |x|), pos, pos + |x| + 6, pos + |x| + 12);
  }

  lemma {:induction false} OptLaid(code: seq<byte>, p: Piece, pos: nat, d: nat)
    requires WfAtom(p.atom) && p.mult == ZeroOrOne
    requires Sub(code, pos, PieceCode(p, d)) && pos + PieceLen(p) + d <= |code| < 0x1_0000
    ensures Tiled(code, PieceSpots(p, pos, d), pos, pos + PieceLen(p))
    decreases p.atom, 1
  {
    hide Sub, Node, AtomCode, AtomSpots, AtomLen, Laid, Tiled, EmptyBranch;
    var x := AtomCode(p.atom, 3);
    var head, e := Node(BRANCH, |x| + 3), EmptyBranch(d);
    SubTwo(code, pos, head + x, e);
    SubTwo(code, pos, head, x);
    AtomLaid(code, p.atom, pos + 3, 3);
    NodeLaid(code, pos, BRANCH, |x| + 3, pos);
    EmptyLaid(code, pos + |x| + 3, d, pos);
    var s0, s1 := [Spot(pos, BRANCH, pos + |x| + 3, pos)], AtomSpots(p.atom, pos + 3, 3);
    TiledTogether(code, s0, s1, pos, pos + 3, pos + |x| + 3);
    TiledTogether(code, s0 + s1, EmptySpots(pos + |x| + 3, d, pos), pos, pos + |x| + 3, pos + |x| + 9);
  }

  lemma {:induction false} RepeatLaid(code: seq<byte>, p: Piece, pos: nat, d: nat)
    requires WfAtom(p.atom) && SimpleAtom(p.atom) && (p.mult == ZeroOrMore || p.mult == OneOrMore)
    requires Sub(code, pos, PieceCode(p, d)) && pos + PieceLen(p) + d <= |code| < 0x1_0000
    ensures Tiled(code, PieceSpots(p, pos, d), pos, pos + PieceLen(p))
    decreases p.atom, 1
  {
    hide Sub, Node, AtomCode, AtomSpots, AtomLen, Laid, Tiled;
    var x := AtomCode(p.atom, -1);
    var op := if p.mult == ZeroOrMore then STARNODE else PLUSNODE;
    SubTwo(code, pos, Node(op, 3 + |x| + d), x);
    AtomLaid(code, p.atom, pos + 3, -1);
    NodeLaid(code, pos, op, 3 + |x| + d, -1);
    TiledTogether(code, [Spot(pos, op, pos + 3 + |x| + d, -1)], AtomSpots(p.atom, pos + 3, -1), pos, pos + 3, pos + 3 + |x|);
  }

  lemma OnePiece(p: Piece, pos: nat, d: nat)
    requires p.mult == One
    ensures PieceCode(p, d) == AtomCode(p.atom, d) && PieceLen(p) == AtomLen(p.atom) && PieceSpots(p, pos, d) == AtomSpots(p.atom, pos, d)
  {
    hide AtomCode, AtomLen, AtomSpots;
  }

  lemma {:induction false} PieceLaid(code: seq<byte>, p: Piece, pos: nat, d: nat)
    requires WfPiece(p) && WfAtom(p.atom) && Sub(code, pos, PieceCode(p, d)) && pos + PieceLen(p) + d <= |code| < 0x1_0000
    ensures Tiled(code, PieceSpots(p, pos, d), pos, pos + PieceLen(p))
    decreases p, 2
  {
    hide *;
    if p.mult == One {
      OnePiece(p, pos, d);
      AtomLaid(code, p.atom, pos, d);
    } else if p.mult == ZeroOrOne {
      OptLaid(code, p, pos, d);
    } else if SimpleAtom(p.atom) {
      RepeatLaid(code, p, pos, d);
    } else if p.mult == ZeroOrMore {
      StarLaid(code, p, pos, d);
    } else {
      PlusLaid(code, p, pos, d);
    }
  }

  lemma {:induction false} PiecesLaid(code: seq<byte>, ps: seq<Piece>, pos: nat, d: nat)
    requires WfPieces(ps) && |ps| > 0 && Sub(code, pos, PiecesCode(ps, d)) && pos + PiecesLen(ps) + d <= |code| < 0x1_0000
    ensures Tiled(code, PiecesSpots(ps, pos, d), pos, pos + PiecesLen(ps))
    decreases ps, 0
  {
    hide Sub, PieceCode, PieceSpots, PieceLen, Tiled;
    if |ps| == 1 {
      PieceLaid(code, ps[0], pos, d);
    } else {
      SubTwo(code, pos, PieceCode(ps[0], 0), PiecesCode(ps[1..], d));
      PieceLaid(code, ps[0], pos, 0);
      PiecesLaid(code, ps[1..], pos + PieceLen(ps[0]), d);
      TiledTogether(code, PieceSpots(ps[0], pos, 0), PiecesSpots(ps[1..], pos + PieceLen(ps[0]), d),
                    pos, pos + PieceLen(ps[0]), pos + PiecesLen(ps));
    }
  }

  lemma {:induction false} BodyLaid(code: seq<byte>, ps: seq<Piece>, pos: nat, d: nat)
    requires WfPieces(ps) && Sub(code, pos, BodyCode(ps, d)) && pos + BodyLen(ps) + d <= |code| < 0x1_0000
    ensures Tiled(code, BodySpots(ps, pos, d), pos, pos + BodyLen(ps))
    decreases ps, 1
  {
    hide Sub, Node, Tiled;
    if |ps| > 0 {
      PiecesLaid(code, ps, pos, d);
    } else {
      NodeLaid(code, pos, NOTHING, 3 + d, -1);
    }
  }

  lemma {:induction false} AltsLaid(code: seq<byte>, bs: seq<Branch>, pos: nat, choice: nat)
    requires WfAlts(bs) && Sub(code, pos, AltsCode(bs)) && |code| < 0x1_0000
    ensures Tiled(code, AltsSpots(bs, pos, choice), pos, pos + AltsLen(bs))
    decreases bs, 2
  {
    hide Sub, Node, BodyCode, BodySpots, BodyLen, Tiled;
    SubFits(code, pos, AltsCode(bs));
    if |bs| > 0 {
      var n := BodyLen(bs[0].pieces);
      var head, body := Node(BRANCH, 3 + n), BodyCode(bs[0].pieces, AltsLen(bs[1..]));
      SubTwo(code, pos, head + body, AltsCode(bs[1..]));
      SubTwo(code, pos, head, body);
      NodeLaid(code, pos, BRANCH, 3 + n, choice);
      BodyLaid(code, bs[0].pieces, pos + 3, AltsLen(bs[1..]));
      AltsLaid(code, bs[1..], pos + 3 + n, choice);
      var s0, s1 := [Spot(pos, BRANCH, pos + 3 + n, choice)], BodySpots(bs[0].pieces, pos + 3, AltsLen(bs[1..]));
      TiledTogether(code, s0, s1, pos, pos + 3, pos + 3 + n);
      TiledTogether(code, s0 + s1, AltsSpots(bs[1..], pos + 3 + n, choice), pos, pos + 3 + n, pos + AltsLen(bs));
    } else {
      assert AltsSpots(bs, pos, choice) == [];
      NoneTiled(code, pos);
    }
  }

  lemma NoneTiled(code: seq<byte>, pos: nat)
    ensures Tiled(code, [], pos, pos)
  {
  }

  /** The nodes of a finished program are what reading it one node after the other gives, from behind the magic byte to the end. */
  lemma ProgramTiled(bs: seq<Branch>)
    requires WfAlts(bs) && |Execution.Program(bs)| < 0x1_0000
    ensures Tiled(Execution.Program(bs), ProgramSpots(bs), 1, |Execution.Program(bs)|)
  {
    hide Sub, Node, AltsSpots, AltsCode, Tiled;
    var code := Execution.Program(bs);
    var alts, end := AltsCode(bs), Node(END, 0);
    assert Sub(code, 1, alts + end) by { Execution.ProgramSub(bs); }
    SubTwo(code, 1, alts, end);
    AltsLaid(code, bs, 1, 1);
    NodeLaid(code, 1 + AltsLen(bs), END, 0, -1);
    TiledTogether(code, AltsSpots(bs, 1, 1), [Spot(1 + AltsLen(bs), END, -1, -1)], 1, 1 + AltsLen(bs), |code|);
  }

  /**
    The links of a finished program: at every node, `regnext` gives -1 or the position
    of a node; forward except from BACK; and from a BRANCH, that of a later
    alternative of the same choice or of a node that is no BRANCH.
  */
  lemma ProgramLinks(bs: seq<Branch>, i: nat)
    requires WfAlts(bs) && |Execution.Program(bs)| < 0x1_0000 && i < |ProgramSpots(bs)|
    ensures var code, n := Execution.Program(bs), ProgramSpots(bs)[i];
      && Laid(code, n) && Directed(n)
      && (n.to == -1 || exists j: nat :: j < |ProgramSpots(bs)| && LandsOn(n, ProgramSpots(bs)[j]) && Laid(code, ProgramSpots(bs)[j]))
  {
    hide ProgramSpots, Laid, LandsOn, Directed, Tiled;
    var code, all := Execution.Program(bs), ProgramSpots(bs);
    ProgramTiled(bs);
    TiledLaid(code, all, 1, |code|, i);
    ProgramGood(bs);
    assert Good(all[i], all, -1, NOCHOICE);
    if all[i].to != -1 {
      var j :| 0 <= j < |all| && LandsOn(all[i], all[j]);
      TiledLaid(code, all, 1, |code|, j);
    }
  }
}
