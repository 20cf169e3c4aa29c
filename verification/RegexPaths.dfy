/**
  The ghost view of a running match: what the code from the current node on still
  stands for. A continuation lists the fragments between the current position and
  the END node; it is located at a program position when the bytes there are the
  code of those fragments. Exposing a continuation tells which single node the
  machine sees, and what the choices at that node continue with.
*/
module RegexPaths {
  import opened RegexSyntax
  import opened RegexCode
  import opened RegexMeaning

  /**
    `d` is the distance a fragment's tail jumps beyond the fragment. KBack and
    KLoop lie inside the code of a loop `p` entered at input position `from`.
  */
  datatype Cont =
    | KEnd
    | KAlts(bs: seq<Branch>, k: Cont)
    | KBody(ps: seq<Piece>, d: nat, k: Cont)
    | KPiece(p: Piece, d: nat, k: Cont)
    | KAtom(a: Atom, d: nat, k: Cont)
    | KClose(no: nat, d: nat, k: Cont)
    | KNothing(d: nat, k: Cont)
    | KSkip(d: nat, k: Cont)
    | KBack(p: Piece, from: nat, d: nat, k: Cont)
    | KLoop(p: Piece, from: nat, d: nat, k: Cont)

  /** `x*` or `x+` compiled as alternatives with a BACK node. */
  predicate IsLoop(p: Piece) {
    (p.mult == ZeroOrMore || p.mult == OneOrMore) && !SimpleAtom(p.atom)
  }

  /** The first fragment of a continuation matches `text[i..j]`. */
  ghost predicate MatchFirst(c: Cont, x: Subject, i: nat, j: nat) {
    match c
    case KEnd => false
    case KAlts(bs, _) => MatchAlts(bs, x, i, j)
    case KBody(ps, _, _) => MatchPieces(ps, x, i, j)
    case KPiece(p, _, _) => MatchPiece(p, x, i, j)
    case KAtom(a, _, _) => MatchAtom(a, x, i, j)
    case KBack(p, _, _, _) => MatchPiece(p, x, i, j)
    case KLoop(p, _, _, _) => MatchMany(p.atom, 0, x, i, j)
    case _ => i == j
  }

  /** From input position `i` the continuation can end at `e`. */
  ghost predicate Reach(c: Cont, x: Subject, i: nat, e: nat)
    decreases c
  {
    if c.KEnd? then i == e
    else exists j: nat :: MatchFirst(c, x, i, j) && Reach(c.k, x, j, e)
  }

  lemma ReachSplit(c: Cont, x: Subject, i: nat, e: nat) returns (j: nat)
    requires !c.KEnd? && Reach(c, x, i, e)
    ensures MatchFirst(c, x, i, j) && Reach(c.k, x, j, e)
  {
    j :| MatchFirst(c, x, i, j) && Reach(c.k, x, j, e);
  }

  lemma ReachJoin(c: Cont, x: Subject, i: nat, j: nat, e: nat)
    requires !c.KEnd? && MatchFirst(c, x, i, j) && Reach(c.k, x, j, e)
    ensures Reach(c, x, i, e)
  {
  }

  // ----------------------------------------------------------- location

  ghost predicate Sub(code: seq<byte>, pc: int, frag: seq<byte>) {
    0 <= pc && pc + |frag| <= |code| && code[pc..pc + |frag|] == frag
  }

  ghost predicate Located(code: seq<byte>, pc: int, c: Cont)
    decreases c
  {
    match c
    case KEnd => Sub(code, pc, Node(END, 0))
    case KAlts(bs, k) =>
      |bs| > 0 && Sub(code, pc, AltsCode(bs)) && (k.KEnd? || k.KClose?) && Located(code, pc + AltsLen(bs), k)
    case KBody(ps, d, k) => Sub(code, pc, BodyCode(ps, d)) && Located(code, pc + BodyLen(ps) + d, k)
    case KPiece(p, d, k) => Sub(code, pc, PieceCode(p, d)) && Located(code, pc + PieceLen(p) + d, k)
    case KAtom(a, d, k) => Sub(code, pc, AtomCode(a, d)) && Located(code, pc + AtomLen(a) + d, k)
    case KClose(no, d, k) => 0 < no < NSUBEXP && Sub(code, pc, Node(CloseOf(no), 3 + d)) && Located(code, pc + 3 + d, k)
    case KNothing(d, k) => Sub(code, pc, Node(NOTHING, 3 + d)) && Located(code, pc + 3 + d, k)
    case KSkip(d, k) => Sub(code, pc, EmptyBranch(d)) && Located(code, pc + 6 + d, k)
    case KBack(p, _, d, k) =>
      var head := pc - AtomLen(p.atom) - 3;
      IsLoop(p) && Sub(code, head, PieceCode(p, d)) && Located(code, head + PieceLen(p) + d, k)
    case KLoop(p, _, d, k) =>
      var head := pc - AtomLen(p.atom);
      IsLoop(p) && p.mult == OneOrMore && Sub(code, head, PieceCode(p, d)) && Located(code, head + PieceLen(p) + d, k)
  }

  // ---------------------------------------------- what keeps loops moving

  /**
    Every loop the continuation would take up again was entered at an earlier input
    position, or something with width comes first (`wide`: already passed).
  */
  ghost predicate Moving(c: Cont, i: nat, wide: bool)
    decreases c
  {
    match c
    case KEnd => true
    case KAlts(bs, k) => |bs| > 0 && WfAlts(bs) && Moving(k, i, wide || WideAlts(bs))
    case KBody(ps, _, k) => WfPieces(ps) && Moving(k, i, wide || WidePieces(ps))
    case KPiece(p, _, k) => WfPiece(p) && Moving(k, i, wide || WidePiece(p))
    case KAtom(a, _, k) => WfAtom(a) && Moving(k, i, wide || WideAtom(a))
    case KClose(_, _, k) => Moving(k, i, wide)
    case KNothing(_, k) => Moving(k, i, wide)
    case KSkip(_, k) => Moving(k, i, wide)
    case KBack(p, from, _, k) => WfPiece(p) && IsLoop(p) && from <= i && (from < i || wide) && Moving(k, i, wide)
    case KLoop(p, from, _, k) => WfPiece(p) && IsLoop(p) && from <= i && (from < i || wide) && Moving(k, i, wide)
  }

  lemma {:induction false} MovingWide(c: Cont, i: nat, wide: bool)
    requires Moving(c, i, wide)
    ensures Moving(c, i, true)
  {
    match c {
      case KEnd =>
      case KAlts(bs, k) => MovingWide(k, i, wide || WideAlts(bs));
      case KBody(ps, _, k) => MovingWide(k, i, wide || WidePieces(ps));
      case KPiece(p, _, k) => MovingWide(k, i, wide || WidePiece(p));
      case KAtom(a, _, k) => MovingWide(k, i, wide || WideAtom(a));
      case _ => MovingWide(c.k, i, wide);
    }
  }

  /** Once input has been consumed, every loop has moved. */
  lemma {:induction false} MovingOn(c: Cont, i: nat, wide: bool, j: nat, wide': bool)
    requires Moving(c, i, wide) && i < j
    ensures Moving(c, j, wide')
  {
    match c {
      case KEnd =>
      case KAlts(bs, k) => MovingOn(k, i, wide || WideAlts(bs), j, wide' || WideAlts(bs));
      case KBody(ps, _, k) => MovingOn(k, i, wide || WidePieces(ps), j, wide' || WidePieces(ps));
      case KPiece(p, _, k) => MovingOn(k, i, wide || WidePiece(p), j, wide' || WidePiece(p));
      case KAtom(a, _, k) => MovingOn(k, i, wide || WideAtom(a), j, wide' || WideAtom(a));
      case _ => MovingOn(c.k, i, wide, j, wide');
    }
  }

  function AtomSize(a: Atom): nat
    decreases a, 0
  {
    match a
    case Group(_, bs) => 2 + AltsSize(bs)
    case _ => 1
  }

  function PieceSize(p: Piece): nat
    decreases p, 0
  {
    5 + AtomSize(p.atom)
  }

  function BodySize(ps: seq<Piece>): nat
    decreases ps, 0
  {
    if |ps| == 0 then 1 else PieceSize(ps[0]) + BodySize(ps[1..])
  }

  function AltsSize(bs: seq<Branch>): nat
    decreases bs, 0
  {
    if |bs| == 0 then 0 else 1 + BodySize(bs[0].pieces) + AltsSize(bs[1..])
  }

  /** A bound on the nodes the machine can visit before it consumes input. */
  function Size(c: Cont, i: nat): nat
    decreases c
  {
    match c
    case KEnd => 0
    case KAlts(bs, k) => AltsSize(bs) + Size(k, i)
    case KBody(ps, _, k) => BodySize(ps) + Size(k, i)
    case KPiece(p, _, k) => PieceSize(p) + Size(k, i)
    case KAtom(a, _, k) => AtomSize(a) + Size(k, i)
    case KClose(_, _, k) => 1 + Size(k, i)
    case KNothing(_, k) => 1 + Size(k, i)
    case KSkip(_, k) => 3 + Size(k, i)
    case KBack(p, from, _, k) => if from < i then 1 + PieceSize(p) + Size(k, i) else 0
    case KLoop(p, from, _, k) => if from < i then 5 + PieceSize(p) + Size(k, i) else 0
  }

  // ----------------------------------------------------------- exposing

  datatype Alt = NoAlt | AltAt(k: Cont)

  /** One program node, with what it continues with. */
  datatype View =
    | VEnd
    | VTest(a: Atom, k: Cont)
    | VPass(k: Cont)
    | VOpen(no: nat, k: Cont)
    | VClose(no: nat, k: Cont)
    | VChoice(k: Cont, alt: Alt)
    | VRepeat(a: Atom, min: nat, k: Cont)

  function ExposeAtom(a: Atom, d: nat, k: Cont): View {
    match a
    case Group(no, bs) => VOpen(no, KAlts(bs, KClose(no, d, k)))
    case _ => VTest(a, k)
  }

  function ExposePiece(p: Piece, i: nat, d: nat, k: Cont): View {
    match p.mult
    case One => ExposeAtom(p.atom, d, k)
    case ZeroOrMore =>
      if SimpleAtom(p.atom) then VRepeat(p.atom, 0, k)
      else VChoice(KAtom(p.atom, 0, KBack(p, i, d, k)), AltAt(KSkip(d, k)))
    case OneOrMore =>
      if SimpleAtom(p.atom) then VRepeat(p.atom, 1, k)
      else ExposeAtom(p.atom, 0, KLoop(p, i, d, k))
    case ZeroOrOne => VChoice(KAtom(p.atom, 3, KNothing(d, k)), AltAt(KSkip(d, k)))
  }

  function Expose(c: Cont, i: nat): View
    requires c.KAlts? ==> |c.bs| > 0
  {
    match c
    case KEnd => VEnd
    case KAlts(bs, k) =>
      VChoice(KBody(bs[0].pieces, AltsLen(bs[1..]), k), if |bs| == 1 then NoAlt else AltAt(KAlts(bs[1..], k)))
    case KBody(ps, d, k) =>
      if |ps| == 0 then VPass(k)
      else if |ps| == 1 then ExposePiece(ps[0], i, d, k)
      else ExposePiece(ps[0], i, 0, KBody(ps[1..], d, k))
    case KPiece(p, d, k) => ExposePiece(p, i, d, k)
    case KAtom(a, d, k) => ExposeAtom(a, d, k)
    case KClose(no, _, k) => VClose(no, k)
    case KNothing(_, k) => VPass(k)
    case KSkip(d, k) => VChoice(KNothing(d, k), NoAlt)
    case KBack(p, _, d, k) => VPass(KPiece(p, d, k))
    case KLoop(p, from, d, k) => VChoice(KBack(p, from, d, k), AltAt(KSkip(d, k)))
  }

  // --------------------------------------------- what a node can lead to

  ghost predicate ReachView(v: View, x: Subject, i: nat, e: nat) {
    match v
    case VEnd => i == e
    case VTest(a, k) => exists j: nat :: MatchAtom(a, x, i, j) && Reach(k, x, j, e)
    case VPass(k) => Reach(k, x, i, e)
    case VOpen(_, k) => Reach(k, x, i, e)
    case VClose(_, k) => Reach(k, x, i, e)
    case VChoice(k, alt) => Reach(k, x, i, e) || (alt.AltAt? && Reach(alt.k, x, i, e))
    case VRepeat(a, min, k) => exists j: nat :: MatchMany(a, min, x.(loose := false), i, j) && Reach(k, x, j, e)
  }

  /** Two continuations with the same end, one match of the first fragment being one of the other's. */
  lemma SameRest(c: Cont, c': Cont, x: Subject, i: nat, e: nat)
    requires !c.KEnd? && !c'.KEnd? && c.k == c'.k
    requires forall j: nat :: MatchFirst(c, x, i, j) ==> MatchFirst(c', x, i, j)
    requires Reach(c, x, i, e)
    ensures Reach(c', x, i, e)
  {
    hide MatchFirst;
    var j := ReachSplit(c, x, i, e);
    ReachJoin(c', x, i, j, e);
  }

  lemma ReachEmpty(c: Cont, x: Subject, i: nat, e: nat)
    requires c.KClose? || c.KNothing? || c.KSkip?
    ensures Reach(c, x, i, e) <==> Reach(c.k, x, i, e)
  {
    if Reach(c, x, i, e) {
      var j := ReachSplit(c, x, i, e);
    }
    if Reach(c.k, x, i, e) {
      ReachJoin(c, x, i, i, e);
    }
  }

  /** A fragment made of two is a fragment followed by the other. */
  lemma {:induction false} ReachTwo(c: Cont, first: Cont, x: Subject, i: nat, e: nat)
    requires !c.KEnd? && !first.KEnd? && !first.k.KEnd? && first.k.k == c.k
    requires forall j: nat, l: nat :: MatchFirst(first, x, i, j) && MatchFirst(first.k, x, j, l) ==> MatchFirst(c, x, i, l)
    requires forall l: nat :: MatchFirst(c, x, i, l) ==>
      exists j: nat :: MatchFirst(first, x, i, j) && MatchFirst(first.k, x, j, l)
    ensures Reach(c, x, i, e) <==> Reach(first, x, i, e)
  {
    hide MatchFirst;
    if Reach(c, x, i, e) {
      var l := ReachSplit(c, x, i, e);
      var j: nat :| MatchFirst(first, x, i, j) && MatchFirst(first.k, x, j, l);
      ReachJoin(first.k, x, j, l, e);
      ReachJoin(first, x, i, j, e);
    }
    if Reach(first, x, i, e) {
      var j := ReachSplit(first, x, i, e);
      var l := ReachSplit(first.k, x, j, e);
      ReachJoin(c, x, i, l, e);
    }
  }

  lemma AtomPaths(a: Atom, d: nat, k: Cont, x: Subject, i: nat, e: nat)
    ensures Reach(KAtom(a, d, k), x, i, e) <==> ReachView(ExposeAtom(a, d, k), x, i, e)
  {
    if a.Group? {
      var alts, close := KAlts(a.alts, KClose(a.no, d, k)), KClose(a.no, d, k);
      forall l: nat | MatchAtom(a, x, i, l)
        ensures exists j: nat :: MatchFirst(alts, x, i, j) && MatchFirst(close, x, j, l)
      {
        assert MatchFirst(alts, x, i, l) && MatchFirst(close, x, l, l);
      }
      ReachTwo(KAtom(a, d, k), alts, x, i, e);
    }
  }

  lemma {:induction false} StarPaths(a: Atom, from: nat, d: nat, k: Cont, x: Subject, i: nat, e: nat)
    requires !SimpleAtom(a)
    ensures var p := Piece(a, ZeroOrMore);
      Reach(KPiece(p, d, k), x, i, e) <==> Reach(KAtom(a, 0, KBack(p, from, d, k)), x, i, e) || Reach(KSkip(d, k), x, i, e)
  {
    hide MatchMany, MatchAtom;
    var p := Piece(a, ZeroOrMore);
    var c, back, skip := KPiece(p, d, k), KBack(p, from, d, k), KSkip(d, k);
    var again := KAtom(a, 0, back);
    if Reach(c, x, i, e) {
      var j := ReachSplit(c, x, i, e);
      StarCases(a, x, i, j);
      if i == j {
        ReachJoin(skip, x, i, i, e);
      } else {
        var l := PlusSplit(a, x, i, j);
        ReachJoin(back, x, l, j, e);
        ReachJoin(again, x, i, l, e);
      }
    }
    if Reach(again, x, i, e) {
      var l := ReachSplit(again, x, i, e);
      var j := ReachSplit(back, x, l, e);
      PlusJoin(a, x, i, l, j);
      StarCases(a, x, i, j);
      ReachJoin(c, x, i, j, e);
    }
    if Reach(skip, x, i, e) {
      ReachEmpty(skip, x, i, e);
      StarCases(a, x, i, i);
      ReachJoin(c, x, i, i, e);
    }
  }

  lemma {:induction false} PlusPaths(a: Atom, from: nat, d: nat, k: Cont, x: Subject, i: nat, e: nat)
    requires !SimpleAtom(a)
    ensures var p := Piece(a, OneOrMore);
      Reach(KPiece(p, d, k), x, i, e) <==> Reach(KAtom(a, 0, KLoop(p, from, d, k)), x, i, e)
  {
    hide MatchMany, MatchAtom;
    var p := Piece(a, OneOrMore);
    var c, loop := KPiece(p, d, k), KLoop(p, from, d, k);
    var again := KAtom(a, 0, loop);
    if Reach(c, x, i, e) {
      var j := ReachSplit(c, x, i, e);
      var l := PlusSplit(a, x, i, j);
      ReachJoin(loop, x, l, j, e);
      ReachJoin(again, x, i, l, e);
    }
    if Reach(again, x, i, e) {
      var l := ReachSplit(again, x, i, e);
      var j := ReachSplit(loop, x, l, e);
      PlusJoin(a, x, i, l, j);
      ReachJoin(c, x, i, j, e);
    }
  }

  lemma LoopPaths(p: Piece, from: nat, d: nat, k: Cont, x: Subject, i: nat, e: nat)
    requires p.mult == OneOrMore && !SimpleAtom(p.atom)
    ensures Reach(KLoop(p, from, d, k), x, i, e) <==> Reach(KBack(p, from, d, k), x, i, e) || Reach(KSkip(d, k), x, i, e)
  {
    hide MatchMany;
    var loop, back, skip := KLoop(p, from, d, k), KBack(p, from, d, k), KSkip(d, k);
    if Reach(loop, x, i, e) {
      var j := ReachSplit(loop, x, i, e);
      StarCases(p.atom, x, i, j);
      if i == j {
        ReachJoin(skip, x, i, i, e);
      } else {
        ReachJoin(back, x, i, j, e);
      }
    }
    if Reach(back, x, i, e) {
      var j := ReachSplit(back, x, i, e);
      StarCases(p.atom, x, i, j);
      ReachJoin(loop, x, i, j, e);
    }
    if Reach(skip, x, i, e) {
      ReachEmpty(skip, x, i, e);
      StarCases(p.atom, x, i, i);
      ReachJoin(loop, x, i, i, e);
    }
  }

  lemma OptPaths(p: Piece, d: nat, k: Cont, x: Subject, i: nat, e: nat)
    requires p.mult == ZeroOrOne
    ensures Reach(KPiece(p, d, k), x, i, e) <==> Reach(KAtom(p.atom, 3, KNothing(d, k)), x, i, e) || Reach(KSkip(d, k), x, i, e)
  {
    hide MatchAtom;
    var c, nothing, skip := KPiece(p, d, k), KNothing(d, k), KSkip(d, k);
    var once := KAtom(p.atom, 3, nothing);
    if Reach(c, x, i, e) {
      var j := ReachSplit(c, x, i, e);
      if i == j {
        ReachJoin(skip, x, i, i, e);
      } else {
        ReachEmpty(nothing, x, j, e);
        ReachJoin(once, x, i, j, e);
      }
    }
    if Reach(once, x, i, e) {
      var j := ReachSplit(once, x, i, e);
      ReachEmpty(nothing, x, j, e);
      ReachJoin(c, x, i, j, e);
    }
    if Reach(skip, x, i, e) {
      ReachEmpty(skip, x, i, e);
      ReachJoin(c, x, i, i, e);
    }
  }

  lemma PiecePaths(p: Piece, d: nat, k: Cont, x: Subject, i: nat, e: nat)
    ensures Reach(KPiece(p, d, k), x, i, e) <==> ReachView(ExposePiece(p, i, d, k), x, i, e)
  {
    hide MatchMany, MatchAtom;
    var a := p.atom;
    match p.mult {
      case One =>
        AtomPaths(a, d, k, x, i, e);
        if Reach(KPiece(p, d, k), x, i, e) { SameRest(KPiece(p, d, k), KAtom(a, d, k), x, i, e); }
        if Reach(KAtom(a, d, k), x, i, e) { SameRest(KAtom(a, d, k), KPiece(p, d, k), x, i, e); }
      case ZeroOrMore =>
        if !SimpleAtom(a) { StarPaths(a, i, d, k, x, i, e); }
      case OneOrMore =>
        if !SimpleAtom(a) {
          PlusPaths(a, i, d, k, x, i, e);
          AtomPaths(a, 0, KLoop(p, i, d, k), x, i, e);
        }
      case ZeroOrOne =>
        OptPaths(p, d, k, x, i, e);
    }
  }

  lemma AltsPaths(bs: seq<Branch>, k: Cont, x: Subject, i: nat, e: nat)
    requires |bs| > 0
    ensures Reach(KAlts(bs, k), x, i, e) <==> ReachView(Expose(KAlts(bs, k), i), x, i, e)
  {
    hide MatchPieces;
    var all := KAlts(bs, k);
    var first, rest := KBody(bs[0].pieces, AltsLen(bs[1..]), k), KAlts(bs[1..], k);
    if Reach(all, x, i, e) {
      var j := ReachSplit(all, x, i, e);
      if MatchPieces(bs[0].pieces, x, i, j) {
        ReachJoin(first, x, i, j, e);
      } else {
        ReachJoin(rest, x, i, j, e);
      }
    }
    if Reach(first, x, i, e) {
      SameRest(first, all, x, i, e);
    }
    if |bs| > 1 && Reach(rest, x, i, e) {
      SameRest(rest, all, x, i, e);
    }
  }

  lemma BodyPaths(ps: seq<Piece>, d: nat, k: Cont, x: Subject, i: nat, e: nat)
    ensures Reach(KBody(ps, d, k), x, i, e) <==> ReachView(Expose(KBody(ps, d, k), i), x, i, e)
  {
    hide MatchPiece;
    var c := KBody(ps, d, k);
    if |ps| == 0 {
    } else if |ps| == 1 {
      PiecePaths(ps[0], d, k, x, i, e);
      var one := KPiece(ps[0], d, k);
      forall j: nat
        ensures MatchPieces(ps, x, i, j) <==> MatchPiece(ps[0], x, i, j)
      {
        if MatchPieces(ps, x, i, j) { var l := PiecesSplit(ps, x, i, j); }
        if MatchPiece(ps[0], x, i, j) { PiecesJoin(ps, x, i, j, j); }
      }
      if Reach(c, x, i, e) { SameRest(c, one, x, i, e); }
      if Reach(one, x, i, e) { SameRest(one, c, x, i, e); }
    } else {
      var rest := KBody(ps[1..], d, k);
      PiecePaths(ps[0], 0, rest, x, i, e);
      forall j: nat | MatchPieces(ps, x, i, j)
        ensures exists l: nat :: MatchFirst(KPiece(ps[0], 0, rest), x, i, l) && MatchFirst(rest, x, l, j)
      {
        var l := PiecesSplit(ps, x, i, j);
        assert MatchFirst(KPiece(ps[0], 0, rest), x, i, l) && MatchFirst(rest, x, l, j);
      }
      forall l: nat, j: nat | MatchPiece(ps[0], x, i, l) && MatchPieces(ps[1..], x, l, j)
        ensures MatchPieces(ps, x, i, j)
      {
        PiecesJoin(ps, x, i, l, j);
      }
      ReachTwo(c, KPiece(ps[0], 0, rest), x, i, e);
    }
  }

  /** The node seen leads exactly where the continuation does. */
  lemma {:induction false} ExposePaths(c: Cont, x: Subject, i: nat, e: nat)
    requires c.KAlts? ==> |c.bs| > 0
    requires c.KLoop? ==> IsLoop(c.p) && c.p.mult == OneOrMore
    ensures Reach(c, x, i, e) <==> ReachView(Expose(c, i), x, i, e)
  {
    hide MatchPiece, MatchPieces, MatchAtom, MatchMany, MatchAlts;
    match c {
      case KEnd =>
      case KAlts(bs, k) => AltsPaths(bs, k, x, i, e);
      case KBody(ps, d, k) => BodyPaths(ps, d, k, x, i, e);
      case KPiece(p, d, k) => PiecePaths(p, d, k, x, i, e);
      case KAtom(a, d, k) => AtomPaths(a, d, k, x, i, e);
      case KClose(_, _, _) => ReachEmpty(c, x, i, e);
      case KNothing(_, _) => ReachEmpty(c, x, i, e);
      case KSkip(d, k) => ReachEmpty(c, x, i, e); ReachEmpty(KNothing(d, k), x, i, e);
      case KBack(p, _, d, k) =>
        if Reach(c, x, i, e) { SameRest(c, KPiece(p, d, k), x, i, e); }
        if Reach(KPiece(p, d, k), x, i, e) { SameRest(KPiece(p, d, k), c, x, i, e); }
      case KLoop(p, from, d, k) => LoopPaths(p, from, d, k, x, i, e);
    }
  }

  // ------------------------------------- what the code at a node looks like

  ghost predicate LinkTo(code: seq<byte>, pc: int, k: Cont) {
    0 <= pc && pc + 3 <= |code| && LinkAt(code, pc) > 0 && Located(code, pc + LinkAt(code, pc), k)
  }

  ghost predicate Shows(code: seq<byte>, pc: int, v: View) {
    && 0 <= pc && pc + 3 <= |code|
    && match v
       case VEnd => code[pc] == END
       case VTest(a, k) => !a.Group? && code[pc] == OpOf(a) && LinkTo(code, pc, k) && Sub(code, pc + 3, Operand(a))
       case VPass(k) =>
         || (code[pc] == NOTHING && LinkTo(code, pc, k))
         || (code[pc] == BACK && LinkAt(code, pc) > 0 && Located(code, pc - LinkAt(code, pc), k))
       case VOpen(no, k) => 0 < no < NSUBEXP && code[pc] == OPEN + no && LinkTo(code, pc, k)
       case VClose(no, k) => 0 < no < NSUBEXP && code[pc] == CLOSE + no && LinkTo(code, pc, k)
       case VChoice(k, alt) =>
         && code[pc] == BRANCH && Located(code, pc + 3, k)
         && LinkAt(code, pc) > 0 && pc + LinkAt(code, pc) + 3 <= |code|
         && (alt.NoAlt? <==> code[pc + LinkAt(code, pc)] != BRANCH)
         && (alt.AltAt? ==> Located(code, pc + LinkAt(code, pc), alt.k))
       case VRepeat(a, min, k) =>
         && SimpleAtom(a) && min <= 1 && code[pc] == (if min == 0 then STARNODE else PLUSNODE)
         && LinkTo(code, pc, k) && Sub(code, pc + 3, AtomCode(a, -1))
  }

  lemma SubTwo(code: seq<byte>, pc: int, a: seq<byte>, b: seq<byte>)
    requires Sub(code, pc, a + b)
    ensures Sub(code, pc, a) && Sub(code, pc + |a|, b)
  {
    var w := code[pc..pc + |a + b|];
    assert w == a + b;
    assert code[pc..pc + |a|] == w[..|a|] == a;
    assert code[pc + |a|..pc + |a| + |b|] == w[|a|..] == b;
  }

  lemma SubNode(code: seq<byte>, pc: int, op: byte, off: nat)
    requires Sub(code, pc, Node(op, off)) && off < 0x1_0000
    ensures 0 <= pc && pc + 3 <= |code| && code[pc] == op && LinkAt(code, pc) == off
  {
    var w := code[pc..pc + 3];
    NodeLink(op, off);
    assert code[pc] == w[0] && code[pc + 1] == w[1] && code[pc + 2] == w[2];
  }

  lemma {:induction false} LocatedBound(code: seq<byte>, pc: int, c: Cont)
    requires Located(code, pc, c)
    ensures 0 <= pc <= |code|
  {
    hide PieceCode, AtomCode, BodyCode, AltsCode, EmptyBranch, Node;
    match c {
      case KEnd =>
      case _ =>
    }
  }

  lemma NodeLeads(code: seq<byte>, pc: int, op: byte, off: nat, k: Cont)
    requires Sub(code, pc, Node(op, off)) && 0 < off && Located(code, pc + off, k) && |code| < 0x1_0000
    ensures LinkTo(code, pc, k) && code[pc] == op
  {
    hide Located, Node;
    LocatedBound(code, pc + off, k);
    SubNode(code, pc, op, off);
  }

  lemma AtomShows(code: seq<byte>, pc: int, a: Atom, d: nat, k: Cont)
    requires Sub(code, pc, AtomCode(a, d)) && Located(code, pc + AtomLen(a) + d, k) && WfAtom(a) && |code| < 0x1_0000
    ensures Shows(code, pc, ExposeAtom(a, d, k))
  {
    hide AltsCode, AltsLen, Sub, Node, ClassBytes, WfAlts;
    if a.Group? {
      var open, close := Node(OpOf(a), 3), Node(CloseOf(a.no), 3 + d);
      SubTwo(code, pc, open + AltsCode(a.alts), close);
      SubTwo(code, pc, open, AltsCode(a.alts));
      assert Located(code, pc + 3 + AltsLen(a.alts), KClose(a.no, d, k));
      assert Located(code, pc + 3, KAlts(a.alts, KClose(a.no, d, k)));
      NodeLeads(code, pc, OpOf(a), 3, KAlts(a.alts, KClose(a.no, d, k)));
    } else {
      var head := Node(OpOf(a), AtomLen(a) + d);
      assert AtomCode(a, d) == head + Operand(a);
      SubTwo(code, pc, head, Operand(a));
      NodeLeads(code, pc, OpOf(a), AtomLen(a) + d, k);
    }
  }

  lemma {:induction false} SkipShows(code: seq<byte>, pc: int, d: nat, k: Cont)
    requires Sub(code, pc, EmptyBranch(d)) && Located(code, pc + 6 + d, k) && |code| < 0x1_0000
    ensures Located(code, pc, KSkip(d, k))
    ensures Located(code, pc + 3, KNothing(d, k)) && Shows(code, pc + 3, VPass(k))
    ensures Shows(code, pc, VChoice(KNothing(d, k), NoAlt)) && code[pc] == BRANCH
  {
    hide Sub, Node;
    SubTwo(code, pc, Node(BRANCH, 3), Node(NOTHING, 3 + d));
    LocatedBound(code, pc + 6 + d, k);
    SubNode(code, pc, BRANCH, 3);
    SubNode(code, pc + 3, NOTHING, 3 + d);
  }

  lemma ChoiceShows(code: seq<byte>, pc: int, off: nat, k: Cont, d: nat, rest: Cont)
    requires Sub(code, pc, Node(BRANCH, off)) && 0 < off && Located(code, pc + 3, k) && |code| < 0x1_0000
    requires Sub(code, pc + off, EmptyBranch(d)) && Located(code, pc + off + 6 + d, rest)
    ensures Shows(code, pc, VChoice(k, AltAt(KSkip(d, rest))))
  {
    hide Sub, Node, EmptyBranch, Located;
    SkipShows(code, pc + off, d, rest);
    SubNodeShort(code, pc, BRANCH, off);
  }

  lemma {:induction false} LoopParts(code: seq<byte>, pc: int, p: Piece, d: nat, k: Cont)
    requires Sub(code, pc, PieceCode(p, d)) && IsLoop(p)
    ensures var len, b := AtomLen(p.atom), if p.mult == ZeroOrMore then pc + 3 else pc;
      && (p.mult == ZeroOrMore ==> Sub(code, pc, Node(BRANCH, len + 6)))
      && Sub(code, b, AtomCode(p.atom, 0))
      && (p.mult == OneOrMore ==> Sub(code, pc + len, Node(BRANCH, 6)))
      && Sub(code, pc + len + 3, Node(BACK, len + 3))
      && Sub(code, pc + len + 6, EmptyBranch(d))
  {
    hide Sub, Node, EmptyBranch, AtomCode;
    var x, len := AtomCode(p.atom, 0), AtomLen(p.atom);
    if p.mult == ZeroOrMore {
      SubTwo(code, pc, Node(BRANCH, len + 6) + x + Node(BACK, len + 3), EmptyBranch(d));
      SubTwo(code, pc, Node(BRANCH, len + 6) + x, Node(BACK, len + 3));
      SubTwo(code, pc, Node(BRANCH, len + 6), x);
    } else {
      SubTwo(code, pc, x + Node(BRANCH, 6) + Node(BACK, len + 3), EmptyBranch(d));
      SubTwo(code, pc, x + Node(BRANCH, 6), Node(BACK, len + 3));
      SubTwo(code, pc, x, Node(BRANCH, 6));
    }
  }

  lemma OneShown(p: Piece, i: nat, d: nat, k: Cont)
    requires p.mult == One
    ensures PieceCode(p, d) == AtomCode(p.atom, d) && PieceLen(p) == AtomLen(p.atom) && ExposePiece(p, i, d, k) == ExposeAtom(p.atom, d, k)
    ensures WfPiece(p) ==> WfAtom(p.atom)
  {
    hide AtomCode, AtomLen, WfAtom, WideAtom;
  }

  lemma SimpleShown(p: Piece, i: nat, d: nat, k: Cont)
    requires !IsLoop(p) && (p.mult == ZeroOrMore || p.mult == OneOrMore)
    ensures SimpleAtom(p.atom) && ExposePiece(p, i, d, k) == VRepeat(p.atom, if p.mult == OneOrMore then 1 else 0, k)
  {
  }

  lemma OptShows(code: seq<byte>, pc: int, p: Piece, i: nat, d: nat, k: Cont)
    requires Sub(code, pc, PieceCode(p, d)) && Located(code, pc + PieceLen(p) + d, k) && WfPiece(p) && |code| < 0x1_0000
    requires p.mult == ZeroOrOne
    ensures Shows(code, pc, ExposePiece(p, i, d, k))
  {
    hide Sub, Node, EmptyBranch, AtomCode, AtomLen, WfAtom, Shows;
    var a, len := p.atom, AtomLen(p.atom);
    SubTwo(code, pc, Node(BRANCH, len + 3) + AtomCode(a, 3), EmptyBranch(d));
    SubTwo(code, pc, Node(BRANCH, len + 3), AtomCode(a, 3));
    SkipShows(code, pc + len + 3, d, k);
    ChoiceShows(code, pc, len + 3, KAtom(a, 3, KNothing(d, k)), d, k);
  }

  lemma StarPlusShows(code: seq<byte>, pc: int, p: Piece, i: nat, d: nat, k: Cont)
    requires Sub(code, pc, PieceCode(p, d)) && Located(code, pc + PieceLen(p) + d, k) && WfPiece(p) && |code| < 0x1_0000
    requires IsLoop(p)
    ensures Shows(code, pc, ExposePiece(p, i, d, k))
  {
    hide Sub, Node, EmptyBranch, AtomCode, AtomLen, WfAtom, Shows;
    var a, len := p.atom, AtomLen(p.atom);
    LoopParts(code, pc, p, d, k);
    if p.mult == ZeroOrMore {
      assert Located(code, pc + len + 3, KBack(p, i, d, k));
      ChoiceShows(code, pc, len + 6, KAtom(a, 0, KBack(p, i, d, k)), d, k);
    } else {
      assert Located(code, pc + len, KLoop(p, i, d, k));
      AtomShows(code, pc, a, 0, KLoop(p, i, d, k));
    }
  }

  lemma PieceShows(code: seq<byte>, pc: int, p: Piece, i: nat, d: nat, k: Cont)
    requires Sub(code, pc, PieceCode(p, d)) && Located(code, pc + PieceLen(p) + d, k) && WfPiece(p) && |code| < 0x1_0000
    ensures Shows(code, pc, ExposePiece(p, i, d, k))
  {
    hide *;
    if p.mult == One {
      OneShown(p, i, d, k);
      AtomShows(code, pc, p.atom, d, k);
    } else if p.mult == ZeroOrOne {
      OptShows(code, pc, p, i, d, k);
    } else if IsLoop(p) {
      StarPlusShows(code, pc, p, i, d, k);
    } else {
      SimpleShown(p, i, d, k);
      RepeatShows(code, pc, p, d, k);
    }
  }

  lemma RepeatShows(code: seq<byte>, pc: int, p: Piece, d: nat, k: Cont)
    requires Sub(code, pc, PieceCode(p, d)) && Located(code, pc + PieceLen(p) + d, k) && |code| < 0x1_0000
    requires SimpleAtom(p.atom) && (p.mult == ZeroOrMore || p.mult == OneOrMore)
    ensures Shows(code, pc, VRepeat(p.atom, if p.mult == OneOrMore then 1 else 0, k))
  {
    hide Sub, Node, AtomCode, AtomLen;
    var op := if p.mult == OneOrMore then PLUSNODE else STARNODE;
    SubTwo(code, pc, Node(op, 3 + AtomLen(p.atom) + d), AtomCode(p.atom, -1));
    NodeLeads(code, pc, op, 3 + AtomLen(p.atom) + d, k);
  }

  lemma AltsShows(code: seq<byte>, pc: int, bs: seq<Branch>, k: Cont)
    requires Located(code, pc, KAlts(bs, k)) && |code| < 0x1_0000
    ensures Shows(code, pc, Expose(KAlts(bs, k), 0))
  {
    hide Sub, Node, BodyCode, BodyLen;
    var ps := bs[0].pieces;
    var node := Node(BRANCH, 3 + BodyLen(ps));
    var d := AltsLen(bs[1..]);
    SubTwo(code, pc, node + BodyCode(ps, d), AltsCode(bs[1..]));
    SubTwo(code, pc, node, BodyCode(ps, d));
    SubNodeShort(code, pc, BRANCH, 3 + BodyLen(ps));
    assert Located(code, pc + 3, KBody(ps, d, k));
    var nx := pc + 3 + BodyLen(ps);
    if |bs| == 1 {
      if k.KEnd? {
        SubNode(code, nx, END, 0);
      } else {
        SubNodeShort(code, nx, CloseOf(k.no), 3 + k.d);
      }
    } else {
      assert Located(code, nx, KAlts(bs[1..], k));
      AltsBegin(code, nx, bs[1..], k);
    }
  }

  lemma AltsBegin(code: seq<byte>, pc: int, bs: seq<Branch>, k: Cont)
    requires Located(code, pc, KAlts(bs, k)) && |bs| > 0
    ensures 0 <= pc < |code| && code[pc] == BRANCH
  {
    hide Node, BodyCode, BodyLen;
    var ps := bs[0].pieces;
    var node := Node(BRANCH, 3 + BodyLen(ps));
    SubTwo(code, pc, node + BodyCode(ps, AltsLen(bs[1..])), AltsCode(bs[1..]));
    SubTwo(code, pc, node, BodyCode(ps, AltsLen(bs[1..])));
    hide Sub;
    SubNodeShort(code, pc, BRANCH, 3 + BodyLen(ps));
  }

  /** The opcode of a node, and its link where that fits the two bytes. */
  lemma SubNodeShort(code: seq<byte>, pc: int, op: byte, off: nat)
    requires Sub(code, pc, Node(op, off))
    ensures 0 <= pc && pc + 3 <= |code| && code[pc] == op
    ensures off < 0x1_0000 ==> LinkAt(code, pc) == off
  {
    if off < 0x1_0000 {
      SubNode(code, pc, op, off);
    } else {
      var w := code[pc..pc + 3];
      assert code[pc] == w[0];
    }
  }

  /** The code at the position of a continuation is the node it exposes. */
  lemma {:induction false} ExposeShows(code: seq<byte>, pc: int, c: Cont, i: nat, wide: bool)
    requires Located(code, pc, c) && Moving(c, i, wide) && |code| < 0x1_0000
    ensures Shows(code, pc, Expose(c, i))
  {
    hide Sub, Node, EmptyBranch, AtomCode, AtomLen, AltsCode, AltsLen, PieceCode, PieceLen, Shows, WfAtom, WfAlts;
    match c {
      case KEnd => SubNode(code, pc, END, 0); EndShows(code, pc);
      case KAlts(bs, k) => AltsShows(code, pc, bs, k);
      case KBody(ps, d, k) => BodyShows(code, pc, ps, i, d, k);
      case KPiece(p, d, k) => PieceShows(code, pc, p, i, d, k);
      case KAtom(a, d, k) => AtomShows(code, pc, a, d, k);
      case KClose(no, d, k) => CloseShows(code, pc, no, d, k);
      case KNothing(d, k) => NothingShows(code, pc, d, k);
      case KSkip(d, k) => SkipShows(code, pc, d, k);
      case KBack(p, from, d, k) => BackShows(code, pc, p, from, d, k);
      case KLoop(p, from, d, k) => LoopShows(code, pc, p, from, d, k);
    }
  }

  lemma EndShows(code: seq<byte>, pc: int)
    requires 0 <= pc && pc + 3 <= |code| && code[pc] == END
    ensures Shows(code, pc, VEnd)
  {
  }

  lemma CloseShows(code: seq<byte>, pc: int, no: nat, d: nat, k: Cont)
    requires Located(code, pc, KClose(no, d, k)) && |code| < 0x1_0000
    ensures Shows(code, pc, VClose(no, k))
  {
    hide Sub, Node;
    NodeLeads(code, pc, CloseOf(no), 3 + d, k);
  }

  lemma NothingShows(code: seq<byte>, pc: int, d: nat, k: Cont)
    requires Sub(code, pc, Node(NOTHING, 3 + d)) && Located(code, pc + 3 + d, k) && |code| < 0x1_0000
    ensures Shows(code, pc, VPass(k))
  {
    hide Located, Node, Sub;
    NodeLeads(code, pc, NOTHING, 3 + d, k);
  }

  lemma BodyShows(code: seq<byte>, pc: int, ps: seq<Piece>, i: nat, d: nat, k: Cont)
    requires Sub(code, pc, BodyCode(ps, d)) && Located(code, pc + BodyLen(ps) + d, k) && WfPieces(ps) && |code| < 0x1_0000
    ensures Shows(code, pc, Expose(KBody(ps, d, k), i))
  {
    hide Sub, Node, PieceCode, PieceLen, Shows, WfPiece;
    if |ps| == 0 {
      NothingShows(code, pc, d, k);
    } else if |ps| == 1 {
      assert PiecesLen(ps[1..]) == 0;
      PieceShows(code, pc, ps[0], i, d, k);
    } else {
      SubTwo(code, pc, PieceCode(ps[0], 0), PiecesCode(ps[1..], d));
      assert Located(code, pc + PieceLen(ps[0]), KBody(ps[1..], d, k));
      PieceShows(code, pc, ps[0], i, 0, KBody(ps[1..], d, k));
    }
  }

  lemma BackShows(code: seq<byte>, pc: int, p: Piece, from: nat, d: nat, k: Cont)
    requires Located(code, pc, KBack(p, from, d, k)) && |code| < 0x1_0000
    ensures Shows(code, pc, VPass(KPiece(p, d, k)))
  {
    hide Sub, Node, PieceCode, PieceLen, AtomLen;
    var len := AtomLen(p.atom);
    LoopParts(code, pc - len - 3, p, d, k);
    SubNodeShort(code, pc, BACK, len + 3);
    assert Located(code, pc - len - 3, KPiece(p, d, k));
    LocatedBound(code, pc - len - 3, KPiece(p, d, k));
  }

  lemma {:induction false} LoopShows(code: seq<byte>, pc: int, p: Piece, from: nat, d: nat, k: Cont)
    requires Located(code, pc, KLoop(p, from, d, k)) && |code| < 0x1_0000
    ensures Shows(code, pc, Expose(KLoop(p, from, d, k), 0))
  {
    hide Sub, Node, PieceCode, AtomLen, EmptyBranch, Shows;
    var len := AtomLen(p.atom);
    LoopParts(code, pc - len, p, d, k);
    assert Located(code, pc + 3, KBack(p, from, d, k));
    ChoiceShows(code, pc, 6, KBack(p, from, d, k), d, k);
  }

  // ------------------------------------------ every step makes progress

  ghost predicate Smaller(k: Cont, i: nat, wide: bool, size: nat) {
    Moving(k, i, wide) && Size(k, i) < size
  }

  ghost predicate Advances(v: View, i: nat, wide: bool, size: nat) {
    match v
    case VEnd => true
    case VTest(a, k) => WfAtom(a) && !a.Group? && Smaller(k, i, wide || WideAtom(a), size)
    case VPass(k) => Smaller(k, i, wide, size)
    case VOpen(_, k) => Smaller(k, i, wide, size)
    case VClose(_, k) => Smaller(k, i, wide, size)
    case VChoice(k, alt) => Smaller(k, i, wide, size) && (alt.AltAt? ==> Smaller(alt.k, i, wide, size))
    case VRepeat(a, min, k) => WfAtom(a) && SimpleAtom(a) && Smaller(k, i, wide || min > 0, size)
  }

  lemma {:induction false} AtomAdvances(a: Atom, d: nat, k: Cont, i: nat, wide: bool)
    requires WfAtom(a) && Moving(k, i, wide || WideAtom(a))
    ensures Advances(ExposeAtom(a, d, k), i, wide, AtomSize(a) + Size(k, i))
  {
    hide WfAlts, WideAlts, AltsSize;
    if a.Group? {
      var close := KClose(a.no, d, k);
      assert Moving(close, i, wide || WideAlts(a.alts));
      assert Moving(KAlts(a.alts, close), i, wide);
      assert Size(close, i) == 1 + Size(k, i);
    }
  }

  lemma OneExposes(p: Piece, i: nat, d: nat, k: Cont)
    requires p.mult == One
    ensures ExposePiece(p, i, d, k) == ExposeAtom(p.atom, d, k) && AtomSize(p.atom) <= PieceSize(p)
    ensures WfPiece(p) ==> WfAtom(p.atom)
    ensures WidePiece(p) == WideAtom(p.atom)
  {
    hide WfAtom, WideAtom, AtomSize;
  }

  lemma {:induction false} OptAdvances(p: Piece, d: nat, k: Cont, i: nat, wide: bool)
    requires WfPiece(p) && p.mult == ZeroOrOne && Moving(k, i, wide || WidePiece(p))
    ensures Advances(ExposePiece(p, i, d, k), i, wide, PieceSize(p) + Size(k, i))
  {
    hide WfAtom, WideAtom, AtomSize;
    var nothing := KNothing(d, k);
    if WideAtom(p.atom) { MovingWide(k, i, wide); }
    assert Moving(nothing, i, wide || WideAtom(p.atom));
    assert Moving(KAtom(p.atom, 3, nothing), i, wide);
    assert Size(nothing, i) == 1 + Size(k, i);
  }

  lemma {:induction false} StarAdvances(p: Piece, d: nat, k: Cont, i: nat, wide: bool)
    requires WfPiece(p) && p.mult == ZeroOrMore && Moving(k, i, wide || WidePiece(p))
    ensures Advances(ExposePiece(p, i, d, k), i, wide, PieceSize(p) + Size(k, i))
  {
    hide WfAtom, WideAtom, AtomSize;
    if !SimpleAtom(p.atom) {
      MovingWide(k, i, wide);
      assert Moving(KBack(p, i, d, k), i, true);
      assert Moving(KAtom(p.atom, 0, KBack(p, i, d, k)), i, wide);
      assert Size(KBack(p, i, d, k), i) == 0;
    }
  }

  lemma {:induction false} PlusAdvances(p: Piece, d: nat, k: Cont, i: nat, wide: bool)
    requires WfPiece(p) && p.mult == OneOrMore && Moving(k, i, wide || WidePiece(p))
    ensures Advances(ExposePiece(p, i, d, k), i, wide, PieceSize(p) + Size(k, i))
  {
    hide WfAtom, WideAtom, AtomSize;
    if !SimpleAtom(p.atom) {
      var loop := KLoop(p, i, d, k);
      assert Moving(loop, i, true);
      AtomAdvances(p.atom, 0, loop, i, wide);
      AdvancesMore(ExposeAtom(p.atom, 0, loop), i, wide, AtomSize(p.atom) + Size(loop, i), PieceSize(p) + Size(k, i));
    }
  }

  lemma {:induction false} PieceAdvances(p: Piece, d: nat, k: Cont, i: nat, wide: bool)
    requires WfPiece(p) && Moving(k, i, wide || WidePiece(p))
    ensures Advances(ExposePiece(p, i, d, k), i, wide, PieceSize(p) + Size(k, i))
  {
    hide *;
    match p.mult {
      case One =>
        OneExposes(p, i, d, k);
        AtomAdvances(p.atom, d, k, i, wide);
        AdvancesMore(ExposeAtom(p.atom, d, k), i, wide, AtomSize(p.atom) + Size(k, i), PieceSize(p) + Size(k, i));
      case ZeroOrOne => OptAdvances(p, d, k, i, wide);
      case ZeroOrMore => StarAdvances(p, d, k, i, wide);
      case OneOrMore => PlusAdvances(p, d, k, i, wide);
    }
  }

  lemma AdvancesMore(v: View, i: nat, wide: bool, size: nat, size': nat)
    requires Advances(v, i, wide, size) && size <= size'
    ensures Advances(v, i, wide, size')
  {
    hide WfAtom, WideAtom, Size, Moving;
  }

  lemma {:induction false} BodyAdvances(ps: seq<Piece>, d: nat, k: Cont, i: nat, wide: bool)
    requires WfPieces(ps) && Moving(k, i, wide || WidePieces(ps))
    ensures Advances(Expose(KBody(ps, d, k), i), i, wide, BodySize(ps) + Size(k, i))
  {
    hide WfPiece, WidePiece, PieceSize;
    if |ps| == 1 {
      assert !WidePieces(ps[1..]);
      PieceAdvances(ps[0], d, k, i, wide);
      AdvancesMore(ExposePiece(ps[0], i, d, k), i, wide, PieceSize(ps[0]) + Size(k, i), BodySize(ps) + Size(k, i));
    } else if |ps| > 1 {
      var rest := KBody(ps[1..], d, k);
      assert Moving(rest, i, wide || WidePiece(ps[0])) by {
        assert WidePieces(ps) == (WidePiece(ps[0]) || WidePieces(ps[1..]));
      }
      PieceAdvances(ps[0], 0, rest, i, wide);
    }
  }

  lemma {:induction false} AltsAdvances(bs: seq<Branch>, k: Cont, i: nat, wide: bool)
    requires Moving(KAlts(bs, k), i, wide)
    ensures Advances(Expose(KAlts(bs, k), i), i, wide, AltsSize(bs) + Size(k, i))
  {
    hide WfPieces, WidePieces, BodySize;
    var first, rest := bs[0].pieces, bs[1..];
    var w := wide || WideAlts(bs);
    if !w {
      if WidePieces(first) || WideAlts(rest) { MovingWide(k, i, wide); }
    }
    assert Moving(k, i, wide || WidePieces(first));
    assert Moving(KBody(first, AltsLen(rest), k), i, wide);
    if |bs| > 1 {
      assert Moving(k, i, wide || WideAlts(rest));
      assert Moving(KAlts(rest, k), i, wide);
    }
  }

  /** Whatever a node continues with is smaller, or input has been consumed by then. */
  lemma {:induction false} ExposeAdvances(c: Cont, i: nat)
    requires Moving(c, i, false)
    ensures Advances(Expose(c, i), i, false, Size(c, i))
  {
    hide WfPieces, WfPiece, WidePieces, WidePiece, BodySize, PieceSize, AltsSize, AtomSize, WfAtom, WideAtom, WideAlts, WfAlts;
    match c {
      case KEnd =>
      case KAlts(bs, k) => AltsAdvances(bs, k, i, false);
      case KBody(ps, d, k) => BodyAdvances(ps, d, k, i, false);
      case KPiece(p, d, k) => PieceAdvances(p, d, k, i, false);
      case KAtom(a, d, k) => AtomAdvances(a, d, k, i, false);
      case KClose(_, _, _) =>
      case KNothing(_, _) =>
      case KSkip(_, _) =>
      case KBack(p, from, d, k) =>
        if WidePiece(p) { MovingWide(k, i, false); }
        assert Moving(KPiece(p, d, k), i, false);
      case KLoop(p, from, d, k) =>
        assert Moving(KBack(p, from, d, k), i, false);
        assert Moving(KSkip(d, k), i, false);
    }
  }

  // ------------------------------------------------- outside the memory

  /** From outside the memory every continuation can end there. */
  lemma {:induction false} ReachGone(c: Cont, x: Subject, i: nat, wide: bool)
    requires Moving(c, i, wide)
    ensures Reach(c, x, Gone(x), Gone(x))
  {
    hide MatchAlts, MatchPieces, MatchPiece, MatchAtom, MatchTimes, WfAlts, WfPieces, WfPiece, WfAtom, WideAlts, WidePieces, WidePiece, WideAtom;
    match c {
      case KEnd =>
      case KAlts(bs, k) => AltsGone(bs, x); ReachGone(k, x, i, wide || WideAlts(bs));
      case KBody(ps, _, k) => PiecesGone(ps, x); ReachGone(k, x, i, wide || WidePieces(ps));
      case KPiece(p, _, k) => PieceGone(p, x); ReachGone(k, x, i, wide || WidePiece(p));
      case KAtom(a, _, k) => AtomGone(a, x); ReachGone(k, x, i, wide || WideAtom(a));
      case KBack(p, _, _, k) => PieceGone(p, x); ReachGone(k, x, i, wide);
      case KLoop(p, _, _, k) => StarCases(p.atom, x, Gone(x), Gone(x)); ReachGone(k, x, i, wide);
      case _ => ReachGone(c.k, x, i, wide);
    }
    if !c.KEnd? {
      ReachJoin(c, x, Gone(x), Gone(x), Gone(x));
    }
  }
}
