/**
  `evr_regcomp` and `evr_regexec`: the two compiler passes with the shortcuts they
  dig out of the finished program, and the search that uses those shortcuts.
*/
module RegexExec {
  import opened Basics
  import opened RegexSyntax
  import opened RegexCode
  import opened RegexMeaning
  import opened RegexPaths
  import opened RegexMatcher
  import opened RegexTerminator
  import Compile = RegexCompiler
  import opened RegexGrammar
  import opened RegexCanonical

  /** The compiled form; `regmust` is a position in the program, or -1. */
  datatype Regexp = Regexp(program: seq<byte>, regstart: byte, reganch: bool, regmust: int, regmlen: nat)

  /** The finished program of a pattern. */
  function Program(bs: seq<Branch>): (c: seq<byte>)
    ensures |c| == AltsLen(bs) + 4
  {
    [MAGIC] + (AltsCode(bs) + Node(END, 0))
  }

  // ------------------------------------------------- shortcuts, on trees

  predicate IsLiteral(p: Piece) {
    p.atom.Lit? && p.mult == One
  }

  /** The byte every match starts with, where the first piece of a single branch is a literal; else NUL. */
  function StartByte(bs: seq<Branch>): byte {
    if |bs| == 1 && |bs[0].pieces| > 0 && IsLiteral(bs[0].pieces[0]) && |bs[0].pieces[0].atom.text| > 0
    then bs[0].pieces[0].atom.text[0] else 0
  }

  predicate Anchored(bs: seq<Branch>) {
    |bs| == 1 && |bs[0].pieces| > 0 && bs[0].pieces[0] == Piece(Bol, One)
  }

  /** Of the first `n` pieces, the longest literal, the last one of equals; -1 for none. */
  function Longest(ps: seq<Piece>, n: nat): (m: int)
    requires n <= |ps|
    ensures -1 <= m < n
    ensures m >= 0 ==> IsLiteral(ps[m])
  {
    if n == 0 then -1
    else
      var m := Longest(ps, n - 1);
      if IsLiteral(ps[n - 1]) && (m < 0 || |ps[n - 1].atom.text| >= |ps[m].atom.text|) then n - 1 else m
  }

  /** No literal is longer, and none behind it is as long. */
  lemma {:induction false} LongestIs(ps: seq<Piece>, n: nat, k: nat)
    requires k < n <= |ps| && IsLiteral(ps[k])
    ensures Longest(ps, n) >= 0 && |ps[k].atom.text| <= |ps[Longest(ps, n)].atom.text|
    ensures k > Longest(ps, n) ==> |ps[k].atom.text| < |ps[Longest(ps, n)].atom.text|
  {
    if k < n - 1 {
      LongestIs(ps, n - 1, k);
    }
  }

  /** The literal that must appear, or the empty string. */
  function Must(bs: seq<Branch>): seq<byte> {
    if |bs| != 1 || !SpStartAlts(bs) then []
    else
      var ps := bs[0].pieces;
      var m := Longest(ps, |ps|);
      if m < 0 then [] else ps[m].atom.text
  }

  predicate OccursAt(s: seq<byte>, text: seq<byte>, p: nat) {
    p + |s| <= |text| && text[p..p + |s|] == s
  }

  ghost predicate Occurs(s: seq<byte>, text: seq<byte>) {
    exists p: nat :: OccursAt(s, text, p)
  }

  lemma {:induction false} LiteralOccurs(ps: seq<Piece>, m: nat, x: Subject, i: nat, j: nat)
    requires m < |ps| && IsLiteral(ps[m]) && WfPieces(ps) && MatchPieces(ps, x, i, j) && i <= |x.text| && j <= |x.text|
    ensures Occurs(ps[m].atom.text, x.text)
  {
    hide WfPiece, MatchPiece;
    var k := PiecesSplit(ps, x, i, j);
    PieceWidth(ps[0], x, i, k);
    PiecesWidth(ps[1..], x, k, j);
    if m == 0 {
      LiteralThere(ps[0], x, i, k);
    } else {
      LiteralOccurs(ps[1..], m - 1, x, k, j);
    }
  }

  lemma LiteralThere(p: Piece, x: Subject, i: nat, j: nat)
    requires IsLiteral(p) && WfPiece(p) && MatchPiece(p, x, i, j) && i <= |x.text|
    ensures |p.atom.text| > 0 && At(x, i) == p.atom.text[0] != 0
    ensures j <= |x.text| ==> Occurs(p.atom.text, x.text)
  {
    assert WfAtom(p.atom) && MatchAtom(p.atom, x, i, j);
    AgreeFirst(p.atom.text, Within(x, i, |p.atom.text|), x, i);
    if j <= |x.text| {
      TextAgrees(p.atom.text, x, i);
      assert OccursAt(p.atom.text, x.text, i);
    }
  }

  /** None of the shortcuts excludes a match inside the text. */
  lemma ShortcutsSound(bs: seq<Branch>, x: Subject, i: nat, j: nat)
    requires WfAlts(bs) && MatchAlts(bs, x, i, j) && i <= |x.text|
    ensures StartByte(bs) != 0 ==> At(x, i) == StartByte(bs)
    ensures Anchored(bs) ==> i == 0
    ensures j <= |x.text| ==> Occurs(Must(bs), x.text)
  {
    hide WfAtom, WidePiece, MatchTimes;
    if |bs| == 1 {
      var ps := bs[0].pieces;
      assert MatchPieces(ps, x, i, j);
      if |ps| > 0 {
        var k := PiecesSplit(ps, x, i, j);
        if IsLiteral(ps[0]) {
          LiteralThere(ps[0], x, i, k);
        }
        if ps[0] == Piece(Bol, One) {
          assert MatchAtom(Bol, x, i, k);
        }
      }
      if Must(bs) != [] && j <= |x.text| {
        LiteralOccurs(ps, Longest(ps, |ps|), x, i, j);
      }
    }
    if Must(bs) == [] {
      assert OccursAt([], x.text, 0);
    }
  }

  // ------------------------------------- the chain of the finished program

  /** What the node after the first one stands for, following "next" links. */
  function NextAtom(a: Atom, d: nat, k: Cont): Cont {
    if a.Group? then KAlts(a.alts, KClose(a.no, d, k)) else k
  }

  function NextPiece(p: Piece, d: nat, k: Cont): Cont {
    if p.mult == One then NextAtom(p.atom, d, k)
    else if !IsLoop(p) && p.mult != ZeroOrOne then k
    else if p.mult == OneOrMore then NextAtom(p.atom, 0, KLoop(p, 0, d, k))
    else KSkip(d, k)
  }

  function NextCont(c: Cont): Cont {
    match c
    case KEnd => KEnd
    case KAlts(bs, k) => if |bs| > 1 then KAlts(bs[1..], k) else k
    case KBody(ps, d, k) =>
      if |ps| == 0 then k
      else if |ps| == 1 then NextPiece(ps[0], d, k)
      else NextPiece(ps[0], 0, KBody(ps[1..], d, k))
    case KPiece(p, d, k) => NextPiece(p, d, k)
    case KAtom(a, d, k) => NextAtom(a, d, k)
    case KSkip(d, k) => KNothing(d, k)
    case KLoop(_, _, d, k) => KSkip(d, k)
    case _ => c.k
  }

  lemma NextView(c: Cont)
    requires !c.KEnd? && !c.KBack? && (c.KAlts? ==> |c.bs| > 0)
    ensures var v := Expose(c, 0);
      match v
      case VEnd => false
      case VChoice(_, alt) => if alt.AltAt? then NextCont(c) == alt.k else c.KSkip? || (c.KAlts? && |c.bs| == 1)
      case _ => NextCont(c) == v.k
    ensures Expose(c, 0).VPass? ==> c.KNothing? || (c.KBody? && |c.ps| == 0)
  {
  }

  lemma AltsThere(code: seq<byte>, pc: int, c: Cont)
    requires Located(code, pc, c)
    ensures c.KAlts? ==> |c.bs| > 0
  {
  }

  /** Following a link leads to the node behind. */
  lemma NextLocated(code: seq<byte>, pc: int, c: Cont)
    requires Located(code, pc, c) && Moving(c, 0, true) && |code| < 0x1_0000 && !c.KEnd? && !c.KBack?
    ensures 0 <= pc && pc + 3 <= |code| && LinkAt(code, pc) > 0 && code[pc] != BACK
    ensures Located(code, pc + LinkAt(code, pc), NextCont(c))
    ensures c.KAlts? ==> |c.bs| > 0
    ensures code[pc] == EXACTLY <==> Expose(c, 0).VTest? && Expose(c, 0).a.Lit?
  {
    hide Located, Moving, Expose, NextCont, Sub;
    AltsThere(code, pc, c);
    ExposeShows(code, pc, c, 0, true);
    NextView(c);
    if c.KSkip? || (c.KAlts? && |c.bs| == 1) {
      LastNext(code, pc, c);
    } else if c.KNothing? || (c.KBody? && |c.ps| == 0) {
      NothingNext(code, pc, c);
    }
  }

  lemma NothingNext(code: seq<byte>, pc: int, c: Cont)
    requires Located(code, pc, c) && (c.KNothing? || (c.KBody? && |c.ps| == 0))
    ensures 0 <= pc < |code| && code[pc] == NOTHING
  {
    hide Node;
    SubNodeShort(code, pc, NOTHING, 3 + c.d);
  }

  lemma LastNext(code: seq<byte>, pc: int, c: Cont)
    requires Located(code, pc, c) && (c.KSkip? || (c.KAlts? && |c.bs| == 1)) && |code| < 0x1_0000
    ensures 0 <= pc && pc + 3 <= |code|
    ensures Located(code, pc + LinkAt(code, pc), NextCont(c))
  {
    hide Sub, Node;
    if c.KSkip? {
      SkipShows(code, pc, c.d, c.k);
      SubTwo(code, pc, Node(BRANCH, 3), Node(NOTHING, 3 + c.d));
      SubNodeShort(code, pc, BRANCH, 3);
    } else {
      var ps := c.bs[0].pieces;
      SubTwo(code, pc, Node(BRANCH, 3 + BodyLen(ps)) + BodyCode(ps, AltsLen(c.bs[1..])), AltsCode(c.bs[1..]));
      SubTwo(code, pc, Node(BRANCH, 3 + BodyLen(ps)), BodyCode(ps, AltsLen(c.bs[1..])));
      LocatedBound(code, pc + AltsLen(c.bs), c.k);
      SubNodeShort(code, pc, BRANCH, 3 + BodyLen(ps));
    }
  }

  // ----------------------------------------------------------- regcomp

  /** The compiled form of a pattern, with its shortcuts. */
  ghost predicate IsCompiled(r: Regexp, bs: seq<Branch>) {
    && r.program == Program(bs)
    && r.regstart == StartByte(bs)
    && r.reganch == Anchored(bs)
    && r.regmlen == |Must(bs)|
    && (r.regmust == -1 <==> Must(bs) == [])
    && (r.regmust != -1 ==> Sub(r.program, r.regmust, Must(bs) + [0]))
  }

  /** The pattern has a tree, and its program is small enough. */
  ghost predicate Accepted(exp: seq<byte>) {
    exists bs :: TreeOf(bs, exp) && |Program(bs)| < 32767
  }

  /** Of all trees only the parser's is the one of the pattern. */
  lemma OneTree(exp: seq<byte>)
    requires CString(exp)
    ensures forall bs :: TreeOf(bs, exp) <==> Parse(exp).Ok? && Parse(exp).value == bs
    ensures Accepted(exp) <==> Parse(exp).Ok? && |Program(Parse(exp).value)| < 32767
  {
    hide TreeOf, Parse, Program;
    forall bs ensures TreeOf(bs, exp) <==> Parse(exp).Ok? && Parse(exp).value == bs {
      ParsesAsTree(exp, bs);
    }
    if Parse(exp).Ok? {
      assert TreeOf(Parse(exp).value, exp);
    }
  }

  /** `evr_regcomp`: counts, allocates, emits, and digs out the shortcuts. */
  method RegComp(exp: seq<byte>) returns (r: Option<Regexp>, error: Error)
    requires CString(exp)
    ensures r.Some? <==> Accepted(exp)
    ensures r.Some? ==> forall bs :: TreeOf(bs, exp) ==> IsCompiled(r.value, bs)
    ensures r.None? ==> error == if Parse(exp).Err? then Parse(exp).error else TooBig
  {
    hide TreeOf, AltsCode, Node, Parse, IsCompiled, Accepted;
    OneTree(exp);
    error := TooBig;
    var ok, program, spStart, e := Compile.TwoPasses(exp);
    if !ok {
      return None, e;
    }
    ParseReadsAll(exp);
    var re := DigOut(program, spStart, Parse(exp).value);
    r := Some(re);
  }

  /** The piece of the top-level branch that the chain reaches next. */
  function Spine(c: Cont): Cont {
    match c
    case KBody(ps, _, k) => if |ps| == 0 then Spine(k) else c
    case KEnd => c
    case KPiece(_, _, _) => c
    case KAtom(_, _, _) => c
    case _ => Spine(c.k)
  }

  function Rest(ps: seq<Piece>, m: nat): Cont
    requires m <= |ps|
  {
    if m < |ps| then KBody(ps[m..], 0, KEnd) else KEnd
  }

  /** Only what a chain of links can pass through. */
  ghost predicate Linked(c: Cont) {
    match c
    case KEnd => true
    case KBody(ps, _, k) => k.KEnd?
    case KBack(_, _, _, _) => false
    case KPiece(_, _, _) => false
    case KAtom(_, _, _) => false
    case _ => Linked(c.k)
  }

  /** `c` is a node on the top-level chain, `m` pieces of the branch lying before it. */
  ghost predicate OnChain(c: Cont, ps: seq<Piece>, m: nat) {
    && m <= |ps|
    && Spine(c) == Rest(ps, m) && Moving(c, 0, true) && Linked(c)
  }

  lemma ChainOn(c: Cont, ps: seq<Piece>, m: nat)
    requires OnChain(c, ps, m) && !c.KEnd?
    ensures OnChain(NextCont(c), ps, if c == Rest(ps, m) then m + 1 else m)
    ensures c == Rest(ps, m) ==> m < |ps| && WfPiece(ps[m])
    ensures Expose(c, 0).VTest? && Expose(c, 0).a.Lit? ==> c == Rest(ps, m)
    ensures c == Rest(ps, m) ==>
      (Expose(c, 0).VTest? && Expose(c, 0).a.Lit? <==> IsLiteral(ps[m]))
      && (IsLiteral(ps[m]) ==> Expose(c, 0).a == ps[m].atom)
  {
    match c {
      case KBody(qs, d, k) =>
        if |qs| > 0 {
          assert c == Rest(ps, m) && qs == ps[m..] && qs[0] == ps[m] && qs[1..] == ps[m + 1..];
          PieceOn(qs[0], if |qs| == 1 then d else 0, Rest(ps, m + 1));
          assert NextCont(c) == NextPiece(qs[0], if |qs| == 1 then d else 0, Rest(ps, m + 1));
        }
      case _ =>
    }
  }

  lemma {:induction false} PieceOn(p: Piece, d: nat, k: Cont)
    requires WfPiece(p) && Moving(k, 0, true) && (k.KEnd? || (k.KBody? && |k.ps| > 0)) && Linked(k)
    ensures var c := NextPiece(p, d, k); Spine(c) == k && Moving(c, 0, true) && Linked(c)
  {
    hide WideAtom, WideAlts, WidePieces;
    if p.mult == One && p.atom.Group? {
      GroupOn(p.atom, d, k);
    } else if IsLoop(p) && p.mult == OneOrMore {
      assert Spine(KLoop(p, 0, d, k)) == k && Moving(KLoop(p, 0, d, k), 0, true) && Linked(KLoop(p, 0, d, k));
      if p.atom.Group? {
        GroupOn(p.atom, 0, KLoop(p, 0, d, k));
      }
    }
  }

  lemma GroupOn(a: Atom, d: nat, k: Cont)
    requires a.Group? && WfAtom(a) && Moving(k, 0, true) && Linked(k)
    ensures var c := NextAtom(a, d, k); Spine(c) == Spine(k) && Moving(c, 0, true) && Linked(c)
  {
    hide WideAlts;
    var close := KClose(a.no, d, k);
    assert Spine(close) == Spine(k) && Moving(close, 0, true) && Linked(close);
  }

  /** The shortcuts, read off the finished program. */
  method DigOut(program: seq<byte>, spStart: bool, ghost bs: seq<Branch>) returns (r: Regexp)
    requires program == Program(bs) && |program| < 32767 && |bs| > 0 && WfAlts(bs) && spStart == SpStartAlts(bs)
    ensures IsCompiled(r, bs)
  {
    hide Program, Located, Moving, Sub, WfAlts, SpStartAlts;
    r := Regexp(program, 0, false, -1, 0);
    ghost var ps := bs[0].pieces;
    TopNext(bs);
    if |bs| == 1 {
      TopFirst(bs);
    }
    var scan := 1;
    if program[RegNext(program, scan)] == END {
      scan := scan + 3;
      var start: byte, anch := 0, false;
      if program[scan] == EXACTLY {
        start := program[scan + 3];
      } else if program[scan] == BOL {
        anch := true;
      }
      var must, mlen := -1, 0;
      if spStart {
        must, mlen := LongestLiteral(program, scan, bs);
      }
      r := Regexp(program, start, anch, must, mlen);
    }
  }

  lemma ProgramSub(bs: seq<Branch>)
    ensures Sub(Program(bs), 1, AltsCode(bs) + Node(END, 0))
  {
  }

  lemma ProgramLocated(bs: seq<Branch>)
    requires |bs| > 0
    ensures Located(Program(bs), 1, KAlts(bs, KEnd))
    ensures var d := AltsLen(bs[1..]); Located(Program(bs), 4, KBody(bs[0].pieces, d, KEnd))
    ensures |bs| > 1 ==> Located(Program(bs), 1 + 3 + BodyLen(bs[0].pieces), KAlts(bs[1..], KEnd))
  {
    hide AltsCode, Node, BodyCode, BodyLen, Program, Sub, AltsLen;
    var code, ps, d := Program(bs), bs[0].pieces, AltsLen(bs[1..]);
    var alts, end := AltsCode(bs), Node(END, 0);
    ProgramSub(bs);
    SubTwo(code, 1, alts, end);
    AltsCodeFirst(bs);
    var node := Node(BRANCH, 3 + BodyLen(ps));
    SubTwo(code, 1, node + BodyCode(ps, d), AltsCode(bs[1..]));
    SubTwo(code, 1, node, BodyCode(ps, d));
  }

  /** The first node links to the next alternative, or to END. */
  lemma TopNext(bs: seq<Branch>)
    requires |bs| > 0 && WfAlts(bs) && |Program(bs)| < 32767
    ensures var code, next := Program(bs), RegNext(Program(bs), 1);
      0 <= next && next + 3 <= |code| && (code[next] == END <==> |bs| == 1)
  {
    hide Program, Located, WfAlts, WideAlts;
    var code, c := Program(bs), KAlts(bs, KEnd);
    ProgramLocated(bs);
    assert Moving(c, 0, true);
    NextLocated(code, 1, c);
    var next := 1 + LinkAt(code, 1);
    if |bs| == 1 {
      EndOfChain(code, next);
    } else {
      assert WfAlts(bs[1..]) by { WfRest(bs); }
      assert Moving(KAlts(bs[1..], KEnd), 0, true);
      ExposeShows(code, next, KAlts(bs[1..], KEnd), 0, true);
    }
  }

  lemma WfRest(bs: seq<Branch>)
    requires |bs| > 0 && WfAlts(bs)
    ensures WfAlts(bs[1..]) && WfPieces(bs[0].pieces)
    ensures |bs[0].pieces| > 0 ==> WfPiece(bs[0].pieces[0]) && WfAtom(bs[0].pieces[0].atom)
  {
  }

  /** The first node of a single branch. */
  lemma TopFirst(bs: seq<Branch>)
    requires |bs| == 1 && WfAlts(bs) && |Program(bs)| < 32767
    ensures var code, ps := Program(bs), bs[0].pieces;
      && Located(code, 4, KBody(ps, 0, KEnd)) && 7 <= |code| && Moving(KBody(ps, 0, KEnd), 0, true)
      && (code[4] == EXACTLY ==> 7 < |code| && code[7] == StartByte(bs) != 0)
      && (code[4] != EXACTLY ==> StartByte(bs) == 0)
      && (code[4] == BOL <==> Anchored(bs))
  {
    hide Program, Located, WidePieces;
    var code, ps := Program(bs), bs[0].pieces;
    ProgramLocated(bs);
    WfRest(bs);
    var c := KBody(ps, 0, KEnd);
    assert Moving(c, 0, true);
    ExposeShows(code, 4, c, 0, true);
    var v := Expose(c, 0);
    if code[4] == EXACTLY {
      assert v.VTest? && v.a.Lit? && v.a == ps[0].atom && ps[0].mult == One;
      assert code[7] == code[7..7 + |Operand(v.a)|][0];
    }
  }

  method LongestLiteral(program: seq<byte>, first: int, ghost bs: seq<Branch>) returns (must: int, mlen: nat)
    requires |bs| == 1 && |program| < 32767 && Located(program, first, KBody(bs[0].pieces, 0, KEnd))
    requires Moving(KBody(bs[0].pieces, 0, KEnd), 0, true)
    ensures var ps := bs[0].pieces;
      var w := Longest(ps, |ps|);
      if w < 0 then must == -1 && mlen == 0
      else mlen == |ps[w].atom.text| > 0 && must >= 0 && Sub(program, must, ps[w].atom.text + [0])
  {
    hide Located, Sub, Expose, Moving;
    must, mlen := -1, 0;
    ghost var ps := bs[0].pieces;
    ghost var c := KBody(ps, 0, KEnd);
    ghost var m := 0;
    var scan := first;
    assert ps[0..] == ps;
    LocatedBound(program, scan, c);
    assert Spine(c) == Rest(ps, 0);
    while scan != -1
      invariant scan >= 0 ==> OnChain(c, ps, m) && Located(program, scan, c)
      invariant scan < 0 ==> scan == -1 && m == |ps|
      invariant m <= |ps|
      invariant var w := Longest(ps, m);
        if w < 0 then must == -1 && mlen == 0
        else mlen == |ps[w].atom.text| > 0 && must >= 0 && Sub(program, must, ps[w].atom.text + [0])
      decreases if scan < 0 then 0 else |program| + 1 - scan
    {
      ghost var here := !c.KEnd? && c == Rest(ps, m);
      if c.KEnd? {
        EndOfChain(program, scan);
      } else {
        NextLocated(program, scan, c);
        ChainOn(c, ps, m);
      }
      if program[scan] == EXACTLY {
        LiteralHere(program, scan, c, ps[m].atom);
        var len := StrLen(program, scan + 3);
        if len >= mlen {
          must, mlen := scan + 3, len;
        }
      }
      scan := RegNext(program, scan);
      if scan >= 0 {
        m := if here then m + 1 else m;
        c := NextCont(c);
        LocatedBound(program, scan, c);
      }
    }
  }

  lemma EndOfChain(program: seq<byte>, scan: int)
    requires Located(program, scan, KEnd)
    ensures 0 <= scan && scan + 3 <= |program| && program[scan] == END && LinkAt(program, scan) == 0
  {
    SubNode(program, scan, END, 0);
  }

  lemma LiteralHere(program: seq<byte>, scan: int, c: Cont, a: Atom)
    requires Located(program, scan, c) && Moving(c, 0, true) && |program| < 32767 && (c.KAlts? ==> |c.bs| > 0)
    requires Expose(c, 0).VTest? && Expose(c, 0).a == a && a.Lit? && WfAtom(a)
    ensures StrLen(program, scan + 3) == |a.text| && Sub(program, scan + 3, a.text + [0])
  {
    hide Located, Moving, Expose;
    ExposeShows(program, scan, c, 0, true);
    StrLenFinds(program, scan + 3, a.text);
  }

  // ----------------------------------------------------------- regexec

  /** A match starts at `i`, or a path that leaves the memory does. */
  ghost predicate MatchesAt(bs: seq<Branch>, x: Subject, i: nat) {
    exists j: nat :: MatchAlts(bs, x, i, j)
  }

  ghost predicate MatchesSomewhere(bs: seq<Branch>, x: Subject) {
    exists i: nat :: i <= |x.text| && MatchesAt(bs, x, i)
  }

  /** The verdict of a search, `start` and `end` being where it stands then. */
  ghost predicate Tells(r: Verdict, bs: seq<Branch>, x: Subject, start: nat, end: nat) {
    if r == Failed then !(Occurs(Must(bs), x.text) && MatchesSomewhere(bs, x))
    else
      && Occurs(Must(bs), x.text) && start <= |x.text|
      && MatchAlts(bs, x, start, if r == Matched then end else Gone(x)) && (r == Matched ==> end <= Limit(x))
      && forall i: nat :: i < start ==> !MatchesAt(bs, x, i)
  }

  lemma WholeReach(bs: seq<Branch>, x: Subject, i: nat)
    ensures forall e: nat :: Reach(KAlts(bs, KEnd), x, i, e) <==> MatchAlts(bs, x, i, e)
    ensures CanReach(KAlts(bs, KEnd), x, i) <==> MatchesAt(bs, x, i)
  {
    hide MatchAlts;
    var c := KAlts(bs, KEnd);
    forall e: nat
      ensures Reach(c, x, i, e) <==> MatchAlts(bs, x, i, e)
    {
      if Reach(c, x, i, e) {
        var j := ReachSplit(c, x, i, e);
      }
      if MatchAlts(bs, x, i, e) {
        ReachJoin(c, x, i, e, e);
      }
    }
  }

  /** `regtry`: a match that starts at `s`. */
  method RegTry(m: Matcher, s: nat, ghost bs: seq<Branch>) returns (r: Verdict)
    requires m.code == Program(bs) && |bs| > 0 && WfAlts(bs) && s <= |m.x.text|
    requires m.Valid()
    modifies m`reginput
    ensures m.Valid()
    ensures r == Failed <==> !MatchesAt(bs, m.x, s)
    ensures r == Matched ==> MatchAlts(bs, m.x, s, m.reginput)
    ensures r == Strayed ==> MatchAlts(bs, m.x, s, Gone(m.x))
  {
    hide Program, Located, WfAlts, MatchAlts, Reach, Size;
    m.reginput := s;
    ghost var c := KAlts(bs, KEnd);
    ProgramLocated(bs);
    assert Moving(c, s, false);
    WholeReach(bs, m.x, s);
    r := m.RegMatch(1, c);
  }

  /** C's strchr on the subject, from `s` on: the first place of `b`, or -1. */
  method StrChrText(text: seq<byte>, s: nat, b: byte) returns (r: int)
    requires s <= |text| && b != 0
    ensures r == -1 || s <= r < |text|
    ensures r >= 0 ==> text[r] == b
    ensures forall k :: s <= k < (if r < 0 then |text| else r) ==> text[k] != b
  {
    r := s;
    while r < |text| && text[r] != b
      invariant s <= r <= |text|
      invariant forall k :: s <= k < r ==> text[k] != b
    {
      r := r + 1;
    }
    if r == |text| {
      r := -1;
    }
  }

  /** Where the literal occurs stands its first byte, which is the one in the program. */
  lemma MustBytes(program: seq<byte>, at: int, must: seq<byte>, text: seq<byte>)
    requires CString(must) && |must| > 0 && Sub(program, at, must)
    ensures 0 <= at < |program| && program[at] == must[0] != 0
    ensures forall p: nat :: OccursAt(must, text, p) ==> p < |text| && text[p] == must[0]
  {
    assert program[at..at + |must|][0] == program[at];
    forall p: nat | OccursAt(must, text, p) ensures p < |text| && text[p] == must[0] {
      assert text[p..p + |must|][0] == text[p];
    }
  }

  lemma NowhereAt(must: seq<byte>, text: seq<byte>)
    requires forall p: nat :: !OccursAt(must, text, p)
    ensures !Occurs(must, text)
  {
  }

  lemma SomewhereAt(must: seq<byte>, text: seq<byte>, s: nat)
    requires s + |must| <= |text| && text[s..s + |must|] == must
    ensures Occurs(must, text)
  {
    assert OccursAt(must, text, s);
  }

  lemma NotAt(must: seq<byte>, text: seq<byte>, s: nat)
    requires !(s + |must| <= |text| && text[s..s + |must|] == must)
    ensures !OccursAt(must, text, s)
  {
  }

  /** The check for the literal that must appear. */
  method MustAppear(prog: Regexp, x: Subject, ghost must: seq<byte>) returns (ok: bool)
    requires CString(x.text) && CString(must) && |must| > 0 && prog.regmlen == |must|
    requires Sub(prog.program, prog.regmust, must + [0])
    ensures ok <==> Occurs(must, x.text)
  {
    hide Sub, OccursAt, Occurs, SameBytes, CString, Agree, Within;
    SubTwo(prog.program, prog.regmust, must, [0]);
    MustBytes(prog.program, prog.regmust, must, x.text);
    var first := prog.program[prog.regmust];
    var s: int := 0;
    while true
      invariant 0 <= s <= |x.text|
      invariant forall p: nat :: p < s ==> !OccursAt(must, x.text, p)
      decreases |x.text| - s
    {
      s := StrChrText(x.text, s, first);
      if s == -1 {
        NowhereAt(must, x.text);
        return false;
      }
      SameBytesFinds(prog.program, prog.regmust, x, s, must);
      TextAgrees(must, x, s);
      if SameBytes(prog.program, prog.regmust, x, s, prog.regmlen) == Matched {
        SomewhereAt(must, x.text, s);
        return true;
      }
      NotAt(must, x.text, s);
      s := s + 1;
    }
    assert false;
    ok := false;
  }

  /** `evr_regexec`: where the leftmost match starts, and the end found for it. */
  method RegExec(prog: Regexp, x: Subject, ghost bs: seq<Branch>) returns (r: Verdict, start: nat, end: nat)
    requires IsCompiled(prog, bs) && |bs| > 0 && WfAlts(bs) && |prog.program| < 32767 && CString(x.text)
    ensures Tells(r, bs, x, start, end)
  {
    hide Program, WfAlts, MatchAlts, Must, Sub, Anchored, StartByte;
    r, start, end := Failed, 0, 0;
    ProgramMagic(bs);
    if prog.program[0] != MAGIC {
      return;
    }
    forall i: nat | i <= |x.text| && MatchesAt(bs, x, i)
      ensures StartByte(bs) != 0 ==> At(x, i) == StartByte(bs)
      ensures Anchored(bs) ==> i == 0
    {
      var j: nat :| MatchAlts(bs, x, i, j);
      ShortcutsSound(bs, x, i, j);
    }
    if prog.regmust != -1 {
      MustNoNul(bs);
      var there := MustAppear(prog, x, Must(bs));
      if !there {
        return;
      }
    } else {
      assert OccursAt([], x.text, 0);
    }
    var m := new Matcher(prog.program, x);
    if prog.reganch {
      r := RegTry(m, 0, bs);
      end := m.reginput;
      return;
    }
    var s: int := 0;
    if prog.regstart != 0 {
      s := StrChrText(x.text, 0, prog.regstart);
      while s != -1
        invariant m.Valid() && m.x == x && m.code == prog.program
        invariant s == -1 || 0 <= s < |x.text|
        invariant forall i: nat :: i < (if s == -1 then |x.text| + 1 else s) ==> !MatchesAt(bs, x, i)
        decreases if s == -1 then 0 else |x.text| - s
      {
        r := RegTry(m, s, bs);
        if r != Failed {
          return r, s, m.reginput;
        }
        s := StrChrText(x.text, s + 1, prog.regstart);
      }
    } else {
      while s <= |x.text|
        invariant m.Valid() && m.x == x && m.code == prog.program
        invariant 0 <= s <= |x.text| + 1
        invariant forall i: nat :: i < s ==> !MatchesAt(bs, x, i)
      {
        r := RegTry(m, s, bs);
        if r != Failed {
          return r, s, m.reginput;
        }
        s := s + 1;
      }
    }
    r := Failed;
  }

  lemma ProgramMagic(bs: seq<Branch>)
    ensures Program(bs)[0] == MAGIC
  {
  }

  lemma MustNoNul(bs: seq<Branch>)
    requires WfAlts(bs)
    ensures CString(Must(bs))
  {
    if |bs| == 1 && SpStartAlts(bs) {
      var ps := bs[0].pieces;
      var m := Longest(ps, |ps|);
      if m >= 0 {
        WfAt(ps, m);
      }
    }
  }

  lemma {:induction false} WfAt(ps: seq<Piece>, m: nat)
    requires WfPieces(ps) && m < |ps|
    ensures WfPiece(ps[m]) && WfAtom(ps[m].atom)
  {
    if m > 0 {
      WfAt(ps[1..], m - 1);
    }
  }

  // ------------------------------------------------------ main theorem

  /** Where no class passes a NUL, a search finds a match in the text exactly if there is one. */
  lemma TellsMeant(r: Verdict, bs: seq<Branch>, x: Subject, start: nat, end: nat)
    requires Tells(r, bs, x, start, end) && WfAlts(bs) && CString(x.text) && !x.loose
    ensures r == if MatchesSomewhere(bs, x) then Matched else Failed
    ensures r == Matched ==> end <= |x.text|
  {
    hide MatchAlts, WfAlts, Must, Occurs;
    forall i: nat, j: nat | i <= |x.text| && MatchAlts(bs, x, i, j)
      ensures j <= |x.text| && Occurs(Must(bs), x.text)
    {
      AltsSame(bs, x, x, i, j);
      ShortcutsSound(bs, x, i, j);
    }
    if r != Failed {
      assert MatchesAt(bs, x, start);
    }
  }

  /**
    Compiling a pattern and running the byte code on a text: what comes out is true of
    the pattern's tree, and where classes do what is meant it is whether some stretch
    of the text matches.
  */
  method Search(exp: seq<byte>, x: Subject) returns (r: Option<Verdict>, start: nat, end: nat)
    requires CString(exp) && CString(x.text)
    ensures r.Some? <==> Accepted(exp)
    ensures r.Some? ==> forall bs :: TreeOf(bs, exp) ==> Tells(r.value, bs, x, start, end)
    ensures r.Some? && !x.loose ==> forall bs :: TreeOf(bs, exp) ==>
      r.value == if MatchesSomewhere(bs, x) then Matched else Failed
  {
    hide Program, TreeOf, Parse, MatchesSomewhere, WfAlts, Accepted, Tells;
    OneTree(exp);
    r, start, end := None, 0, 0;
    var re, _ := RegComp(exp);
    if re.Some? {
      ParseReadsAll(exp);
      ghost var bs := Parse(exp).value;
      var v, s, e := RegExec(re.value, x, bs);
      r, start, end := Some(v), s, e;
      if !x.loose {
        TellsMeant(v, bs, x, s, e);
      }
    }
  }
}
