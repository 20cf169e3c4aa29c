/**
  Small patterns that show what the single-step class test (libsrc/evalresp/regexp.c:898-902)
  does at the end of a string, each with the verdict of a search.
*/
module RegexInstances {
  import opened Basics
  import opened RegexSyntax
  import opened RegexCode
  import opened RegexMeaning
  import opened RegexMatcher
  import opened RegexTerminator
  import opened RegexGrammar
  import opened RegexCanonical
  import opened RegexExec
  import opened RegexLegs

  // --------------------------------------------------- runs of tests

  /** Pieces that test the input once, one after the other. */
  ghost predicate Tests(ps: seq<Piece>) {
    forall k :: 0 <= k < |ps| ==> ps[k].mult == One && !ps[k].atom.Group?
  }

  /** Where they end, if they succeed. */
  function Ends(ps: seq<Piece>, x: Subject, i: nat): Option<nat> {
    if |ps| == 0 then Some(i)
    else
      var a := ps[0].atom;
      if i > Limit(x) then Ends(ps[1..], x, i)
      else if !Holds(a, x, i) then None
      else Ends(ps[1..], x, if i + RegexMeaning.Reads(a) <= Limit(x) then i + StepLen(a) else Gone(x))
  }

  lemma {:induction false} EndsIs(ps: seq<Piece>, x: Subject, i: nat, j: nat)
    requires Tests(ps)
    ensures MatchPieces(ps, x, i, j) <==> Ends(ps, x, i) == Some(j)
  {
    hide Holds;
    if |ps| > 0 {
      var a := ps[0].atom;
      assert forall k: nat :: MatchPiece(ps[0], x, i, k) <==> MatchTest(a, x, i, k);
      if MatchPieces(ps, x, i, j) {
        var k := PiecesSplit(ps, x, i, j);
        EndsIs(ps[1..], x, k, j);
      }
      if Ends(ps, x, i) == Some(j) {
        var k := if i > Limit(x) then i else if i + RegexMeaning.Reads(a) <= Limit(x) then i + StepLen(a) else Gone(x);
        EndsIs(ps[1..], x, k, j);
        PiecesJoin(ps, x, i, k, j);
      }
    }
  }

  /** The one match of a pattern. */
  ghost predicate OnlyMatch(bs: seq<Branch>, x: Subject, at: nat, end: nat) {
    forall i: nat, j: nat :: i <= |x.text| ==> (MatchAlts(bs, x, i, j) <==> i == at && j == end)
  }

  lemma OneRun(bs: seq<Branch>, x: Subject, at: nat, end: nat)
    requires |bs| == 1 && Tests(bs[0].pieces)
    requires forall i: nat :: i <= |x.text| ==> Ends(bs[0].pieces, x, i) == if i == at then Some(end) else None
    ensures OnlyMatch(bs, x, at, end)
  {
    hide MatchPieces, Ends;
    forall i: nat, j: nat | i <= |x.text|
      ensures MatchAlts(bs, x, i, j) <==> i == at && j == end
    {
      EndsIs(bs[0].pieces, x, i, j);
      assert bs[1..] == [];
    }
  }

  lemma NoRun(bs: seq<Branch>, x: Subject)
    requires |bs| == 1 && Tests(bs[0].pieces)
    requires forall i: nat :: i <= |x.text| ==> Ends(bs[0].pieces, x, i).None?
    ensures !MatchesSomewhere(bs, x)
  {
    hide MatchPieces, Ends;
    forall i: nat, j: nat | i <= |x.text|
      ensures !MatchAlts(bs, x, i, j)
    {
      EndsIs(bs[0].pieces, x, i, j);
      assert bs[1..] == [];
    }
  }

  /** What every search comes to on a subject with one match, no literal being required. */
  lemma OneVerdict(bs: seq<Branch>, x: Subject, at: nat, end: nat, r: Verdict, s: nat, e: nat)
    requires OnlyMatch(bs, x, at, end) && at <= |x.text| && end <= Gone(x) && Must(bs) == []
    requires Tells(r, bs, x, s, e)
    ensures s == at && r == if end <= Limit(x) then Matched else Strayed
    ensures r == Matched ==> e == end
  {
    hide MatchAlts, Must;
    assert MatchAlts(bs, x, at, end);
    assert MatchesAt(bs, x, at);
    assert OccursAt([], x.text, 0);
  }

  // ---------------------------------------------------- growing a pattern

  /** A pattern that is a run of short pieces, and how it is written. */
  ghost predicate Plain(ps: seq<Piece>, exp: seq<byte>) {
    && ShowPieces(ps) == exp && WfPieces(ps)
    && CanonPieces(ps, 1) && GroupsPieces(ps) == 0
    && PiecesLen(ps) <= 8 * |ps|
  }

  lemma NoPlain()
    ensures Plain([], [])
  {
  }

  /** One more of them. */
  ghost predicate PlainPiece(q: Piece, s: seq<byte>) {
    && WfPiece(q) && CanonPiece(q, 1) && ShowPiece(q) == s
    && !q.atom.Group? && PieceLen(q) <= 8
  }

  lemma PlainMore(ps: seq<Piece>, exp: seq<byte>, q: Piece, s: seq<byte>)
    requires Plain(ps, exp) && PlainPiece(q, s)
    requires |ps| > 0 ==> Apart(ps[|ps| - 1], q)
    ensures Plain(ps + [q], exp + s)
  {
    hide WfPiece, CanonPiece, Apart, PieceLen, ShowPiece;
    PiecesGrow(ps, q);
    CanonPiecesGrow(ps, q, 1);
    PiecesSnoc(ps, q, 0);
  }

  /** It is accepted. */
  lemma Known(ps: seq<Piece>, exp: seq<byte>)
    requires Plain(ps, exp) && 0 < |ps| < 1000
    ensures TreeOf([Branch(ps)], exp) && Accepted(exp)
  {
    hide WfPieces, CanonPieces, ShowPieces;
    var bs := [Branch(ps)];
    OneBranch(Branch(ps));
    OneCanonBranch(Branch(ps), 1);
    assert bs[1..] == [] && AltsLen(bs[1..]) == 0;
    assert |Program(bs)| < 32767;
  }

  lemma NoMust(ps: seq<Piece>)
    requires Tests(ps) && |ps| > 0
    ensures Must([Branch(ps)]) == []
  {
    var bs := [Branch(ps)];
    assert ps[0].mult == One && !ps[0].atom.Group? && !SpStartAtom(ps[0].atom);
    assert bs[1..] == [] && !SpStartAlts(bs[1..]) && !SpStartPiece(ps[0]) && !SpStartPieces(ps);
  }

  /** `[b]`, written so. */
  function Bracket(b: byte): Piece {
    Piece(Class(false, [Single(b)]), One)
  }

  lemma BracketPlain(b: byte)
    requires b != 0 && b != CARET
    ensures PlainPiece(Bracket(b), [LBRACK, b, RBRACK])
  {
    var items := [Single(b)];
    assert items == [] + [Single(b)] && items[..0] == [];
    ItemsGrow([], Single(b));
    assert CanonItem(items, 0, false);
    assert ClassBytes(items[..0]) == [];
  }

  lemma AnchorPlain()
    ensures PlainPiece(Piece(Eol, One), [DOLLAR])
  {
  }

  lemma LetterPlain(b: byte)
    requires b != 0 && !IsMeta(b)
    ensures PlainPiece(Piece(Lit([b], false), One), [b])
  {
  }

  lemma StarPlain(b: byte)
    requires b != 0 && !IsMeta(b)
    ensures PlainPiece(Piece(Lit([b], false), ZeroOrMore), [b, STAR])
  {
  }

  // -------------------------------------------------------- the patterns

  /** A subject in which nothing is matched as meant, and what every search of it as written comes to. */
  ghost predicate Misled(exp: seq<byte>, x: Subject, r: Verdict, start: nat, end: nat) {
    exists bs ::
      && TreeOf(bs, exp) && Accepted(exp) && !MatchesSomewhere(bs, Meant(x.text))
      && forall v: Verdict, s: nat, e: nat :: Tells(v, bs, x, s, e) ==> v == r && s == start && (r == Matched ==> e == end)
  }

  lemma MisledBy(ps: seq<Piece>, exp: seq<byte>, x: Subject, at: nat, end: nat)
    requires Plain(ps, exp) && 0 < |ps| < 1000 && Tests(ps) && at <= |x.text| && end <= Gone(x)
    requires forall i: nat :: i <= |x.text| ==> Ends(ps, x, i) == if i == at then Some(end) else None
    requires forall i: nat :: i <= |x.text| ==> Ends(ps, Meant(x.text), i).None?
    ensures Misled(exp, x, if end <= Limit(x) then Matched else Strayed, at, end)
  {
    hide Ends, TreeOf, Accepted, Must, Tells, MatchesSomewhere, WfPieces, CanonPieces, ShowPieces;
    var bs := [Branch(ps)];
    Known(ps, exp);
    NoMust(ps);
    OneRun(bs, x, at, end);
    NoRun(bs, Meant(x.text));
    forall v: Verdict, s: nat, e: nat | Tells(v, bs, x, s, e)
      ensures s == at && v == (if end <= Limit(x) then Matched else Strayed) && (v == Matched ==> e == end)
    {
      OneVerdict(bs, x, at, end, v, s, e);
    }
  }

  /** What three tests come to, one at a time. */
  lemma ThreeTests(ps: seq<Piece>, x: Subject, i: nat)
    requires |ps| == 3
    ensures Ends(ps, x, i) == match Ends([ps[0]], x, i)
      case None => None
      case Some(j) => (match Ends([ps[1]], x, j) case None => None case Some(k) => Ends([ps[2]], x, k))
  {
    hide Holds;
    assert ps[1..][1..] == [ps[2]] && [ps[0]][1..] == [] && [ps[1]][1..] == [];
  }

  lemma TwoTests(ps: seq<Piece>, x: Subject, i: nat)
    requires |ps| == 2
    ensures Ends(ps, x, i) == match Ends([ps[0]], x, i) case None => None case Some(j) => Ends([ps[1]], x, j)
  {
    hide Holds;
    assert ps[1..] == [ps[1]] && [ps[0]][1..] == [] && [ps[1]][1..] == [];
  }

  /** `[a]` is found in the empty string: it matches the terminator. */
  lemma ClassEatsTerminator()
    ensures Misled([LBRACK, 97, RBRACK], Written([], []), Matched, 0, 1)
  {
    hide Plain, Misled;
    var ps := [Bracket(97)];
    NoPlain();
    BracketPlain(97);
    PlainMore([], [], ps[0], [LBRACK, 97, RBRACK]);
    assert [] + ps == ps && [] + [LBRACK, 97, RBRACK] == [LBRACK, 97, RBRACK] && ps[1..] == [];
    MisledBy(ps, [LBRACK, 97, RBRACK], Written([], []), 0, 1);
  }

  /** `$[a][b]` is found in "x" if a second NUL follows: one class passes the first, the other the second. */
  lemma ClassesEatNuls()
    ensures Misled([DOLLAR, LBRACK, 97, RBRACK, LBRACK, 98, RBRACK], Written([120], [0]), Matched, 1, 3)
  {
    hide Plain, Misled;
    var q0, q1, q2 := Piece(Eol, One), Bracket(97), Bracket(98);
    AnchorClasses(q0, q1, q2);
    var ps := [q0, q1, q2];
    var x, y := Written([120], [0]), Meant([120]);
    forall i: nat | i <= 1
      ensures Ends(ps, x, i) == if i == 1 then Some(3) else None
      ensures Ends(ps, y, i).None?
    {
      ThreeTests(ps, x, i);
      ThreeTests(ps, y, i);
    }
    MisledBy(ps, [DOLLAR, LBRACK, 97, RBRACK, LBRACK, 98, RBRACK], x, 1, 3);
  }

  lemma AnchorClasses(q0: Piece, q1: Piece, q2: Piece)
    requires q0 == Piece(Eol, One) && q1 == Bracket(97) && q2 == Bracket(98)
    ensures Plain([q0, q1, q2], [DOLLAR, LBRACK, 97, RBRACK, LBRACK, 98, RBRACK])
  {
    hide Plain, PlainPiece;
    NoPlain();
    AnchorPlain();
    BracketPlain(97);
    BracketPlain(98);
    PlainMore([], [], q0, [DOLLAR]);
    assert [] + [q0] == [q0] && [] + [DOLLAR] == [DOLLAR];
    PlainMore([q0], [DOLLAR], q1, [LBRACK, 97, RBRACK]);
    assert [q0] + [q1] == [q0, q1] && [DOLLAR] + [LBRACK, 97, RBRACK] == [DOLLAR, LBRACK, 97, RBRACK];
    PlainMore([q0, q1], [DOLLAR, LBRACK, 97, RBRACK], q2, [LBRACK, 98, RBRACK]);
    assert [q0, q1] + [q2] == [q0, q1, q2];
    assert [DOLLAR, LBRACK, 97, RBRACK] + [LBRACK, 98, RBRACK] == [DOLLAR, LBRACK, 97, RBRACK, LBRACK, 98, RBRACK];
  }

  /** `[a]b` is found in "x" if a 'b' follows the terminator; if nothing does, the search reads outside the memory. */
  lemma ByteBehindClass()
    ensures Misled([LBRACK, 97, RBRACK, 98], Written([120], [98]), Matched, 1, 3)
    ensures Misled([LBRACK, 97, RBRACK, 98], Written([120], []), Strayed, 1, 3)
  {
    hide Plain, Misled;
    var q0, q1 := Bracket(97), Piece(Lit([98], false), One);
    ClassThenByte(q0, q1);
    var ps := [q0, q1];
    var x, y, z := Written([120], [98]), Written([120], []), Meant([120]);
    AgreeFirst([98], 1, x, 2);
    forall i: nat | i <= 1
      ensures Ends(ps, x, i) == Ends(ps, y, i) == if i == 1 then Some(3) else None
      ensures Ends(ps, z, i).None?
    {
      TwoTests(ps, x, i);
      TwoTests(ps, y, i);
      TwoTests(ps, z, i);
    }
    hide Ends;
    MisledBy(ps, [LBRACK, 97, RBRACK, 98], x, 1, 3);
    MisledBy(ps, [LBRACK, 97, RBRACK, 98], y, 1, 3);
  }

  lemma ClassThenByte(q0: Piece, q1: Piece)
    requires q0 == Bracket(97) && q1 == Piece(Lit([98], false), One)
    ensures Plain([q0, q1], [LBRACK, 97, RBRACK, 98])
  {
    hide Plain, PlainPiece;
    NoPlain();
    BracketPlain(97);
    LetterPlain(98);
    PlainMore([], [], q0, [LBRACK, 97, RBRACK]);
    assert [] + [q0] == [q0] && [] + [LBRACK, 97, RBRACK] == [LBRACK, 97, RBRACK];
    PlainMore([q0], [LBRACK, 97, RBRACK], q1, [98]);
    assert [q0] + [q1] == [q0, q1] && [LBRACK, 97, RBRACK] + [98] == [LBRACK, 97, RBRACK, 98];
  }

  /** `b*[a]c` matches behind the empty string if a 'c' stands there, but the search wants the 'c' in the string. */
  lemma MustHides()
    ensures exists bs :: var x := Written([], [99]);
      && TreeOf(bs, [98, STAR, LBRACK, 97, RBRACK, 99]) && Accepted([98, STAR, LBRACK, 97, RBRACK, 99])
      && MatchAlts(bs, x, 0, Limit(x))
      && forall v: Verdict, s: nat, e: nat :: Tells(v, bs, x, s, e) ==> v == Failed
  {
    hide Plain, TreeOf, Accepted, MatchAlts, Must;
    var q0, q1, q2 := Piece(Lit([98], false), ZeroOrMore), Bracket(97), Piece(Lit([99], false), One);
    var ps, x := [q0, q1, q2], Written([], [99]);
    var bs := [Branch(ps)];
    StarClassByte(q0, q1, q2);
    Known(ps, [98, STAR, LBRACK, 97, RBRACK, 99]);
    BehindStar(ps, x);
    MustIs(bs);
    forall v: Verdict, s: nat, e: nat | Tells(v, bs, x, s, e) ensures v == Failed {
      assert forall p: nat :: !OccursAt([99], x.text, p);
    }
  }

  lemma MustIs(bs: seq<Branch>)
    requires bs == [Branch([Piece(Lit([98], false), ZeroOrMore), Bracket(97), Piece(Lit([99], false), One)])]
    ensures Must(bs) == [99]
  {
    var ps := bs[0].pieces;
    assert SpStartPiece(ps[0]) && SpStartPieces(ps) && SpStartAlts(bs);
    assert Longest(ps, 1) == -1 && Longest(ps, 2) == -1 && Longest(ps, 3) == 2;
  }

  lemma BehindStar(ps: seq<Piece>, x: Subject)
    requires ps == [Piece(Lit([98], false), ZeroOrMore), Bracket(97), Piece(Lit([99], false), One)]
    requires x == Written([], [99])
    ensures MatchAlts([Branch(ps)], x, 0, 2)
  {
    var rest := ps[1..];
    assert MatchTimes(ps[0].atom, 0, Repeated(ps[0].atom, x), 0, 0);
    assert MatchPiece(ps[0], x, 0, 0);
    assert rest == [ps[1], ps[2]] && Tests(rest);
    AgreeFirst([99], 1, x, 1);
    TwoTests(rest, x, 0);
    EndsIs(rest, x, 0, 2);
    PiecesJoin(ps, x, 0, 0, 2);
  }

  lemma StarClassByte(q0: Piece, q1: Piece, q2: Piece)
    requires q0 == Piece(Lit([98], false), ZeroOrMore) && q1 == Bracket(97) && q2 == Piece(Lit([99], false), One)
    ensures Plain([q0, q1, q2], [98, STAR, LBRACK, 97, RBRACK, 99])
  {
    hide Plain, PlainPiece;
    NoPlain();
    StarPlain(98);
    BracketPlain(97);
    LetterPlain(99);
    PlainMore([], [], q0, [98, STAR]);
    assert [] + [q0] == [q0] && [] + [98, STAR] == [98, STAR];
    PlainMore([q0], [98, STAR], q1, [LBRACK, 97, RBRACK]);
    assert [q0] + [q1] == [q0, q1] && [98, STAR] + [LBRACK, 97, RBRACK] == [98, STAR, LBRACK, 97, RBRACK];
    PlainMore([q0, q1], [98, STAR, LBRACK, 97, RBRACK], q2, [99]);
    assert [q0, q1] + [q2] == [q0, q1, q2];
    assert [98, STAR, LBRACK, 97, RBRACK] + [99] == [98, STAR, LBRACK, 97, RBRACK, 99];
  }

  /** `[a]^` cannot overrun, though a class stands alone in it: what follows never matches behind the text. */
  lemma AnchorBehindClass()
    ensures !CanOverrun([Branch([Bracket(97), Piece(Bol, One)])])
  {
    var ps := [Bracket(97), Piece(Bol, One)];
    var bs := [Branch(ps)];
    assert bs[1..] == [] && ps[1..] == [ps[1]] && ps[1..][1..] == [];
    forall l: Leg | LegAlts(bs, l) && l.from.Inside? ensures l.to.Inside? {
      assert !LegAlts(bs[1..], l);
      var l1, l2 := LegsSplit(ps, l);
      var l3, l4 := LegsSplit(ps[1..], l2);
    }
  }
}
