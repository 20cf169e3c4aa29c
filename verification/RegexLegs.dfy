/**
  Which kinds of stretches a pattern can match, read off the pattern alone, in the
  reading of the source, where a single class passes any NUL. A stretch is told by where
  it starts and ends (at the front of the text, at its end, behind the terminator, at the
  end of the memory or outside), and by whether it is empty.
*/
module RegexLegs {
  import opened RegexSyntax
  import opened RegexMeaning
  import opened RegexTerminator
  import opened RegexGrammar
  import opened RegexCanonical
  import opened RegexCode
  import opened RegexMatcher
  import opened RegexExec

  /**
    A position: in the text, at its front or its end or neither; behind the terminator,
    where a NUL stands or not; at the end of the memory; or outside.
  */
  datatype Spot = Inside(first: bool, last: bool) | Behind(nul: bool) | Edge | Outside

  datatype Leg = Leg(from: Spot, to: Spot, moved: bool)

  predicate Joins(a: Leg, b: Leg, l: Leg) {
    a.to == b.from && l == Leg(a.from, b.to, a.moved || b.moved)
  }

  predicate AtNul(s: Spot) {
    (s.Inside? && s.last) || (s.Behind? && s.nul)
  }

  predicate AtByte(s: Spot) {
    (s.Inside? && !s.last) || (s.Behind? && !s.nul)
  }

  predicate PastText(s: Spot) {
    s.Behind? || s.Edge?
  }

  /** Bytes that are no NUL are passed. */
  predicate Passes(l: Leg) {
    l.moved && AtByte(l.from) && if l.from.Inside? then l.to.Inside? && !l.to.first else PastText(l.to)
  }

  predicate PassesNul(l: Leg) {
    l.moved && AtNul(l.from) && PastText(l.to)
  }

  /** The memory is left. */
  predicate Leaves(l: Leg) {
    l.moved && l.to == Outside
  }

  predicate Stays(l: Leg) {
    !l.moved && l.from == l.to
  }

  // ------------------------------------------- read off the pattern

  /** The class has a byte of a string. */
  ghost predicate SomeByte(neg: bool, items: seq<ClassItem>) {
    exists b: byte :: b != 0 && ClassHas(items, b) != neg
  }

  ghost predicate LegTest(a: Atom, l: Leg) {
    if l.from.Outside? then Stays(l)
    else if l.from.Edge? then !a.Bol? && Leaves(l)
    else
      match a
      case Bol => Stays(l) && l.from.Inside? && l.from.first
      case Eol => Stays(l) && AtNul(l.from)
      case Any => Passes(l)
      case Class(neg, items) => (Passes(l) && SomeByte(neg, items)) || (!neg && PassesNul(l))
      case Lit(text, _) => Passes(l) || (|text| > 1 && l.from == Behind(false) && Leaves(l))
      case Group(_, _) => false
  }

  ghost predicate LegAtom(a: Atom, l: Leg)
    decreases a, 0, 0
  {
    if a.Group? then LegAlts(a.alts, l) else LegTest(a, l)
  }

  /** A match in a repetition; repetitions of a simple atom stop at a NUL. */
  ghost predicate LegTime(a: Atom, l: Leg)
    decreases a, 0, 1
  {
    LegAtom(a, l) && (SimpleAtom(a) ==> !AtNul(l.from))
  }

  ghost predicate LegTimes(a: Atom, n: nat, l: Leg)
    decreases a, 1, n
  {
    if n == 0 then Stays(l)
    else exists l1, l2 :: LegTime(a, l1) && LegTimes(a, n - 1, l2) && Joins(l1, l2, l)
  }

  /** More than seven repetitions lead nowhere else. */
  ghost predicate LegPiece(p: Piece, l: Leg)
    decreases p, 0, 0
  {
    match p.mult
    case One => LegAtom(p.atom, l)
    case ZeroOrOne => Stays(l) || LegAtom(p.atom, l)
    case ZeroOrMore => exists n: nat :: n <= 7 && LegTimes(p.atom, n, l)
    case OneOrMore => exists n: nat :: 1 <= n <= 7 && LegTimes(p.atom, n, l)
  }

  ghost predicate LegPieces(ps: seq<Piece>, l: Leg)
    decreases ps, 0, 0
  {
    if |ps| == 0 then Stays(l)
    else exists l1, l2 :: LegPiece(ps[0], l1) && LegPieces(ps[1..], l2) && Joins(l1, l2, l)
  }

  ghost predicate LegAlts(bs: seq<Branch>, l: Leg)
    decreases bs, 0, 0
  {
    |bs| > 0 && (LegPieces(bs[0].pieces, l) || LegAlts(bs[1..], l))
  }

  // -------------------------------------------------- stretches of texts

  function SpotAt(x: Subject, i: nat): Spot {
    if i <= |x.text| then Inside(i == 0, i == |x.text|)
    else if i < Limit(x) then Behind(At(x, i) == 0)
    else if i == Limit(x) then Edge else Outside
  }

  function LegOf(x: Subject, i: nat, j: nat): Leg {
    Leg(SpotAt(x, i), SpotAt(x, j), i < j)
  }

  ghost predicate Stretch(x: Subject, i: nat, j: nat) {
    CString(x.text) && i <= j <= Gone(x)
  }

  /** The same bytes in the same place, as far as a pattern can tell. */
  ghost predicate Alike(x: Subject, i: nat, j: nat, y: Subject, i': nat, j': nat) {
    && Stretch(x, i, j) && Stretch(y, i', j') && j - i == j' - i' && x.loose == y.loose
    && LegOf(x, i, j) == LegOf(y, i', j')
    && forall k: nat :: i <= k < j ==> At(x, k) == At(y, k - i + i')
  }

  lemma AlikePart(x: Subject, i: nat, j: nat, y: Subject, i': nat, j': nat, k: nat)
    requires Alike(x, i, j, y, i', j') && i <= k <= j
    ensures Alike(x, i, k, y, i', i' + (k - i)) && Alike(x, k, j, y, i' + (k - i), j')
  {
    AlikeSpot(x, i, j, y, i', j', k);
  }

  lemma AlikeSpot(x: Subject, i: nat, j: nat, y: Subject, i': nat, j': nat, k: nat)
    requires Alike(x, i, j, y, i', j') && i <= k <= j
    ensures SpotAt(x, k) == SpotAt(y, i' + (k - i))
  {
    var k' := i' + (k - i);
    if i < k < j {
      assert At(x, k) == At(y, k');
      if i <= |x.text| {
        if |x.text| < k { assert At(x, |x.text|) == At(y, |x.text| - i + i') == 0; }
        if |y.text| < k' { assert At(y, |y.text|) == At(x, |y.text| - i' + i) == 0; }
      }
    }
  }

  /** What an atom matches depends on nothing else. */
  lemma {:induction false} AtomLocal(a: Atom, x: Subject, i: nat, j: nat, y: Subject, i': nat, j': nat)
    requires WfAtom(a) && Alike(x, i, j, y, i', j') && MatchAtom(a, x, i, j)
    ensures MatchAtom(a, y, i', j')
    decreases a, 0, 0
  {
    hide Alike, MatchTest;
    if a.Group? {
      AltsLocal(a.alts, x, i, j, y, i', j');
    } else {
      TestLocal(a, x, i, j, y, i', j');
    }
  }

  lemma TestLocal(a: Atom, x: Subject, i: nat, j: nat, y: Subject, i': nat, j': nat)
    requires WfAtom(a) && !a.Group? && Alike(x, i, j, y, i', j') && MatchTest(a, x, i, j)
    ensures MatchTest(a, y, i', j')
  {
    hide ClassHas;
    if i < j {
      assert At(x, i) == At(y, i');
    }
    if a.Lit? && i <= Limit(x) {
      forall k | 0 <= k < Within(x, i, |a.text|) ensures At(y, i' + k) == a.text[k] {
        assert At(x, i + k) == At(y, i' + k);
      }
    }
  }

  lemma {:induction false} TimesLocal(a: Atom, n: nat, x: Subject, i: nat, j: nat, y: Subject, i': nat, j': nat)
    requires WfAtom(a) && Alike(x, i, j, y, i', j') && MatchTimes(a, n, x, i, j)
    ensures MatchTimes(a, n, y, i', j')
    decreases a, 1, n
  {
    hide MatchAtom, WfAtom;
    if n > 0 {
      var k := TimesSplit(a, n, x, i, j);
      AtomWidth(a, x, i, k);
      TimesWidth(a, n - 1, x, k, j);
      AlikePart(x, i, j, y, i', j', k);
      AtomLocal(a, x, i, k, y, i', i' + (k - i));
      TimesLocal(a, n - 1, x, k, j, y, i' + (k - i), j');
    }
  }

  lemma AlikeRepeated(a: Atom, x: Subject, i: nat, j: nat, y: Subject, i': nat, j': nat)
    requires Alike(x, i, j, y, i', j')
    ensures Alike(Repeated(a, x), i, j, Repeated(a, y), i', j')
  {
    var u, v := Repeated(a, x), Repeated(a, y);
    assert forall k: nat :: At(u, k) == At(x, k) && At(v, k) == At(y, k);
  }

  lemma {:induction false} PieceLocal(p: Piece, x: Subject, i: nat, j: nat, y: Subject, i': nat, j': nat)
    requires WfPiece(p) && Alike(x, i, j, y, i', j') && MatchPiece(p, x, i, j)
    ensures MatchPiece(p, y, i', j')
    decreases p, 0, 0
  {
    hide MatchAtom, WfAtom, MatchTimes;
    if p.mult == ZeroOrMore || p.mult == OneOrMore {
      var min := if p.mult == ZeroOrMore then 0 else 1;
      var n := ManySplit(p.atom, min, Repeated(p.atom, x), i, j);
      AlikeRepeated(p.atom, x, i, j, y, i', j');
      TimesLocal(p.atom, n, Repeated(p.atom, x), i, j, Repeated(p.atom, y), i', j');
    } else if p.mult == One || i != j {
      AtomLocal(p.atom, x, i, j, y, i', j');
    }
  }

  lemma {:induction false} PiecesLocal(ps: seq<Piece>, x: Subject, i: nat, j: nat, y: Subject, i': nat, j': nat)
    requires WfPieces(ps) && Alike(x, i, j, y, i', j') && MatchPieces(ps, x, i, j)
    ensures MatchPieces(ps, y, i', j')
    decreases ps, 0, 0
  {
    hide MatchPiece, WfPiece;
    if |ps| > 0 {
      var k := PiecesSplit(ps, x, i, j);
      PieceWidth(ps[0], x, i, k);
      PiecesWidth(ps[1..], x, k, j);
      AlikePart(x, i, j, y, i', j', k);
      PieceLocal(ps[0], x, i, k, y, i', i' + (k - i));
      PiecesLocal(ps[1..], x, k, j, y, i' + (k - i), j');
      PiecesJoin(ps, y, i', i' + (k - i), j');
    }
  }

  lemma {:induction false} AltsLocal(bs: seq<Branch>, x: Subject, i: nat, j: nat, y: Subject, i': nat, j': nat)
    requires WfAlts(bs) && Alike(x, i, j, y, i', j') && MatchAlts(bs, x, i, j)
    ensures MatchAlts(bs, y, i', j')
    decreases bs, 0, 0
  {
    hide MatchPieces, WfPieces;
    if MatchPieces(bs[0].pieces, x, i, j) {
      PiecesLocal(bs[0].pieces, x, i, j, y, i', j');
    } else {
      AltsLocal(bs[1..], x, i, j, y, i', j');
    }
  }

  // --------------------------------------- every match is of such a kind

  /** A stretch in the reading of the source. */
  ghost predicate WrittenStretch(x: Subject, i: nat, j: nat) {
    x.loose && Stretch(x, i, j)
  }

  lemma {:induction false} AtomLeg(a: Atom, x: Subject, i: nat, j: nat)
    requires WfAtom(a) && WrittenStretch(x, i, j) && MatchAtom(a, x, i, j)
    ensures LegAtom(a, LegOf(x, i, j))
    decreases a, 0, 0
  {
    hide LegTest, MatchTest, SpotAt;
    if a.Group? {
      AltsLeg(a.alts, x, i, j);
    } else {
      TestLeg(a, x, i, j);
    }
  }

  lemma TestLeg(a: Atom, x: Subject, i: nat, j: nat)
    requires WfAtom(a) && !a.Group? && WrittenStretch(x, i, j) && MatchTest(a, x, i, j)
    ensures LegTest(a, LegOf(x, i, j))
  {
    hide ClassHas;
    if a.Class? && i < Limit(x) && At(x, i) != 0 {
      assert ClassHas(a.items, At(x, i)) != a.neg;
    } else if a.Lit? && i < Limit(x) {
      AgreeFirst(a.text, Within(x, i, |a.text|), x, i);
      if i <= |x.text| {
        TextAgrees(a.text, x, i);
      }
    }
  }

  /** Repeating a simple atom looks for a NUL first, and differs in nothing else. */
  lemma TimeIs(a: Atom, x: Subject, i: nat, j: nat)
    requires WfAtom(a) && WrittenStretch(x, i, j)
    ensures MatchAtom(a, Repeated(a, x), i, j) <==> MatchAtom(a, x, i, j) && (SimpleAtom(a) ==> !AtNul(SpotAt(x, i)))
  {
    hide ClassHas;
    if SimpleAtom(a) {
      var y := Repeated(a, x);
      assert At(y, i) == At(x, i);
      if a.Lit? && i < Limit(x) {
        AgreeFirst(a.text, 1, x, i);
        AgreeFirst(a.text, 1, y, i);
      }
    }
  }

  lemma {:induction false} TimesLeg(a: Atom, n: nat, x: Subject, i: nat, j: nat)
    requires WfAtom(a) && WrittenStretch(x, i, j) && MatchTimes(a, n, Repeated(a, x), i, j)
    ensures LegTimes(a, n, LegOf(x, i, j))
    decreases a, 1, n
  {
    hide MatchAtom, WfAtom, LegAtom, SimpleAtom, SpotAt, AtNul;
    if n > 0 {
      var y := Repeated(a, x);
      var k := TimesSplit(a, n, y, i, j);
      AtomWidth(a, y, i, k);
      TimesWidth(a, n - 1, y, k, j);
      TimeIs(a, x, i, k);
      AtomLeg(a, x, i, k);
      TimesLeg(a, n - 1, x, k, j);
      assert Joins(LegOf(x, i, k), LegOf(x, k, j), LegOf(x, i, j));
    }
  }

  lemma {:induction false} PieceLeg(p: Piece, x: Subject, i: nat, j: nat)
    requires WfPiece(p) && WrittenStretch(x, i, j) && MatchPiece(p, x, i, j)
    ensures LegPiece(p, LegOf(x, i, j))
    decreases p, 0, 0
  {
    hide MatchAtom, WfAtom, MatchTimes, LegAtom, LegTimes, SpotAt;
    if p.mult == ZeroOrMore || p.mult == OneOrMore {
      var min := if p.mult == ZeroOrMore then 0 else 1;
      var n := ManySplit(p.atom, min, Repeated(p.atom, x), i, j);
      TimesLeg(p.atom, n, x, i, j);
      var _ := AtMostSeven(p.atom, n, LegOf(x, i, j));
    } else if p.mult == One || i != j {
      AtomLeg(p.atom, x, i, j);
    }
  }

  lemma {:induction false} PiecesLeg(ps: seq<Piece>, x: Subject, i: nat, j: nat)
    requires WfPieces(ps) && WrittenStretch(x, i, j) && MatchPieces(ps, x, i, j)
    ensures LegPieces(ps, LegOf(x, i, j))
    decreases ps, 0, 0
  {
    hide MatchPiece, WfPiece, LegPiece, SpotAt;
    if |ps| > 0 {
      var k := PiecesSplit(ps, x, i, j);
      PieceWidth(ps[0], x, i, k);
      PiecesWidth(ps[1..], x, k, j);
      PieceLeg(ps[0], x, i, k);
      PiecesLeg(ps[1..], x, k, j);
      assert Joins(LegOf(x, i, k), LegOf(x, k, j), LegOf(x, i, j));
    }
  }

  lemma {:induction false} AltsLeg(bs: seq<Branch>, x: Subject, i: nat, j: nat)
    requires WfAlts(bs) && WrittenStretch(x, i, j) && MatchAlts(bs, x, i, j)
    ensures LegAlts(bs, LegOf(x, i, j))
    decreases bs, 0, 0
  {
    hide MatchPieces, WfPieces, LegPieces;
    if MatchPieces(bs[0].pieces, x, i, j) {
      PiecesLeg(bs[0].pieces, x, i, j);
    } else {
      AltsLeg(bs[1..], x, i, j);
    }
  }

  // ------------------------------------- every such kind has a match

  /** A stretch of the kind. */
  ghost predicate Real(l: Leg, x: Subject, i: nat, j: nat) {
    WrittenStretch(x, i, j) && LegOf(x, i, j) == l
  }

  /** A text that is `s`, with a byte before it unless it is at the front, and one behind unless it is at the end. */
  function Around(first: bool, s: seq<byte>, last: bool): seq<byte> {
    (if first then [] else [1]) + s + (if last then [] else [1])
  }

  /** What stands at a position behind the terminator, if anything does. */
  function Tail(s: Spot): seq<byte> {
    if s.Behind? then [if s.nul then 0 else 1] else []
  }

  /** A subject with a position of the kind. */
  lemma StayReal(l: Leg) returns (x: Subject, i: nat, j: nat)
    requires Stays(l)
    ensures Real(l, x, i, j) && i == j
  {
    x := Subject(if l.from.Inside? then Around(l.from.first, [], l.from.last) else [], Tail(l.from), true);
    i := if l.from.Outside? then 2 else if l.from.Inside? && l.from.first then 0 else 1;
    j := i;
  }

  /** A subject in which bytes that are no NUL are passed. */
  lemma StepReal(s: seq<byte>, l: Leg) returns (x: Subject, i: nat, j: nat)
    requires Passes(l) && CString(s) && |s| > 0
    ensures Real(l, x, i, j) && j == i + |s| <= Limit(x) && Agree(s, |s|, x, i)
  {
    if l.from.Inside? {
      x := Subject(Around(l.from.first, s, l.to.last), [], true);
      i := if l.from.first then 0 else 1;
    } else {
      x := Subject([], s + Tail(l.to), true);
      i := 1;
    }
    j := i + |s|;
  }

  /** A subject in which a NUL is passed. */
  lemma NulReal(l: Leg) returns (x: Subject, i: nat, j: nat)
    requires PassesNul(l)
    ensures Real(l, x, i, j) && j == i + 1 && At(x, i) == 0
  {
    if l.from.Inside? {
      x := Subject(Around(l.from.first, [], true), Tail(l.to), true);
      i := |x.text|;
    } else {
      x := Subject([], [0] + Tail(l.to), true);
      i := 1;
    }
    j := i + 1;
  }

  lemma TestReal(a: Atom, l: Leg) returns (x: Subject, i: nat, j: nat)
    requires WfAtom(a) && !a.Group? && LegTest(a, l)
    ensures Real(l, x, i, j) && MatchTest(a, x, i, j)
  {
    hide ClassHas;
    if l.from.Edge? {
      x, i, j := Subject([], [], true), 1, 2;
    } else if Stays(l) {
      x, i, j := StayReal(l);
    } else if Leaves(l) {
      x, i, j := Subject([], a.text[..1], true), 1, 3;
    } else if PassesNul(l) {
      x, i, j := NulReal(l);
    } else if a.Lit? {
      x, i, j := StepReal(a.text, l);
    } else {
      var b: byte := 1;
      if a.Class? {
        b :| b != 0 && ClassHas(a.items, b) != a.neg;
      }
      x, i, j := StepReal([b], l);
      assert At(x, i + 0) == [b][0];
    }
  }

  /** A stretch that ends where another begins, made one. */
  lemma Glued(x: Subject, i: nat, k: nat, y: Subject, k': nat, j: nat) returns (w: Subject, e: nat)
    requires WrittenStretch(x, i, k) && WrittenStretch(y, k', j) && SpotAt(x, k) == SpotAt(y, k')
    ensures WrittenStretch(w, i, k) && WrittenStretch(w, k, e)
    ensures Alike(x, i, k, w, i, k) && Alike(y, k', j, w, k, e)
  {
    e := k + (j - k');
    if k > Limit(x) {
      w := x;
    } else if k > |x.text| {
      w := Subject(x.text, x.rest[..k - |x.text| - 1] + y.rest[k' - |y.text| - 1..], true);
      GluedBehind(x, i, k, y, k', j, w);
    } else {
      w := Subject(x.text[..k] + y.text[k'..], y.rest, true);
      GluedInside(x, i, k, y, k', j, w);
    }
  }

  lemma GluedBehind(x: Subject, i: nat, k: nat, y: Subject, k': nat, j: nat, w: Subject)
    requires WrittenStretch(x, i, k) && WrittenStretch(y, k', j) && SpotAt(x, k) == SpotAt(y, k')
    requires |x.text| < k <= Limit(x) && |y.text| < k' <= Limit(y)
    requires w == Subject(x.text, x.rest[..k - |x.text| - 1] + y.rest[k' - |y.text| - 1..], true)
    ensures Alike(x, i, k, w, i, k) && Alike(y, k', j, w, k, k + (j - k'))
  {
    assert forall m: nat :: m < k ==> At(w, m) == At(x, m);
    assert forall m: nat :: k' <= m < Limit(y) ==> At(w, m - k' + k) == At(y, m);
  }

  lemma GluedInside(x: Subject, i: nat, k: nat, y: Subject, k': nat, j: nat, w: Subject)
    requires WrittenStretch(x, i, k) && WrittenStretch(y, k', j) && SpotAt(x, k) == SpotAt(y, k')
    requires k <= |x.text| && k' <= |y.text| && w == Subject(x.text[..k] + y.text[k'..], y.rest, true)
    ensures Alike(x, i, k, w, i, k) && Alike(y, k', j, w, k, k + (j - k'))
  {
    assert forall m: nat :: m < k ==> At(w, m) == At(x, m);
    assert forall m: nat :: k' <= m < Limit(y) ==> At(w, m - k' + k) == At(y, m);
  }

  lemma {:induction false} AtomReal(a: Atom, l: Leg) returns (x: Subject, i: nat, j: nat)
    requires WfAtom(a) && LegAtom(a, l)
    ensures Real(l, x, i, j) && MatchAtom(a, x, i, j)
    decreases a, 0, 0
  {
    hide LegTest, MatchTest, Real;
    if a.Group? {
      x, i, j := AltsReal(a.alts, l);
    } else {
      x, i, j := TestReal(a, l);
    }
  }

  lemma {:induction false} TimesReal(a: Atom, n: nat, l: Leg) returns (x: Subject, i: nat, j: nat)
    requires WfAtom(a) && LegTimes(a, n, l)
    ensures Real(l, x, i, j) && MatchTimes(a, n, Repeated(a, x), i, j)
    decreases a, 1, n
  {
    hide MatchAtom, WfAtom, LegAtom, SimpleAtom, Alike, SpotAt, Stays, AtNul, Repeated;
    if n == 0 {
      x, i, j := StayReal(l);
    } else {
      var l1, l2 :| LegTime(a, l1) && LegTimes(a, n - 1, l2) && Joins(l1, l2, l);
      var x1, i1, k1 := AtomReal(a, l1);
      var x2, k2, j2 := TimesReal(a, n - 1, l2);
      x, j := Glued(x1, i1, k1, x2, k2, j2);
      i := i1;
      AtomLocal(a, x1, i1, k1, x, i, k1);
      AlikeLegs(x1, i1, k1, x, i, k1);
      TimeIs(a, x, i, k1);
      AlikeRepeated(a, x2, k2, j2, x, k1, j);
      TimesLocal(a, n - 1, Repeated(a, x2), k2, j2, Repeated(a, x), k1, j);
      AlikeLegs(x2, k2, j2, x, k1, j);
    }
  }

  lemma AlikeLegs(x: Subject, i: nat, j: nat, y: Subject, i': nat, j': nat)
    requires Alike(x, i, j, y, i', j')
    ensures LegOf(x, i, j) == LegOf(y, i', j') && i <= j && i' <= j'
  {
  }

  lemma {:induction false} PieceReal(p: Piece, l: Leg) returns (x: Subject, i: nat, j: nat)
    requires WfPiece(p) && LegPiece(p, l)
    ensures Real(l, x, i, j) && MatchPiece(p, x, i, j)
    decreases p, 0, 0
  {
    hide MatchAtom, WfAtom, MatchTimes, LegAtom, LegTimes, Real;
    if p.mult == ZeroOrMore || p.mult == OneOrMore {
      var min := if p.mult == ZeroOrMore then 0 else 1;
      var n: nat :| min <= n <= 7 && LegTimes(p.atom, n, l);
      x, i, j := TimesReal(p.atom, n, l);
      assert MatchMany(p.atom, min, Repeated(p.atom, x), i, j);
    } else if p.mult == One || !Stays(l) {
      x, i, j := AtomReal(p.atom, l);
    } else {
      x, i, j := StayReal(l);
    }
  }

  lemma {:induction false} PiecesReal(ps: seq<Piece>, l: Leg) returns (x: Subject, i: nat, j: nat)
    requires WfPieces(ps) && LegPieces(ps, l)
    ensures Real(l, x, i, j) && MatchPieces(ps, x, i, j)
    decreases ps, 0, 0
  {
    hide MatchPiece, WfPiece, LegPiece, Alike, SpotAt, Stays;
    if |ps| == 0 {
      x, i, j := StayReal(l);
    } else {
      var l1, l2 := LegsSplit(ps, l);
      var x1, i1, k1 := PieceReal(ps[0], l1);
      var x2, k2, j2 := PiecesReal(ps[1..], l2);
      x, j := Glued(x1, i1, k1, x2, k2, j2);
      i := i1;
      PieceLocal(ps[0], x1, i1, k1, x, i, k1);
      PiecesLocal(ps[1..], x2, k2, j2, x, k1, j);
      AlikeLegs(x1, i1, k1, x, i, k1);
      AlikeLegs(x2, k2, j2, x, k1, j);
      PiecesJoin(ps, x, i, k1, j);
    }
  }

  lemma {:induction false} AltsReal(bs: seq<Branch>, l: Leg) returns (x: Subject, i: nat, j: nat)
    requires WfAlts(bs) && LegAlts(bs, l)
    ensures Real(l, x, i, j) && MatchAlts(bs, x, i, j)
    decreases bs, 0, 0
  {
    hide MatchPieces, WfPieces, LegPieces, Real;
    if LegPieces(bs[0].pieces, l) {
      x, i, j := PiecesReal(bs[0].pieces, l);
    } else {
      x, i, j := AltsReal(bs[1..], l);
    }
  }

  // ------------------------------------------------ repetition, cut short

  /** Where a match that has width can lead: never back, and out of the text from its end. */
  predicate Onwards(l: Leg) {
    match l.from
    case Inside(_, last) => l.moved && (l.to.Inside? ==> !last && !l.to.first)
    case Behind(_) => l.moved && !l.to.Inside?
    case Edge => l.moved && l.to == Outside
    case Outside => Stays(l)
  }

  lemma WideLeg(a: Atom, l: Leg)
    requires WfAtom(a) && WideAtom(a) && LegAtom(a, l)
    ensures Onwards(l)
    decreases a, 2, 0
  {
    hide MatchAtom, WfAtom, LegAtom, WideAtom;
    var x, i, j := AtomReal(a, l);
    AtomWidth(a, x, i, j);
  }

  /** More repetitions than this, and a kind of position comes twice. */
  function Room(s: Spot): nat {
    match s
    case Inside(first, last) => if first then 7 else if last then 5 else 6
    case Behind(_) => 4
    case Edge => 2
    case Outside => 1
  }

  /** Between the two times nothing needs to be repeated. */
  lemma {:induction false} Shorter(a: Atom, n: nat, l: Leg) returns (m: nat)
    requires WfAtom(a) && WideAtom(a) && LegTimes(a, n, l) && n > Room(l.from)
    ensures 0 < m < n && LegTimes(a, m, l)
    decreases a, 3, n
  {
    hide WfAtom, LegAtom, WideAtom, LegTimes, LegTime;
    var l1, r1 := FirstTime(a, n, l);
    var l2, r2 := FirstTime(a, n - 1, r1);
    if l1.to == l.from {
      m := n - 1;
    } else if l2.to == l.from {
      var _, _ := FirstTime(a, n - 2, r2);
      m := n - 2;
    } else if l2.to == l1.to {
      m := n - 1;
      AfterTime(a, m, l1, r2, l);
    } else if l.from.Behind? && l1.to.Behind? {
      var k := Shorter(a, n - 2, r2);
      AfterTime(a, k + 1, l2, r2, r1);
      AfterTime(a, k + 2, l1, r1, l);
      m := k + 2;
    } else {
      var k := Shorter(a, n - 1, r1);
      AfterTime(a, k + 1, l1, r1, l);
      m := k + 1;
    }
  }

  lemma {:induction false} AtMostSeven(a: Atom, n: nat, l: Leg) returns (m: nat)
    requires WfAtom(a) && WideAtom(a) && LegTimes(a, n, l)
    ensures m <= 7 && (n > 0 ==> m > 0) && LegTimes(a, m, l)
    decreases a, 4, n
  {
    hide WfAtom, LegAtom, WideAtom, LegTimes;
    m := n;
    if n > 7 {
      m := Shorter(a, n, l);
      m := AtMostSeven(a, m, l);
    }
  }

  lemma FirstTime(a: Atom, n: nat, l: Leg) returns (l1: Leg, r: Leg)
    requires WfAtom(a) && WideAtom(a) && n > 0 && LegTimes(a, n, l)
    ensures LegTime(a, l1) && LegTimes(a, n - 1, r) && Joins(l1, r, l) && Onwards(l1)
    decreases a, 2, 1
  {
    hide LegAtom, WfAtom, WideAtom, SimpleAtom;
    l1, r :| LegTime(a, l1) && LegTimes(a, n - 1, r) && Joins(l1, r, l);
    WideLeg(a, l1);
  }

  lemma AfterTime(a: Atom, n: nat, l1: Leg, r: Leg, l: Leg)
    requires n > 0 && LegTime(a, l1) && LegTimes(a, n - 1, r) && Joins(l1, r, l)
    ensures LegTimes(a, n, l)
  {
    hide LegAtom, SimpleAtom;
  }

  // ------------------------------------------------------- main results

  /** The kinds read off a pattern are those of its matches as written, in all texts and memories. */
  lemma LegsExactly(bs: seq<Branch>, l: Leg)
    requires WfAlts(bs)
    ensures LegAlts(bs, l) <==> exists x: Subject, i: nat, j: nat :: Real(l, x, i, j) && MatchAlts(bs, x, i, j)
  {
    hide MatchAlts, WfAlts, LegAlts;
    if LegAlts(bs, l) {
      var x, i, j := AltsReal(bs, l);
      assert Real(l, x, i, j);
    }
    if x: Subject, i: nat, j: nat :| Real(l, x, i, j) && MatchAlts(bs, x, i, j) {
      AltsLeg(bs, x, i, j);
    }
  }

  /** A match can start in the text and end behind it, or leave the memory on the way. */
  ghost predicate CanOverrun(bs: seq<Branch>) {
    exists l :: LegAlts(bs, l) && l.from.Inside? && !l.to.Inside?
  }

  /** A stretch of a C string and the memory behind it that is matched as written but not as meant. */
  ghost predicate Astray(bs: seq<Branch>, x: Subject, i: nat, j: nat) {
    WrittenStretch(x, i, j) && i <= |x.text| && MatchAlts(bs, x, i, j) && !MatchAlts(bs, Meant(x.text), i, j)
  }

  /** The source's class test finds what is no match in exactly the patterns that can overrun. */
  lemma OverrunsExactly(bs: seq<Branch>)
    requires WfAlts(bs)
    ensures CanOverrun(bs) <==> exists x: Subject, i: nat, j: nat :: Astray(bs, x, i, j)
  {
    hide MatchAlts, WfAlts, LegAlts;
    if l :| LegAlts(bs, l) && l.from.Inside? && !l.to.Inside? {
      var x, i, j := AltsReal(bs, l);
      AltsSame(bs, Meant(x.text), x, i, j);
      assert Astray(bs, x, i, j);
    }
    if x: Subject, i: nat, j: nat :| Astray(bs, x, i, j) {
      AltsSame(bs, Meant(x.text), x, i, j);
      AltsLeg(bs, x, i, j);
      assert LegAlts(bs, LegOf(x, i, j));
    }
  }

  /** Where a pattern cannot overrun, every search stays in the memory and gives the answer that is meant. */
  lemma SearchSame(bs: seq<Branch>, x: Subject, r: Verdict, start: nat, end: nat)
    requires WfAlts(bs) && !CanOverrun(bs) && CString(x.text) && x.loose && Tells(r, bs, x, start, end)
    ensures r == if MatchesSomewhere(bs, Meant(x.text)) then Matched else Failed
    ensures r == Matched ==> MatchAlts(bs, Meant(x.text), start, end)
  {
    hide MatchAlts, WfAlts, CanOverrun, Must, Occurs;
    OverrunsExactly(bs);
    var y := Meant(x.text);
    forall i: nat, j: nat | i <= |x.text|
      ensures MatchAlts(bs, x, i, j) <==> MatchAlts(bs, y, i, j)
      ensures MatchAlts(bs, x, i, j) ==> j <= |x.text| && Occurs(Must(bs), x.text)
    {
      AltsSame(bs, y, x, i, j);
      if MatchAlts(bs, x, i, j) {
        AltsWidth(bs, x, i, j);
        assert !Astray(bs, x, i, j);
        ShortcutsSound(bs, x, i, j);
      }
    }
    SameSomewhere(bs, x, y);
    if r != Failed {
      assert MatchesAt(bs, y, start);
    }
  }

  lemma SameSomewhere(bs: seq<Branch>, x: Subject, y: Subject)
    requires x.text == y.text
    requires forall i: nat, j: nat :: i <= |x.text| ==> (MatchAlts(bs, x, i, j) <==> MatchAlts(bs, y, i, j))
    ensures MatchesSomewhere(bs, x) <==> MatchesSomewhere(bs, y)
  {
    hide MatchAlts;
    if i: nat :| i <= |x.text| && MatchesAt(bs, x, i) {
      var j: nat :| MatchAlts(bs, x, i, j);
      assert MatchesAt(bs, y, i);
    }
    if i: nat :| i <= |x.text| && MatchesAt(bs, y, i) {
      var j: nat :| MatchAlts(bs, y, i, j);
      assert MatchesAt(bs, x, i);
    }
  }

  // ------------------------------------------------------ a simple guard

  /** Every class that is not repeated is complemented. */
  ghost predicate GuardedPiece(p: Piece)
    decreases p, 0
  {
    match p.atom
    case Class(neg, _) => neg || p.mult == ZeroOrMore || p.mult == OneOrMore
    case Group(_, bs) => GuardedAlts(bs)
    case _ => true
  }

  ghost predicate GuardedPieces(ps: seq<Piece>)
    decreases ps, 0
  {
    |ps| > 0 ==> GuardedPiece(ps[0]) && GuardedPieces(ps[1..])
  }

  ghost predicate GuardedAlts(bs: seq<Branch>)
    decreases bs, 0
  {
    |bs| > 0 ==> GuardedPieces(bs[0].pieces) && GuardedAlts(bs[1..])
  }

  /** From inside the text, not behind it. */
  ghost predicate StaysInside(l: Leg) {
    l.from.Inside? ==> l.to.Inside?
  }

  lemma {:induction false} TimesGuarded(p: Piece, n: nat, l: Leg)
    requires GuardedPiece(p) && (p.mult == ZeroOrMore || p.mult == OneOrMore) && LegTimes(p.atom, n, l)
    ensures StaysInside(l)
    decreases p, 0, n
  {
    hide SimpleAtom, LegAtom;
    if n > 0 {
      var l1, l2 :| LegTime(p.atom, l1) && LegTimes(p.atom, n - 1, l2) && Joins(l1, l2, l);
      TimeGuarded(p, l1);
      TimesGuarded(p, n - 1, l2);
    }
  }

  lemma TimeGuarded(p: Piece, l: Leg)
    requires GuardedPiece(p) && LegTime(p.atom, l) && (p.mult == ZeroOrMore || p.mult == OneOrMore)
    ensures StaysInside(l)
    decreases p, 0, 0
  {
    if p.atom.Group? {
      AltsGuarded(p.atom.alts, l);
    }
  }

  lemma {:induction false} PieceGuarded(p: Piece, l: Leg)
    requires GuardedPiece(p) && LegPiece(p, l)
    ensures StaysInside(l)
    decreases p, 1
  {
    hide LegTimes;
    if p.mult == ZeroOrMore || p.mult == OneOrMore {
      var n: nat :| n <= 7 && LegTimes(p.atom, n, l);
      TimesGuarded(p, n, l);
    } else if p.atom.Group? && !Stays(l) {
      AltsGuarded(p.atom.alts, l);
    }
  }

  lemma {:induction false} PiecesGuarded(ps: seq<Piece>, l: Leg)
    requires GuardedPieces(ps) && LegPieces(ps, l)
    ensures StaysInside(l)
    decreases ps, 0
  {
    hide LegPiece, GuardedPiece;
    if |ps| > 0 {
      var l1, l2 := LegsSplit(ps, l);
      PieceGuarded(ps[0], l1);
      PiecesGuarded(ps[1..], l2);
    }
  }

  lemma {:induction false} AltsGuarded(bs: seq<Branch>, l: Leg)
    requires GuardedAlts(bs) && LegAlts(bs, l)
    ensures StaysInside(l)
    decreases bs, 0
  {
    hide LegPieces, GuardedPieces;
    if LegPieces(bs[0].pieces, l) {
      PiecesGuarded(bs[0].pieces, l);
    } else {
      AltsGuarded(bs[1..], l);
    }
  }

  /** A pattern in which every class that is not repeated is complemented cannot overrun. */
  lemma GuardedStays(bs: seq<Branch>)
    requires GuardedAlts(bs)
    ensures !CanOverrun(bs)
  {
    hide LegAlts, GuardedAlts;
    forall l: Leg | LegAlts(bs, l) ensures StaysInside(l) {
      AltsGuarded(bs, l);
    }
  }

  lemma LegsSplit(ps: seq<Piece>, l: Leg) returns (l1: Leg, l2: Leg)
    requires |ps| > 0 && LegPieces(ps, l)
    ensures LegPiece(ps[0], l1) && LegPieces(ps[1..], l2) && Joins(l1, l2, l)
  {
    l1, l2 :| LegPiece(ps[0], l1) && LegPieces(ps[1..], l2) && Joins(l1, l2, l);
  }
}
