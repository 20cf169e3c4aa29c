/**
  The single-step class test of `regmatch` does not look for the end of the string
  (libsrc/evalresp/regexp.c:898-902). Of what that changes, the first half: two subjects
  with the same text have the same matches inside it, whatever lies behind the text, and
  as long as no class passes a NUL there are no others.
*/
module RegexTerminator {
  import opened RegexSyntax
  import opened RegexMeaning

  /** The meaning as documented. */
  ghost function Meant(text: seq<byte>): Subject { Subject(text, [], false) }

  /** The source's class test on a text in front of `rest`. */
  ghost function Written(text: seq<byte>, rest: seq<byte>): Subject { Subject(text, rest, true) }

  /** A C string to which the class test does what is meant, and a subject with the same text. */
  ghost predicate SameText(x: Subject, y: Subject) {
    CString(x.text) && !x.loose && y.text == x.text
  }

  lemma NulStops(s: seq<byte>, x: Subject, i: nat)
    requires CString(s) && i <= |x.text| < i + |s|
    ensures !Agree(s, Within(x, i, |s|), x, i)
  {
    var k := |x.text| - i;
    assert k < Within(x, i, |s|) && At(x, i + k) == 0 != s[k];
  }

  /** A run of bytes that are no NUL lies inside the text. */
  lemma TextAgrees(s: seq<byte>, x: Subject, i: nat)
    requires CString(s) && i <= |x.text|
    ensures Agree(s, Within(x, i, |s|), x, i) <==> i + |s| <= |x.text| && x.text[i..i + |s|] == s
  {
    var n := Within(x, i, |s|);
    if Agree(s, n, x, i) {
      if i + |s| > |x.text| {
        NulStops(s, x, i);
        assert false;
      }
      forall k | 0 <= k < |s| ensures x.text[i..i + |s|][k] == s[k] {
        assert At(x, i + k) == s[k];
      }
    }
    if i + |s| <= |x.text| && x.text[i..i + |s|] == s {
      forall k | 0 <= k < |s| ensures At(x, i + k) == s[k] {
        assert x.text[i..i + |s|][k] == s[k];
      }
    }
  }

  lemma {:induction false} AtomSame(a: Atom, x: Subject, y: Subject, i: nat, j: nat)
    requires WfAtom(a) && SameText(x, y) && i <= |x.text|
    ensures MatchAtom(a, x, i, j) <==> MatchAtom(a, y, i, j) && j <= |x.text|
    decreases a, 0, 0
  {
    hide ClassHas;
    match a {
      case Group(_, bs) => AltsSame(bs, x, y, i, j);
      case Lit(text, _) =>
        TextAgrees(text, x, i);
        TextAgrees(text, y, i);
      case _ =>
    }
  }

  lemma {:induction false} TimesSame(a: Atom, n: nat, x: Subject, y: Subject, i: nat, j: nat)
    requires WfAtom(a) && SameText(x, y) && i <= |x.text|
    ensures MatchTimes(a, n, x, i, j) <==> MatchTimes(a, n, y, i, j) && j <= |x.text|
    decreases a, 1, n
  {
    hide MatchAtom, WfAtom;
    if n > 0 {
      if MatchTimes(a, n, x, i, j) {
        var k := TimesSplit(a, n, x, i, j);
        AtomSame(a, x, y, i, k);
        TimesSame(a, n - 1, x, y, k, j);
      }
      if MatchTimes(a, n, y, i, j) && j <= |x.text| {
        var k := TimesSplit(a, n, y, i, j);
        AtomWidth(a, y, i, k);
        TimesWidth(a, n - 1, y, k, j);
        AtomSame(a, x, y, i, k);
        TimesSame(a, n - 1, x, y, k, j);
      }
    }
  }

  lemma {:induction false} ManySame(a: Atom, min: nat, x: Subject, y: Subject, i: nat, j: nat)
    requires WfAtom(a) && SameText(x, y) && i <= |x.text|
    ensures MatchMany(a, min, x, i, j) <==> MatchMany(a, min, y, i, j) && j <= |x.text|
    decreases a, 2, 0
  {
    hide MatchTimes;
    if MatchMany(a, min, x, i, j) {
      var n := ManySplit(a, min, x, i, j);
      TimesSame(a, n, x, y, i, j);
    }
    if MatchMany(a, min, y, i, j) && j <= |x.text| {
      var n := ManySplit(a, min, y, i, j);
      TimesSame(a, n, x, y, i, j);
    }
  }

  lemma {:induction false} PieceSame(p: Piece, x: Subject, y: Subject, i: nat, j: nat)
    requires WfPiece(p) && SameText(x, y) && i <= |x.text|
    ensures MatchPiece(p, x, i, j) <==> MatchPiece(p, y, i, j) && j <= |x.text|
    decreases p, 0, 0
  {
    hide MatchAtom, MatchMany, WfAtom;
    AtomSame(p.atom, x, y, i, j);
    if p.mult == ZeroOrMore || p.mult == OneOrMore {
      var min := if p.mult == ZeroOrMore then 0 else 1;
      ManySame(p.atom, min, Repeated(p.atom, x), Repeated(p.atom, y), i, j);
    }
  }

  lemma {:induction false} PiecesSame(ps: seq<Piece>, x: Subject, y: Subject, i: nat, j: nat)
    requires WfPieces(ps) && SameText(x, y) && i <= |x.text|
    ensures MatchPieces(ps, x, i, j) <==> MatchPieces(ps, y, i, j) && j <= |x.text|
    decreases ps, 0, 0
  {
    hide MatchPiece, WfPiece;
    if |ps| > 0 {
      if MatchPieces(ps, x, i, j) {
        var k := PiecesSplit(ps, x, i, j);
        PieceSame(ps[0], x, y, i, k);
        PiecesSame(ps[1..], x, y, k, j);
        PiecesJoin(ps, y, i, k, j);
      }
      if MatchPieces(ps, y, i, j) && j <= |x.text| {
        var k := PiecesSplit(ps, y, i, j);
        PieceWidth(ps[0], y, i, k);
        PiecesWidth(ps[1..], y, k, j);
        PieceSame(ps[0], x, y, i, k);
        PiecesSame(ps[1..], x, y, k, j);
        PiecesJoin(ps, x, i, k, j);
      }
    }
  }

  /** What is matched as meant is what is matched in any other reading and ends inside the text. */
  lemma {:induction false} AltsSame(bs: seq<Branch>, x: Subject, y: Subject, i: nat, j: nat)
    requires WfAlts(bs) && SameText(x, y) && i <= |x.text|
    ensures MatchAlts(bs, x, i, j) <==> MatchAlts(bs, y, i, j) && j <= |x.text|
    decreases bs, 0, 0
  {
    hide MatchPieces, WfPieces;
    if |bs| > 0 {
      PiecesSame(bs[0].pieces, x, y, i, j);
      AltsSame(bs[1..], x, y, i, j);
    }
  }
}
