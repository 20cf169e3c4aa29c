/**
  What a pattern means: which stretches `text[i..j]` of a subject it matches.
  The meaning knows nothing of byte code, links, flags or backtracking.
*/
module RegexMeaning {
  import opened RegexSyntax

  /**
    The string to match, in the memory it lies in: `text`, the terminating NUL, and
    `rest`, which is what the object holds behind that. `loose` selects the
    single-step class test as the source writes it (libsrc/evalresp/regexp.c:898-902):
    it searches the operand with strchr, which finds the terminator of the operand
    too, so a class that is not complemented passes any NUL. The repeated form
    (regexp.c:1071-1077) tests for NUL first. With `loose == false` no class passes a
    NUL, which is the meaning the documentation gives; no match then leaves the text,
    and `rest` does not count.
  */
  datatype Subject = Subject(text: seq<byte>, rest: seq<byte>, loose: bool)

  /** The size of the memory. */
  function Limit(x: Subject): nat {
    |x.text| + 1 + |x.rest|
  }

  /** Where a path is put that reads a byte outside the memory: nothing is known of it from there on. */
  function Gone(x: Subject): nat {
    Limit(x) + 1
  }

  function At(x: Subject, i: nat): byte {
    if i < |x.text| then x.text[i]
    else if |x.text| < i < Limit(x) then x.rest[i - |x.text| - 1]
    else 0
  }

  predicate ItemHas(it: ClassItem, b: byte) {
    match it
    case Single(c) => b == c
    case UpTo(lo, hi) => lo < b <= hi
  }

  predicate ClassHas(items: seq<ClassItem>, b: byte) {
    exists k :: 0 <= k < |items| && ItemHas(items[k], b)
  }

  /** The class test on one byte. */
  predicate Steps(neg: bool, items: seq<ClassItem>, loose: bool, b: byte) {
    if b != 0 then ClassHas(items, b) != neg else loose && !neg
  }

  /** The first `n` bytes of `s` stand at `i`. */
  predicate Agree(s: seq<byte>, n: nat, x: Subject, i: nat) {
    n <= |s| && forall k :: 0 <= k < n ==> At(x, i + k) == s[k]
  }

  /** The length of the input a test consumes when it succeeds. */
  function StepLen(a: Atom): nat {
    match a
    case Any => 1
    case Class(_, _) => 1
    case Lit(text, _) => |text|
    case _ => 0
  }

  /** The bytes a test reads when it succeeds. */
  function Reads(a: Atom): nat {
    if a.Eol? then 1 else StepLen(a)
  }

  /** Of `n` bytes from `i` on, those inside the memory. */
  function Within(x: Subject, i: nat, n: nat): (m: nat)
    ensures m <= n
  {
    if i + n <= Limit(x) then n else if i <= Limit(x) then Limit(x) - i else 0
  }

  /** What the bytes a test reads must be. Outside the memory any byte will do. */
  predicate Holds(a: Atom, x: Subject, i: nat) {
    match a
    case Bol => i == 0
    case Eol => i < Limit(x) ==> At(x, i) == 0
    case Any => i < Limit(x) ==> At(x, i) != 0
    case Class(neg, items) => i < Limit(x) ==> Steps(neg, items, x.loose, At(x, i))
    case Lit(text, _) => Agree(text, Within(x, i, |text|), x, i)
    case Group(_, _) => false
  }

  predicate MatchTest(a: Atom, x: Subject, i: nat, j: nat) {
    if i > Limit(x) then i == j
    else Holds(a, x, i) && j == if i + Reads(a) <= Limit(x) then i + StepLen(a) else Gone(x)
  }

  ghost predicate MatchAtom(a: Atom, x: Subject, i: nat, j: nat)
    decreases a, 0, 0
  {
    if a.Group? then MatchAlts(a.alts, x, i, j) else MatchTest(a, x, i, j)
  }

  /** `n` matches of `a` one after the other. */
  ghost predicate MatchTimes(a: Atom, n: nat, x: Subject, i: nat, j: nat)
    decreases a, 1, n
  {
    if n == 0 then i == j
    else exists k: nat :: MatchAtom(a, x, i, k) && MatchTimes(a, n - 1, x, k, j)
  }

  /** At least `min` matches of `a` one after the other. */
  ghost predicate MatchMany(a: Atom, min: nat, x: Subject, i: nat, j: nat)
    decreases a, 2, 0
  {
    exists n: nat :: min <= n && MatchTimes(a, n, x, i, j)
  }

  /** The subject as the repetition of `a` sees it: the loop of STAR and PLUS stops at the end of the string. */
  function Repeated(a: Atom, x: Subject): Subject {
    if SimpleAtom(a) then x.(loose := false) else x
  }

  ghost predicate MatchPiece(p: Piece, x: Subject, i: nat, j: nat)
    decreases p, 0, 0
  {
    match p.mult
    case One => MatchAtom(p.atom, x, i, j)
    case ZeroOrMore => MatchMany(p.atom, 0, Repeated(p.atom, x), i, j)
    case OneOrMore => MatchMany(p.atom, 1, Repeated(p.atom, x), i, j)
    case ZeroOrOne => i == j || MatchAtom(p.atom, x, i, j)
  }

  ghost predicate MatchPieces(ps: seq<Piece>, x: Subject, i: nat, j: nat)
    decreases ps, 0, 0
  {
    if |ps| == 0 then i == j
    else exists k: nat :: MatchPiece(ps[0], x, i, k) && MatchPieces(ps[1..], x, k, j)
  }

  ghost predicate MatchAlts(bs: seq<Branch>, x: Subject, i: nat, j: nat)
    decreases bs, 0, 0
  {
    |bs| > 0 && (MatchPieces(bs[0].pieces, x, i, j) || MatchAlts(bs[1..], x, i, j))
  }

  // ------------------------------------------- taking matches apart

  lemma TimesSplit(a: Atom, n: nat, x: Subject, i: nat, j: nat) returns (k: nat)
    requires n > 0 && MatchTimes(a, n, x, i, j)
    ensures MatchAtom(a, x, i, k) && MatchTimes(a, n - 1, x, k, j)
  {
    k :| MatchAtom(a, x, i, k) && MatchTimes(a, n - 1, x, k, j);
  }

  lemma ManySplit(a: Atom, min: nat, x: Subject, i: nat, j: nat) returns (n: nat)
    requires MatchMany(a, min, x, i, j)
    ensures min <= n && MatchTimes(a, n, x, i, j)
  {
    n :| min <= n && MatchTimes(a, n, x, i, j);
  }

  /** Repetition stops at once or matches at least once. */
  lemma StarCases(a: Atom, x: Subject, i: nat, j: nat)
    ensures MatchMany(a, 0, x, i, j) <==> (i == j || MatchMany(a, 1, x, i, j))
  {
    if MatchMany(a, 0, x, i, j) {
      var n := ManySplit(a, 0, x, i, j);
    }
    if i == j {
      assert MatchTimes(a, 0, x, i, j);
    }
    if MatchMany(a, 1, x, i, j) {
      var n := ManySplit(a, 1, x, i, j);
    }
  }

  lemma PlusSplit(a: Atom, x: Subject, i: nat, j: nat) returns (k: nat)
    requires MatchMany(a, 1, x, i, j)
    ensures MatchAtom(a, x, i, k) && MatchMany(a, 0, x, k, j)
  {
    var n := ManySplit(a, 1, x, i, j);
    k := TimesSplit(a, n, x, i, j);
  }

  lemma PlusJoin(a: Atom, x: Subject, i: nat, k: nat, j: nat)
    requires MatchAtom(a, x, i, k) && MatchMany(a, 0, x, k, j)
    ensures MatchMany(a, 1, x, i, j)
  {
    var n := ManySplit(a, 0, x, k, j);
    assert MatchTimes(a, n + 1, x, i, j);
  }

  lemma PiecesSplit(ps: seq<Piece>, x: Subject, i: nat, j: nat) returns (k: nat)
    requires |ps| > 0 && MatchPieces(ps, x, i, j)
    ensures MatchPiece(ps[0], x, i, k) && MatchPieces(ps[1..], x, k, j)
  {
    k :| MatchPiece(ps[0], x, i, k) && MatchPieces(ps[1..], x, k, j);
  }

  lemma PiecesJoin(ps: seq<Piece>, x: Subject, i: nat, k: nat, j: nat)
    requires |ps| > 0 && MatchPiece(ps[0], x, i, k) && MatchPieces(ps[1..], x, k, j)
    ensures MatchPieces(ps, x, i, j)
  {
  }

  // ---------------------------------------------- positions and width

  /** A match ends where it starts or later; where HASWIDTH is set, later, unless the memory has been left. */
  ghost predicate Onward(x: Subject, i: nat, j: nat, wide: bool) {
    i <= j <= Gone(x) && (wide && i <= Limit(x) ==> i < j)
  }

  lemma {:induction false} AtomWidth(a: Atom, x: Subject, i: nat, j: nat)
    requires WfAtom(a) && MatchAtom(a, x, i, j) && i <= Gone(x)
    ensures Onward(x, i, j, WideAtom(a))
    decreases a, 0, 0
  {
    if a.Group? {
      AltsWidth(a.alts, x, i, j);
    }
  }

  lemma {:induction false} TimesWidth(a: Atom, n: nat, x: Subject, i: nat, j: nat)
    requires WfAtom(a) && MatchTimes(a, n, x, i, j) && i <= Gone(x)
    ensures Onward(x, i, j, WideAtom(a) && n > 0)
    decreases a, 1, n
  {
    hide MatchAtom;
    if n > 0 {
      var k := TimesSplit(a, n, x, i, j);
      AtomWidth(a, x, i, k);
      TimesWidth(a, n - 1, x, k, j);
    }
  }

  lemma {:induction false} PieceWidth(p: Piece, x: Subject, i: nat, j: nat)
    requires WfPiece(p) && MatchPiece(p, x, i, j) && i <= Gone(x)
    ensures Onward(x, i, j, WidePiece(p))
    decreases p, 0, 0
  {
    hide MatchAtom, MatchTimes;
    match p.mult {
      case One => AtomWidth(p.atom, x, i, j);
      case ZeroOrMore =>
        var n := ManySplit(p.atom, 0, Repeated(p.atom, x), i, j);
        TimesWidth(p.atom, n, Repeated(p.atom, x), i, j);
      case OneOrMore =>
        var n := ManySplit(p.atom, 1, Repeated(p.atom, x), i, j);
        TimesWidth(p.atom, n, Repeated(p.atom, x), i, j);
      case ZeroOrOne =>
        if i != j { AtomWidth(p.atom, x, i, j); }
    }
  }

  lemma {:induction false} PiecesWidth(ps: seq<Piece>, x: Subject, i: nat, j: nat)
    requires WfPieces(ps) && MatchPieces(ps, x, i, j) && i <= Gone(x)
    ensures Onward(x, i, j, WidePieces(ps))
    decreases ps, 0, 0
  {
    hide MatchPiece;
    if |ps| > 0 {
      var k := PiecesSplit(ps, x, i, j);
      PieceWidth(ps[0], x, i, k);
      PiecesWidth(ps[1..], x, k, j);
    }
  }

  lemma {:induction false} AltsWidth(bs: seq<Branch>, x: Subject, i: nat, j: nat)
    requires WfAlts(bs) && MatchAlts(bs, x, i, j) && i <= Gone(x)
    ensures Onward(x, i, j, WideAlts(bs))
    decreases bs, 0, 0
  {
    hide MatchPieces;
    if MatchPieces(bs[0].pieces, x, i, j) {
      PiecesWidth(bs[0].pieces, x, i, j);
    } else {
      AltsWidth(bs[1..], x, i, j);
    }
  }

  // --------------------------------------------------- the empty text

  /** The empty string. */
  function Nothing(): Subject {
    Subject([], [], false)
  }

  lemma {:induction false} AtomEmpty(a: Atom)
    requires WfAtom(a) && !WideAtom(a)
    ensures MatchAtom(a, Nothing(), 0, 0)
    decreases a, 0, 0
  {
    if a.Group? {
      AltsEmpty(a.alts);
    }
  }

  lemma {:induction false} PieceEmpty(p: Piece)
    requires WfPiece(p) && !WidePiece(p)
    ensures MatchPiece(p, Nothing(), 0, 0)
    decreases p, 0, 0
  {
    hide MatchAtom;
    if p.mult == One {
      AtomEmpty(p.atom);
    } else if p.mult == ZeroOrMore {
      assert MatchTimes(p.atom, 0, Repeated(p.atom, Nothing()), 0, 0);
    }
  }

  lemma {:induction false} PiecesEmpty(ps: seq<Piece>)
    requires WfPieces(ps) && !WidePieces(ps)
    ensures MatchPieces(ps, Nothing(), 0, 0)
    decreases ps, 0, 0
  {
    hide MatchPiece;
    if |ps| > 0 {
      PieceEmpty(ps[0]);
      PiecesEmpty(ps[1..]);
      PiecesJoin(ps, Nothing(), 0, 0, 0);
    }
  }

  lemma {:induction false} AltsEmpty(bs: seq<Branch>)
    requires WfAlts(bs) && !WideAlts(bs)
    ensures MatchAlts(bs, Nothing(), 0, 0)
    decreases bs, 0, 0
  {
    hide MatchPieces;
    if !WidePieces(bs[0].pieces) {
      PiecesEmpty(bs[0].pieces);
    } else {
      AltsEmpty(bs[1..]);
    }
  }

  /** HASWIDTH is what its name says: an atom lacks it exactly if it matches the empty string. */
  lemma WideExactly(a: Atom)
    requires WfAtom(a)
    ensures WideAtom(a) <==> !MatchAtom(a, Nothing(), 0, 0)
  {
    hide MatchAtom, WideAtom;
    if WideAtom(a) {
      if MatchAtom(a, Nothing(), 0, 0) {
        AtomWidth(a, Nothing(), 0, 0);
      }
    } else {
      AtomEmpty(a);
    }
  }

  /** And so for a whole expression. */
  lemma AltsWideExactly(bs: seq<Branch>)
    requires WfAlts(bs) && |bs| > 0
    ensures WideAlts(bs) <==> !MatchAlts(bs, Nothing(), 0, 0)
  {
    hide MatchAlts, WideAlts;
    if WideAlts(bs) {
      if MatchAlts(bs, Nothing(), 0, 0) {
        AltsWidth(bs, Nothing(), 0, 0);
      }
    } else {
      AltsEmpty(bs);
    }
  }

  /** SIMPLE: the tests that pass exactly one byte. */
  lemma SimpleExactly(a: Atom, x: Subject, i: nat, j: nat)
    requires WfAtom(a) && !a.Group? && MatchAtom(a, x, i, j) && j <= Limit(x)
    ensures SimpleAtom(a) <==> j == i + 1
  {
  }

  // ---------------------------------------------------- outside the memory

  /** Who has left the memory matches all the rest. */
  lemma {:induction false} AtomGone(a: Atom, x: Subject)
    requires WfAtom(a)
    ensures MatchAtom(a, x, Gone(x), Gone(x))
    decreases a, 0, 0
  {
    if a.Group? {
      AltsGone(a.alts, x);
    }
  }

  lemma PieceGone(p: Piece, x: Subject)
    requires WfPiece(p)
    ensures MatchPiece(p, x, Gone(x), Gone(x))
    decreases p, 0, 0
  {
    hide MatchAtom;
    var y := Repeated(p.atom, x);
    AtomGone(p.atom, x);
    AtomGone(p.atom, y);
    assert MatchTimes(p.atom, 0, y, Gone(x), Gone(x));
    assert MatchTimes(p.atom, 1, y, Gone(x), Gone(x));
  }

  lemma {:induction false} PiecesGone(ps: seq<Piece>, x: Subject)
    requires WfPieces(ps)
    ensures MatchPieces(ps, x, Gone(x), Gone(x))
    decreases ps, 0, 0
  {
    hide MatchPiece;
    if |ps| > 0 {
      PieceGone(ps[0], x);
      PiecesGone(ps[1..], x);
      PiecesJoin(ps, x, Gone(x), Gone(x), Gone(x));
    }
  }

  lemma AltsGone(bs: seq<Branch>, x: Subject)
    requires WfAlts(bs) && |bs| > 0
    ensures MatchAlts(bs, x, Gone(x), Gone(x))
    decreases bs, 0, 0
  {
    hide MatchPieces;
    PiecesGone(bs[0].pieces, x);
  }
}
