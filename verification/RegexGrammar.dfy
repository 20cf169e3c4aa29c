/**
  The parser reads exactly what is written: printing the tree it builds gives the
  pattern back. The trees are well formed, and the errors the source calls
  impossible do not occur.
*/
module RegexGrammar {
  import opened RegexSyntax

  function ShowItem(it: ClassItem): seq<byte> {
    match it
    case Single(b) => [b]
    case UpTo(_, hi) => [HYPHEN, hi]
  }

  function ShowItems(items: seq<ClassItem>): seq<byte> {
    if |items| == 0 then [] else ShowItems(items[..|items| - 1]) + ShowItem(items[|items| - 1])
  }

  function ShowAtom(a: Atom): seq<byte>
    decreases a, 0
  {
    match a
    case Bol => [CARET]
    case Eol => [DOLLAR]
    case Any => [DOT]
    case Class(neg, items) => [LBRACK] + (if neg then [CARET] else []) + ShowItems(items) + [RBRACK]
    case Lit(text, escaped) => (if escaped then [BACKSLASH] else []) + text
    case Group(_, alts) => [LPAREN] + ShowAlts(alts) + [RPAREN]
  }

  function ShowMult(m: Mult): seq<byte> {
    match m
    case One => []
    case ZeroOrMore => [STAR]
    case OneOrMore => [PLUS]
    case ZeroOrOne => [QUERY]
  }

  function ShowPiece(p: Piece): seq<byte>
    decreases p, 0
  {
    ShowAtom(p.atom) + ShowMult(p.mult)
  }

  function ShowPieces(ps: seq<Piece>): seq<byte>
    decreases ps, 0
  {
    if |ps| == 0 then []
    else ShowPiece(ps[0]) + ShowPieces(ps[1..])
  }

  function ShowAlts(bs: seq<Branch>): seq<byte>
    decreases bs, 0
  {
    if |bs| == 0 then []
    else ShowPieces(bs[0].pieces) + if |bs| == 1 then [] else [BAR] + ShowAlts(bs[1..])
  }

  // ------------------------------------------------- canonical trees

  function GroupsAtom(a: Atom): nat
    decreases a, 0
  {
    if a.Group? then 1 + GroupsAlts(a.alts) else 0
  }

  function GroupsPiece(p: Piece): nat
    decreases p, 0
  {
    GroupsAtom(p.atom)
  }

  function GroupsPieces(ps: seq<Piece>): nat
    decreases ps, 0
  {
    if |ps| == 0 then 0 else GroupsPiece(ps[0]) + GroupsPieces(ps[1..])
  }

  function GroupsAlts(bs: seq<Branch>): nat
    decreases bs, 0
  {
    if |bs| == 0 then 0 else GroupsPieces(bs[0].pieces) + GroupsAlts(bs[1..])
  }

  /** The last byte an element of a bracket expression is written with. */
  function LastByte(it: ClassItem): byte {
    match it
    case Single(b) => b
    case UpTo(_, hi) => hi
  }

  /**
    A `]` stands for itself only in front, a `-` only in front or at the end, and a `^`
    not in front; a range starts at the byte before it.
  */
  ghost predicate CanonItem(items: seq<ClassItem>, k: nat, neg: bool)
    requires k < |items|
  {
    match items[k]
    case Single(b) =>
      if k == 0 then b == CARET ==> neg
      else b != RBRACK && (b == HYPHEN ==> k == |items| - 1)
    case UpTo(lo, hi) => k > 0 && lo == LastByte(items[k - 1]) && hi != RBRACK
  }

  /** Groups are numbered in the order of their `(`, from `n` on. */
  ghost predicate CanonAtom(a: Atom, n: nat)
    decreases a, 0
  {
    match a
    case Class(neg, items) => |items| > 0 && forall k :: 0 <= k < |items| ==> CanonItem(items, k, neg)
    case Lit(text, escaped) => escaped || forall k :: 0 <= k < |text| ==> !IsMeta(text[k])
    case Group(no, alts) => no == n && CanonAlts(alts, n + 1)
    case _ => true
  }

  ghost predicate CanonPiece(p: Piece, n: nat)
    decreases p, 0
  {
    CanonAtom(p.atom, n)
  }

  predicate PlainLit(p: Piece) {
    p.atom.Lit? && !p.atom.escaped
  }

  /** A run of ordinary bytes is one literal, except that a multiplier takes the last byte for itself. */
  ghost predicate Apart(p: Piece, q: Piece) {
    PlainLit(p) && PlainLit(q) ==> p.mult != One || q.mult != One
  }

  ghost predicate CanonPieces(ps: seq<Piece>, n: nat)
    decreases ps, 0
  {
    |ps| > 0 ==>
      && CanonPiece(ps[0], n)
      && (|ps| > 1 ==> Apart(ps[0], ps[1]))
      && CanonPieces(ps[1..], n + GroupsPiece(ps[0]))
  }

  ghost predicate CanonAlts(bs: seq<Branch>, n: nat)
    decreases bs, 0
  {
    |bs| > 0 ==> CanonPieces(bs[0].pieces, n) && CanonAlts(bs[1..], n + GroupsPieces(bs[0].pieces))
  }

  /** The trees that stand for patterns: each is the only one that is printed as it is. */
  ghost predicate Canonical(bs: seq<Branch>) {
    |bs| > 0 && WfAlts(bs) && CanonAlts(bs, 1)
  }

  // -------------------------------------------------- growing at the end

  lemma {:induction false} PiecesGrow(ps: seq<Piece>, q: Piece)
    ensures ShowPieces(ps + [q]) == ShowPieces(ps) + ShowPiece(q)
    ensures WfPieces(ps + [q]) <==> WfPieces(ps) && WfPiece(q)
  {
    hide ShowPiece, WfPiece;
    var all := ps + [q];
    if |ps| == 0 {
      assert all[1..] == [];
    } else {
      assert all[1..] == ps[1..] + [q];
      PiecesGrow(ps[1..], q);
    }
  }

  lemma {:induction false} AltsGrow(bs: seq<Branch>, b: Branch)
    requires |bs| > 0
    ensures ShowAlts(bs + [b]) == ShowAlts(bs) + ([BAR] + ShowPieces(b.pieces))
    ensures WfAlts(bs + [b]) <==> WfAlts(bs) && WfPieces(b.pieces)
  {
    hide ShowPieces, WfPieces;
    var all := bs + [b];
    assert all[1..] == bs[1..] + [b];
    if |bs| == 1 {
      assert bs[1..] + [b] == [b];
      OneBranch(b);
    } else {
      AltsGrow(bs[1..], b);
    }
  }

  lemma OneBranch(b: Branch)
    ensures ShowAlts([b]) == ShowPieces(b.pieces) && (WfAlts([b]) <==> WfPieces(b.pieces))
  {
    assert [b][1..] == [];
  }

  lemma ItemsGrow(items: seq<ClassItem>, it: ClassItem)
    ensures ShowItems(items + [it]) == ShowItems(items) + ShowItem(it)
  {
    assert (items + [it])[..|items|] == items;
  }

  // --------------------------------------------------------- the parser

  ghost predicate WfItems(items: seq<ClassItem>) {
    forall k :: 0 <= k < |items| ==> WfItem(items[k])
  }

  /** Text `p[pos..end]` extends what was read before by what is printed now. */
  ghost predicate Reads(p: seq<byte>, pos: nat, end: nat, before: seq<byte>, now: seq<byte>) {
    pos <= end <= |p| && now == before + p[pos..end]
  }

  lemma ReadsOn(p: seq<byte>, pos: nat, mid: nat, end: nat, a: seq<byte>, b: seq<byte>, c: seq<byte>)
    requires Reads(p, pos, mid, a, b) && Reads(p, mid, end, b, c)
    ensures Reads(p, pos, end, a, c)
  {
    assert p[pos..end] == p[pos..mid] + p[mid..end];
  }

  lemma {:induction false} ItemsRead(p: seq<byte>, pos: nat, done: seq<ClassItem>)
    requires CString(p) && 1 <= pos <= |p| && ParseItems(p, pos, done).Ok? && WfItems(done)
    ensures var r := ParseItems(p, pos, done);
      WfItems(r.value) && Reads(p, pos, r.pos, ShowItems(done), ShowItems(r.value) + [RBRACK])
    decreases |p| - pos
  {
    hide ShowItems;
    var r := ParseItems(p, pos, done);
    if p[pos] == RBRACK {
      assert p[pos..pos + 1] == [RBRACK];
    } else {
      var it := ParseItem(p, pos);
      ItemsGrow(done, it.value);
      ItemsRead(p, it.pos, done + [it.value]);
      assert Reads(p, pos, it.pos, ShowItems(done), ShowItems(done + [it.value]));
      ReadsOn(p, pos, it.pos, r.pos, ShowItems(done), ShowItems(done + [it.value]), ShowItems(r.value) + [RBRACK]);
    }
  }

  lemma ClassRead(p: seq<byte>, pos: nat, npar: nat)
    requires CString(p) && 1 <= pos <= |p| && p[pos - 1] == LBRACK && ParseClass(p, pos, npar).Ok?
    ensures var r := ParseClass(p, pos, npar); WfAtom(r.value) && Reads(p, pos - 1, r.pos, [], ShowAtom(r.value))
  {
    hide ParseItems, ShowItems, ClassStart, Peek, CString, WfItem;
    var neg := Peek(p, pos) == CARET;
    var done := ClassStart(p, pos);
    var mid := pos + (if neg then 1 else 0) + |done|;
    var r := ParseClass(p, pos, npar);
    ClassHead(p, pos);
    ItemsRead(p, mid, done);
    var head := [LBRACK] + if neg then [CARET] else [];
    var items := ShowItems(r.value.items);
    assert p[pos - 1..r.pos] == p[pos - 1..mid] + p[mid..r.pos];
    assert ShowAtom(r.value) == head + (items + [RBRACK]);
    assert head + (ShowItems(done) + p[mid..r.pos]) == (head + ShowItems(done)) + p[mid..r.pos];
  }

  /** The opening of a bracket expression: `[`, `^` where it complements, and a first `]` or `-`. */
  lemma ClassHead(p: seq<byte>, pos: nat)
    requires 1 <= pos <= |p| && p[pos - 1] == LBRACK
    ensures var neg, done := Peek(p, pos) == CARET, ClassStart(p, pos);
      && WfItems(done)
      && p[pos - 1..pos + (if neg then 1 else 0) + |done|] == [LBRACK] + (if neg then [CARET] else []) + ShowItems(done)
  {
    hide ShowItems;
    FirstItem(ClassStart(p, pos));
  }

  lemma FirstItem(done: seq<ClassItem>)
    requires |done| <= 1 && (|done| == 1 ==> done[0].Single?)
    ensures ShowItems(done) == if |done| == 1 then [done[0].b] else []
  {
  }

  lemma {:induction false} AtomRead(p: seq<byte>, pos: nat, npar: nat)
    requires CString(p) && pos <= |p| && npar > 0 && ParseAtom(p, pos, npar).Ok?
    ensures var r := ParseAtom(p, pos, npar); WfAtom(r.value) && Reads(p, pos, r.pos, [], ShowAtom(r.value))
    decreases |p| - pos, 0
  {
    hide ShowItems, ShowAlts, ParseItems, ParseClass, LitLen, CString, WfItem, IsMeta;
    var c := Peek(p, pos);
    var r := ParseAtom(p, pos, npar);
    if c == LBRACK {
      ClassRead(p, pos + 1, npar);
    } else if c == LPAREN {
      RegRead(p, pos + 1, npar, true);
      var g := ParseReg(p, pos + 1, npar, true);
      assert p[pos..g.pos] == [LPAREN] + p[pos + 1..g.pos];
      assert [LPAREN] + (ShowAlts(g.value) + [RPAREN]) == ShowAtom(r.value);
    } else {
      OneRead(p, pos, npar);
    }
  }

  /** An anchor, `.`, an escaped byte or a run of ordinary bytes. */
  lemma OneRead(p: seq<byte>, pos: nat, npar: nat)
    requires CString(p) && pos <= |p| && ParseAtom(p, pos, npar).Ok? && Peek(p, pos) != LBRACK && Peek(p, pos) != LPAREN
    ensures var r := ParseAtom(p, pos, npar); WfAtom(r.value) && Reads(p, pos, r.pos, [], ShowAtom(r.value))
  {
    hide ShowItems, ShowAlts, ParseItems, ParseReg, ParseClass;
    var c := Peek(p, pos);
    if c == BACKSLASH {
      assert p[pos..pos + 2] == [BACKSLASH, p[pos + 1]];
    } else if c == CARET || c == DOLLAR || c == DOT {
      assert p[pos..pos + 1] == [c];
    }
  }

  lemma {:induction false} PieceRead(p: seq<byte>, pos: nat, npar: nat)
    requires CString(p) && pos <= |p| && npar > 0 && ParsePiece(p, pos, npar).Ok?
    ensures var r := ParsePiece(p, pos, npar);
      WfPiece(r.value) && Reads(p, pos, r.pos, [], ShowPiece(r.value))
    decreases |p| - pos, 1
  {
    hide ShowAtom, WideAtom;
    var a := ParseAtom(p, pos, npar);
    var r := ParsePiece(p, pos, npar);
    AtomRead(p, pos, npar);
    if IsMult(Peek(p, a.pos)) {
      assert p[pos..a.pos + 1] == p[pos..a.pos] + [p[a.pos]];
      LiteralAlone(p, pos, npar);
    }
  }

  /** A multiplier never applies to a longer run: its last byte was left for it. */
  lemma LiteralAlone(p: seq<byte>, pos: nat, npar: nat)
    requires pos <= |p| && ParseAtom(p, pos, npar).Ok? && IsMult(Peek(p, ParseAtom(p, pos, npar).pos))
    ensures ParseAtom(p, pos, npar).value.Lit? ==> SimpleAtom(ParseAtom(p, pos, npar).value)
  {
  }

  lemma {:induction false} BranchRead(p: seq<byte>, pos: nat, npar: nat, done: seq<Piece>)
    requires CString(p) && pos <= |p| && npar > 0 && ParseBranch(p, pos, npar, done).Ok? && WfPieces(done)
    ensures var r := ParseBranch(p, pos, npar, done);
      WfPieces(r.value) && Reads(p, pos, r.pos, ShowPieces(done), ShowPieces(r.value))
    decreases |p| - pos, 2
  {
    hide ShowPieces, WfPieces, WfPiece, ShowPiece;
    if !EndsBranch(Peek(p, pos)) {
      var q := ParsePiece(p, pos, npar);
      PieceRead(p, pos, npar);
      PiecesGrow(done, q.value);
      var r := ParseBranch(p, pos, npar, done);
      BranchRead(p, q.pos, q.npar, done + [q.value]);
      ReadsOn(p, pos, q.pos, r.pos, ShowPieces(done), ShowPieces(done + [q.value]), ShowPieces(r.value));
    }
  }

  lemma {:induction false} MoreRead(p: seq<byte>, pos: nat, npar: nat, done: seq<Branch>)
    requires CString(p) && pos <= |p| && npar > 0 && |done| > 0 && ParseMore(p, pos, npar, done).Ok? && WfAlts(done)
    ensures var r := ParseMore(p, pos, npar, done);
      WfAlts(r.value) && Reads(p, pos, r.pos, ShowAlts(done), ShowAlts(r.value))
    decreases |p| - pos, 3
  {
    hide ShowPieces, ShowAlts, WfPieces, WfAlts;
    if Peek(p, pos) == BAR {
      var b := ParseBranch(p, pos + 1, npar, []);
      NoPiecesShown();
      BranchRead(p, pos + 1, npar, []);
      AltsGrow(done, Branch(b.value));
      var r := ParseMore(p, pos, npar, done);
      MoreRead(p, b.pos, b.npar, done + [Branch(b.value)]);
      assert p[pos..b.pos] == [BAR] + p[pos + 1..b.pos];
      ReadsOn(p, pos, b.pos, r.pos, ShowAlts(done), ShowAlts(done + [Branch(b.value)]), ShowAlts(r.value));
    }
  }

  lemma NoPiecesShown()
    ensures ShowPieces([]) == [] && WfPieces([])
  {
  }

  lemma {:induction false} RegRead(p: seq<byte>, pos: nat, npar: nat, paren: bool)
    requires CString(p) && pos <= |p| && npar > 0 && ParseReg(p, pos, npar, paren).Ok?
    ensures var r := ParseReg(p, pos, npar, paren);
      WfAlts(r.value) && |r.value| > 0 && Reads(p, pos, r.pos, [], ShowAlts(r.value) + if paren then [RPAREN] else [])
    decreases |p| - pos, 4
  {
    hide ShowPieces, ShowAlts, WfPieces, WfAlts, ParseMore, ParseBranch;
    var npar1 := if paren then npar + 1 else npar;
    var b := ParseBranch(p, pos, npar1, []);
    NoPiecesShown();
    BranchRead(p, pos, npar1, []);
    OneBranch(Branch(b.value));
    var r := ParseMore(p, b.pos, b.npar, [Branch(b.value)]);
    MoreRead(p, b.pos, b.npar, [Branch(b.value)]);
    ReadsOn(p, pos, b.pos, r.pos, [], ShowAlts([Branch(b.value)]), ShowAlts(r.value));
    if paren {
      assert p[pos..r.pos + 1] == p[pos..r.pos] + [RPAREN];
    }
  }

  /** An accepted pattern is the printed form of its tree, and the tree is well formed. */
  lemma ParseReadsAll(p: seq<byte>)
    requires CString(p) && Parse(p).Ok?
    ensures var bs := Parse(p).value; |bs| > 0 && WfAlts(bs) && ShowAlts(bs) == p
  {
    hide ShowAlts, WfAlts;
    RegRead(p, 0, 1, false);
    var r := Parse(p);
    assert r.pos == |p| by { EndOfString(p, r.pos); }
    assert p[0..|p|] == p && ShowAlts(r.value) + [] == ShowAlts(r.value);
  }

  lemma EndOfString(p: seq<byte>, pos: nat)
    requires CString(p) && pos <= |p| && Peek(p, pos) == 0
    ensures pos == |p|
  {
  }

  // ------------------------------------ the errors that cannot happen

  lemma {:induction false} PieceError(p: seq<byte>, pos: nat, npar: nat)
    requires CString(p) && pos <= |p| && !EndsBranch(Peek(p, pos)) && ParsePiece(p, pos, npar).Err?
    ensures ParsePiece(p, pos, npar).error !in {InternalUrp, JunkOnEnd}
    decreases |p| - pos, 1
  {
    hide WideAtom;
    if Peek(p, pos) == LPAREN && ParseReg(p, pos + 1, npar, true).Err? {
      RegError(p, pos + 1, npar, true);
    } else if Peek(p, pos) == LBRACK && ParseClass(p, pos + 1, npar).Err? {
      ClassError(p, pos + 1, npar);
    }
  }

  lemma ClassError(p: seq<byte>, pos: nat, npar: nat)
    requires 1 <= pos <= |p| && ParseClass(p, pos, npar).Err?
    ensures ParseClass(p, pos, npar).error in {InvalidRange, UnmatchedBracket}
  {
    var done := ClassStart(p, pos);
    ItemsError(p, pos + (if Peek(p, pos) == CARET then 1 else 0) + |done|, done);
  }

  lemma {:induction false} ItemsError(p: seq<byte>, pos: nat, done: seq<ClassItem>)
    requires 1 <= pos <= |p| && ParseItems(p, pos, done).Err?
    ensures ParseItems(p, pos, done).error in {InvalidRange, UnmatchedBracket}
    decreases |p| - pos
  {
    if pos < |p| && ParseItem(p, pos).Ok? {
      var it := ParseItem(p, pos);
      ItemsError(p, it.pos, done + [it.value]);
    }
  }

  lemma {:induction false} BranchError(p: seq<byte>, pos: nat, npar: nat, done: seq<Piece>)
    requires CString(p) && pos <= |p| && ParseBranch(p, pos, npar, done).Err?
    ensures ParseBranch(p, pos, npar, done).error !in {InternalUrp, JunkOnEnd}
    decreases |p| - pos, 2
  {
    var r := ParsePiece(p, pos, npar);
    if r.Err? {
      PieceError(p, pos, npar);
    } else {
      BranchError(p, r.pos, r.npar, done + [r.value]);
    }
  }

  lemma {:induction false} MoreError(p: seq<byte>, pos: nat, npar: nat, done: seq<Branch>)
    requires CString(p) && pos <= |p| && EndsBranch(Peek(p, pos))
    ensures var r := ParseMore(p, pos, npar, done);
      if r.Err? then r.error !in {InternalUrp, JunkOnEnd} else Peek(p, r.pos) == 0 || Peek(p, r.pos) == RPAREN
    decreases |p| - pos, 3
  {
    if Peek(p, pos) == BAR {
      var b := ParseBranch(p, pos + 1, npar, []);
      if b.Err? {
        BranchError(p, pos + 1, npar, []);
      } else {
        MoreError(p, b.pos, b.npar, done + [Branch(b.value)]);
      }
    }
  }

  /** The errors the source marks as impossible never arise. */
  lemma {:induction false} RegError(p: seq<byte>, pos: nat, npar: nat, paren: bool)
    requires CString(p) && pos <= |p| && ParseReg(p, pos, npar, paren).Err?
    ensures ParseReg(p, pos, npar, paren).error !in {InternalUrp, JunkOnEnd}
    decreases |p| - pos, 4
  {
    if !(paren && npar >= NSUBEXP) {
      var b := ParseBranch(p, pos, if paren then npar + 1 else npar, []);
      if b.Err? {
        BranchError(p, pos, if paren then npar + 1 else npar, []);
      } else {
        MoreError(p, b.pos, b.npar, [Branch(b.value)]);
      }
    }
  }
}
