/**
  A pattern has exactly one canonical tree, and the parser finds it: what the parser
  builds is canonical, and parsing a printed canonical tree gives the tree back.
*/
module RegexCanonical {
  import opened RegexSyntax
  import opened RegexGrammar

  /** `s` stands in `p` at `pos`. */
  ghost predicate Stands(p: seq<byte>, pos: nat, s: seq<byte>) {
    pos + |s| <= |p| && p[pos..pos + |s|] == s
  }

  lemma StandsSplit(p: seq<byte>, pos: nat, s: seq<byte>, t: seq<byte>)
    requires Stands(p, pos, s + t)
    ensures Stands(p, pos, s) && Stands(p, pos + |s|, t)
  {
    var w := p[pos..pos + |s + t|];
    assert p[pos..pos + |s|] == w[..|s|] && p[pos + |s|..pos + |s| + |t|] == w[|s|..];
  }

  lemma StandsAt(p: seq<byte>, pos: nat, s: seq<byte>, k: nat)
    requires Stands(p, pos, s) && k < |s|
    ensures pos + k < |p| && p[pos + k] == s[k]
  {
    assert p[pos..pos + |s|][k] == p[pos + k];
  }

  // ------------------------------------- parsing what has been printed

  lemma PlainRunIs(p: seq<byte>, pos: nat, n: nat)
    requires pos + n <= |p| && forall k :: pos <= k < pos + n ==> !IsMeta(p[k])
    requires pos + n < |p| ==> IsMeta(p[pos + n])
    ensures PlainRun(p, pos) == n
  {
  }

  lemma {:induction false} ShowItemsJoin(xs: seq<ClassItem>, ys: seq<ClassItem>)
    ensures ShowItems(xs + ys) == ShowItems(xs) + ShowItems(ys)
    decreases |ys|
  {
    hide ShowItems, ShowItem;
    if |ys| == 0 {
      NoItems(ys);
      assert xs + ys == xs;
    } else {
      var init, last := ys[..|ys| - 1], ys[|ys| - 1];
      ItemsGrow(xs + init, last);
      ItemsGrow(init, last);
      ShowItemsJoin(xs, init);
      assert xs + ys == (xs + init) + [last] && ys == init + [last];
    }
  }

  /** Parsing the elements from the `k`-th on. */
  lemma {:induction false} ItemsParse(p: seq<byte>, pos: nat, items: seq<ClassItem>, k: nat, neg: bool)
    requires 0 < k <= |items| && 1 <= pos && WfItems(items)
    requires forall j :: 0 <= j < |items| ==> CanonItem(items, j, neg)
    requires Stands(p, pos, ShowItems(items[k..]) + [RBRACK])
    requires pos <= |p| && p[pos - 1] == LastByte(items[k - 1])
    ensures ParseItems(p, pos, items[..k]) == Ok(items, pos + |ShowItems(items[k..])| + 1, 0)
    decreases |items| - k
  {
    hide ShowItems, ShowItem, CanonItem, WfItem, Stands, LastByte, ParseItems, ParseItem;
    if k == |items| {
      assert items[..k] == items;
      NoItems(items[k..]);
      StandsAt(p, pos, [RBRACK], 0);
      ItemsEnd(p, pos, items);
    } else {
      var it, next := items[k], pos + |ShowItem(items[k])|;
      ItemsFrom(items, k);
      StandsSplit(p, pos, ShowItem(it), ShowItems(items[k + 1..]) + [RBRACK]);
      if k == |items| - 1 { NoItems(items[k + 1..]); }
      ItemParses(p, pos, items, k, neg);
      ItemsParse(p, next, items, k + 1, neg);
      assert items[..k] + [it] == items[..k + 1];
      ItemsStep(p, pos, items[..k], it, next);
    }
  }

  lemma ItemsEnd(p: seq<byte>, pos: nat, done: seq<ClassItem>)
    requires 1 <= pos < |p| && p[pos] == RBRACK
    ensures ParseItems(p, pos, done) == Ok(done, pos + 1, 0)
  {
  }

  lemma ItemsStep(p: seq<byte>, pos: nat, done: seq<ClassItem>, it: ClassItem, next: nat)
    requires 1 <= pos < |p| && p[pos] != RBRACK && next <= |p| && ParseItem(p, pos) == Ok(it, next, 0)
    ensures ParseItems(p, pos, done) == ParseItems(p, next, done + [it])
  {
    hide ParseItem;
  }

  lemma ItemsFrom(items: seq<ClassItem>, k: nat)
    requires k < |items|
    ensures ShowItems(items[k..]) == ShowItem(items[k]) + ShowItems(items[k + 1..])
    ensures ShowItems(items[k..]) + [RBRACK] == ShowItem(items[k]) + (ShowItems(items[k + 1..]) + [RBRACK])
  {
    hide ShowItems, ShowItem;
    OneItem(items[k]);
    ShowItemsJoin([items[k]], items[k + 1..]);
    assert items[k..] == [items[k]] + items[k + 1..];
  }

  lemma NoItems(items: seq<ClassItem>)
    requires items == []
    ensures ShowItems(items) == [] && ShowItems(items) + [RBRACK] == [RBRACK]
  {
  }

  lemma OneItem(it: ClassItem)
    ensures ShowItems([it]) == ShowItem(it)
  {
    assert [it] == [] + [it];
    ItemsGrow([], it);
  }

  lemma ItemParses(p: seq<byte>, pos: nat, items: seq<ClassItem>, k: nat, neg: bool)
    requires 0 < k < |items| && 1 <= pos && WfItems(items) && CanonItem(items, k, neg)
    requires Stands(p, pos, ShowItem(items[k]))
    requires k == |items| - 1 ==> Stands(p, pos + |ShowItem(items[k])|, [RBRACK])
    requires pos <= |p| && p[pos - 1] == LastByte(items[k - 1])
    ensures pos < |p| && p[pos] != RBRACK && ParseItem(p, pos) == Ok(items[k], pos + |ShowItem(items[k])|, 0)
    ensures p[pos + |ShowItem(items[k])| - 1] == LastByte(items[k])
  {
    var it := items[k];
    StandsAt(p, pos, ShowItem(it), 0);
    if it.UpTo? {
      StandsAt(p, pos, ShowItem(it), 1);
    } else if it.b == HYPHEN {
      StandsAt(p, pos + 1, [RBRACK], 0);
    }
  }

  lemma ClassParses(p: seq<byte>, pos: nat, npar: nat, neg: bool, items: seq<ClassItem>)
    requires WfItems(items) && CanonAtom(Class(neg, items), npar)
    requires Stands(p, pos, ShowAtom(Class(neg, items)))
    ensures pos + 1 <= |p|
    ensures ParseClass(p, pos + 1, npar) == Ok(Class(neg, items), pos + |ShowAtom(Class(neg, items))|, npar)
  {
    hide ShowItems, ParseItems, Stands, WfItem;
    var head := [LBRACK] + if neg then [CARET] else [];
    var inner := ShowItems(items) + [RBRACK];
    assert ShowAtom(Class(neg, items)) == head + inner;
    StandsSplit(p, pos, head, inner);
    StandsAt(p, pos, head, 0);
    if neg { StandsAt(p, pos, head, 1); }
    ClassBegins(p, pos + |head|, neg, items);
    assert CanonItem(items, 0, neg);
    var k := if items[0].b == RBRACK || items[0].b == HYPHEN then 1 else 0;
    assert items[..k] == if k == 1 then [Single(items[0].b)] else [];
    assert Peek(p, pos + 1) == CARET <==> neg;
  }

  /** The elements behind the opening, of which a first `]` or `-` is read apart. */
  lemma ClassBegins(p: seq<byte>, pos: nat, neg: bool, items: seq<ClassItem>)
    requires WfItems(items) && |items| > 0 && forall j :: 0 <= j < |items| ==> CanonItem(items, j, neg)
    requires 1 <= pos && Stands(p, pos, ShowItems(items) + [RBRACK])
    ensures pos < |p| && items[0].Single? && p[pos] == items[0].b
    ensures var k := if items[0].b == RBRACK || items[0].b == HYPHEN then 1 else 0;
      ParseItems(p, pos + k, items[..k]) == Ok(items, pos + |ShowItems(items)| + 1, 0)
  {
    hide ShowItems, ParseItems;
    assert CanonItem(items, 0, neg);
    var b := items[0].b;
    ItemsFrom(items, 0);
    assert items[0..] == items;
    StandsAt(p, pos, ShowItem(items[0]) + (ShowItems(items[1..]) + [RBRACK]), 0);
    StandsSplit(p, pos, ShowItem(items[0]), ShowItems(items[1..]) + [RBRACK]);
    hide Stands, CanonItem, WfItem;
    assert items[..1] == [items[0]];
    ItemsParse(p, pos + 1, items, 1, neg);
    if b != RBRACK && b != HYPHEN {
      FirstParses(p, pos, items[0], items[..1]);
      assert items[..0] == [] && [] + [items[0]] == items[..1];
    }
  }

  lemma FirstParses(p: seq<byte>, pos: nat, it: ClassItem, done: seq<ClassItem>)
    requires 1 <= pos < |p| && it == Single(p[pos]) && p[pos] != RBRACK && p[pos] != HYPHEN && done == [it]
    ensures ParseItems(p, pos, []) == ParseItems(p, pos + 1, done)
  {
    assert [] + [it] == done;
  }

  /** What must follow a literal for it to be read as one. */
  ghost predicate Ends(p: seq<byte>, pos: nat, a: Atom) {
    a.Lit? && !a.escaped ==> pos <= |p| && LitLen(p, pos) == |a.text|
  }

  lemma ClassAtomParses(p: seq<byte>, pos: nat, npar: nat, neg: bool, items: seq<ClassItem>)
    requires WfAtom(Class(neg, items)) && CanonAtom(Class(neg, items), npar) && Stands(p, pos, ShowAtom(Class(neg, items)))
    ensures pos <= |p|
    ensures ParseAtom(p, pos, npar) == Ok(Class(neg, items), pos + |ShowAtom(Class(neg, items))|, npar + GroupsAtom(Class(neg, items)))
  {
    hide ShowItems, ParseClass, LitLen, CanonItem, WfItem, Stands;
    StandsAt(p, pos, ShowAtom(Class(neg, items)), 0);
    ClassParses(p, pos, npar, neg, items);
  }

  lemma GroupShown(p: seq<byte>, pos: nat, npar: nat, no: nat, alts: seq<Branch>)
    requires WfAtom(Group(no, alts)) && CanonAtom(Group(no, alts), npar) && Stands(p, pos, ShowAtom(Group(no, alts)))
    ensures pos < |p| && p[pos] == LPAREN && |ShowAtom(Group(no, alts))| == |ShowAlts(alts)| + 2
    ensures |alts| > 0 && WfAlts(alts) && CanonAlts(alts, npar + 1) && no == npar < NSUBEXP
    ensures Stands(p, pos + 1, ShowAlts(alts)) && Peek(p, pos + 1 + |ShowAlts(alts)|) == RPAREN
  {
    hide ShowAlts, Stands, WfAlts, CanonAlts;
    var s := ShowAlts(alts);
    assert ShowAtom(Group(no, alts)) == [LPAREN] + (s + [RPAREN]);
    StandsSplit(p, pos, [LPAREN], s + [RPAREN]);
    StandsAt(p, pos, [LPAREN], 0);
    StandsSplit(p, pos + 1, s, [RPAREN]);
    StandsAt(p, pos + 1 + |s|, [RPAREN], 0);
  }

  lemma GroupParses(p: seq<byte>, pos: nat, npar: nat, no: nat, alts: seq<Branch>)
    requires pos < |p| && p[pos] == LPAREN && no == npar && |ShowAtom(Group(no, alts))| == |ShowAlts(alts)| + 2
    requires ParseReg(p, pos + 1, npar, true) == Ok(alts, pos + 1 + |ShowAlts(alts)| + 1, npar + 1 + GroupsAlts(alts))
    ensures ParseAtom(p, pos, npar) == Ok(Group(no, alts), pos + |ShowAtom(Group(no, alts))|, npar + GroupsAtom(Group(no, alts)))
  {
    hide ShowAtom, ShowAlts, ParseReg, ParseClass, LitLen, GroupsAlts;
  }

  lemma AnchorParses(p: seq<byte>, pos: nat, npar: nat, a: Atom)
    requires (a.Bol? || a.Eol? || a.Any?) && Stands(p, pos, ShowAtom(a))
    ensures pos <= |p| && ParseAtom(p, pos, npar) == Ok(a, pos + |ShowAtom(a)|, npar + GroupsAtom(a))
  {
    hide ParseReg, ParseClass, LitLen;
    StandsAt(p, pos, ShowAtom(a), 0);
  }

  lemma NoGroups(a: Atom)
    requires a.Lit?
    ensures GroupsAtom(a) == 0
  {
  }

  lemma {:induction false} AtomParses(a: Atom, p: seq<byte>, pos: nat, npar: nat)
    requires CString(p) && WfAtom(a) && CanonAtom(a, npar) && npar > 0
    requires Stands(p, pos, ShowAtom(a)) && Ends(p, pos, a)
    ensures pos <= |p| && ParseAtom(p, pos, npar) == Ok(a, pos + |ShowAtom(a)|, npar + GroupsAtom(a))
    decreases a, 0
  {
    hide *;
    match a {
      case Class(neg, items) => ClassAtomParses(p, pos, npar, neg, items);
      case Group(no, alts) =>
        GroupShown(p, pos, npar, no, alts);
        RegParses(alts, p, pos + 1, npar, true);
        GroupParses(p, pos, npar, no, alts);
      case Lit(text, escaped) =>
        LitParses(p, pos, npar, text, escaped);
        NoGroups(a);
      case _ => AnchorParses(p, pos, npar, a);
    }
  }

  lemma LitParses(p: seq<byte>, pos: nat, npar: nat, text: seq<byte>, escaped: bool)
    requires WfAtom(Lit(text, escaped)) && CanonAtom(Lit(text, escaped), npar)
    requires Stands(p, pos, ShowAtom(Lit(text, escaped))) && Ends(p, pos, Lit(text, escaped))
    ensures pos <= |p| && ParseAtom(p, pos, npar) == Ok(Lit(text, escaped), pos + |ShowAtom(Lit(text, escaped))|, npar)
  {
    hide LitLen, ParseClass, ParseReg;
    var s := ShowAtom(Lit(text, escaped));
    StandsAt(p, pos, s, 0);
    if escaped {
      StandsAt(p, pos, s, 1);
      assert [p[pos + 1]] == text;
    } else {
      assert !IsMeta(text[0]);
      assert s == text;
    }
  }

  lemma {:induction false} PieceParses(q: Piece, p: seq<byte>, pos: nat, npar: nat)
    requires CString(p) && WfPiece(q) && CanonPiece(q, npar) && npar > 0
    requires Stands(p, pos, ShowPiece(q)) && Ends(p, pos, q.atom)
    requires !IsMult(Peek(p, pos + |ShowPiece(q)|))
    ensures pos <= |p| && ParsePiece(p, pos, npar) == Ok(q, pos + |ShowPiece(q)|, npar + GroupsPiece(q))
    decreases q, 0
  {
    hide ShowAtom, WideAtom, ParseAtom, Ends, WfAtom;
    StandsSplit(p, pos, ShowAtom(q.atom), ShowMult(q.mult));
    AtomParses(q.atom, p, pos, npar);
    if q.mult != One {
      StandsAt(p, pos + |ShowAtom(q.atom)|, ShowMult(q.mult), 0);
    }
  }

  /** A piece starts with a byte that neither ends a branch nor repeats what is before it. */
  lemma PieceStarts(q: Piece, n: nat)
    requires WfPiece(q) && CanonPiece(q, n)
    ensures var s := ShowPiece(q); |s| > 0 && !EndsBranch(s[0]) && !IsMult(s[0]) && (PlainLit(q) <==> !IsMeta(s[0]))
  {
    hide ShowAlts, ShowItems, WfAlts, CanonAlts, WfItem, CanonItem;
    if PlainLit(q) {
      assert ShowAtom(q.atom)[0] == q.atom.text[0];
    }
  }

  /** A literal ends where the printed pieces say it ends. */
  lemma LitEnds(ps: seq<Piece>, p: seq<byte>, pos: nat, n: nat)
    requires |ps| > 0 && WfPieces(ps) && CanonPieces(ps, n) && CString(p)
    requires Stands(p, pos, ShowPieces(ps)) && EndsBranch(Peek(p, pos + |ShowPieces(ps)|))
    ensures Ends(p, pos, ps[0].atom)
    ensures !IsMult(Peek(p, pos + |ShowPiece(ps[0])|))
  {
    hide ShowPieces, CanonPieces, WfPieces, CanonPiece, WfPiece, ShowPiece, PlainRun, IsMeta;
    var q, end := ps[0], pos + |ShowPiece(ps[0])|;
    PiecesFirst(ps, n);
    StandsSplit(p, pos, ShowPiece(q), ShowPieces(ps[1..]));
    MetaBytes();
    if |ps| == 1 {
      assert ShowPieces(ps[1..]) == [] by { assert ps[1..] == []; NoPiecesShown(); }
      assert EndsBranch(Peek(p, end));
    } else {
      var r := ps[1];
      PiecesFirst(ps[1..], n + GroupsPiece(q));
      StandsSplit(p, end, ShowPiece(r), ShowPieces(ps[1..][1..]));
      PieceStarts(r, n + GroupsPiece(q));
      StandsAt(p, end, ShowPiece(r), 0);
    }
    if PlainLit(q) {
      LitEnd(ps, p, pos, n);
    }
  }

  lemma MetaBytes()
    ensures forall b: byte :: IsMult(b) || (EndsBranch(b) && b != 0) ==> IsMeta(b)
  {
  }

  lemma PiecesFirst(ps: seq<Piece>, n: nat)
    requires |ps| > 0 && WfPieces(ps) && CanonPieces(ps, n)
    ensures ShowPieces(ps) == ShowPiece(ps[0]) + ShowPieces(ps[1..])
    ensures WfPiece(ps[0]) && WfPieces(ps[1..]) && CanonPiece(ps[0], n) && CanonPieces(ps[1..], n + GroupsPiece(ps[0]))
    ensures |ps| > 1 ==> Apart(ps[0], ps[1])
    ensures GroupsPieces(ps) == GroupsPiece(ps[0]) + GroupsPieces(ps[1..])
  {
    hide ShowPiece, WfPiece, CanonPiece, GroupsPiece;
  }

  /** The length of the run of ordinary bytes at a literal piece. */
  lemma LitEnd(ps: seq<Piece>, p: seq<byte>, pos: nat, n: nat)
    requires |ps| > 0 && WfPieces(ps) && CanonPieces(ps, n) && PlainLit(ps[0]) && CString(p)
    requires Stands(p, pos, ShowPieces(ps)) && EndsBranch(Peek(p, pos + |ShowPieces(ps)|))
    ensures pos <= |p| && LitLen(p, pos) == |ps[0].atom.text|
  {
    hide ShowPieces, CanonPieces, WfPieces, CanonPiece, WfPiece, ShowPiece, IsMeta, IsMult, EndsBranch, Stands, LitLen;
    var q := ps[0];
    PiecesFirst(ps, n);
    StandsSplit(p, pos, ShowPiece(q), ShowPieces(ps[1..]));
    LitShown(q, p, pos, n);
    if q.mult != One {
      LitLenIs(p, pos, |q.atom.text|);
    } else if |ps| == 1 {
      assert ps[1..] == [];
      NoPiecesShown();
      LitLenIs(p, pos, |q.atom.text|);
    } else {
      var r, end := ps[1], pos + |q.atom.text|;
      PiecesFirst(ps[1..], n + GroupsPiece(q));
      StandsSplit(p, end, ShowPiece(r), ShowPieces(ps[1..][1..]));
      PieceStarts(r, n + GroupsPiece(q));
      StandsAt(p, end, ShowPiece(r), 0);
      if PlainLit(r) {
        LitShown(r, p, end, n + GroupsPiece(q));
      }
      LitLenIs(p, pos, |q.atom.text|);
    }
  }

  /** A run of `n` ordinary bytes is read as one literal in each of these surroundings. */
  lemma LitLenIs(p: seq<byte>, pos: nat, n: nat)
    requires 0 < n && pos + n <= |p| && (forall k :: pos <= k < pos + n ==> !IsMeta(p[k])) && CString(p)
    requires var b := Peek(p, pos + n);
      || (IsMult(b) && n == 1)
      || EndsBranch(b)
      || (pos + n < |p| && IsMeta(b) && !IsMult(b))
      || (pos + n + 1 < |p| && !IsMeta(b) && IsMult(p[pos + n + 1]))
    ensures LitLen(p, pos) == n
  {
    hide IsMeta, IsMult, EndsBranch, CString;
    MetaBytes();
    var b := Peek(p, pos + n);
    if pos + n < |p| && !IsMeta(b) {
      NotNul(p, pos + n);
      PlainRunIs(p, pos, n + 1);
    } else {
      PlainRunIs(p, pos, n);
      if EndsBranch(b) { EndNoMult(b); }
    }
  }

  lemma NotNul(p: seq<byte>, k: nat)
    requires CString(p) && k < |p|
    ensures p[k] != 0
  {
  }

  lemma EndNoMult(b: byte)
    requires EndsBranch(b)
    ensures !IsMult(b)
  {
  }

  lemma LitText(a: Atom, n: nat)
    requires a.Lit? && !a.escaped && WfAtom(a) && CanonAtom(a, n)
    ensures ShowAtom(a) == a.text && |a.text| > 0 && forall k :: 0 <= k < |a.text| ==> !IsMeta(a.text[k])
  {
    hide IsMeta;
  }

  /** A literal piece: its ordinary bytes, and the multiplier behind them if it has one. */
  lemma LitShown(q: Piece, p: seq<byte>, pos: nat, n: nat)
    requires WfPiece(q) && CanonPiece(q, n) && PlainLit(q) && Stands(p, pos, ShowPiece(q))
    ensures var len := |q.atom.text|;
      && 0 < len && pos + len <= |p| && (forall k :: pos <= k < pos + len ==> !IsMeta(p[k]))
      && (q.mult == One ==> |ShowPiece(q)| == len)
      && (q.mult != One ==> len == 1 && pos + 1 < |p| && IsMult(p[pos + 1]))
  {
    hide IsMeta, Stands, CanonAtom, ShowAtom;
    var text := q.atom.text;
    StandsSplit(p, pos, ShowAtom(q.atom), ShowMult(q.mult));
    LitText(q.atom, n);
    forall k | pos <= k < pos + |text| ensures !IsMeta(p[k]) {
      StandsAt(p, pos, text, k - pos);
    }
    if q.mult != One {
      StandsAt(p, pos + |text|, ShowMult(q.mult), 0);
    }
  }

  lemma {:induction false} PiecesParse(ps: seq<Piece>, p: seq<byte>, pos: nat, npar: nat, done: seq<Piece>)
    requires CString(p) && WfPieces(ps) && CanonPieces(ps, npar) && npar > 0
    requires Stands(p, pos, ShowPieces(ps)) && EndsBranch(Peek(p, pos + |ShowPieces(ps)|))
    ensures pos <= |p|
    ensures ParseBranch(p, pos, npar, done) == Ok(done + ps, pos + |ShowPieces(ps)|, npar + GroupsPieces(ps))
    decreases ps, 0
  {
    hide ShowPieces, CanonPieces, WfPieces, CanonPiece, WfPiece, ShowPiece, Ends, ParseBranch, ParsePiece, Stands,
      EndsBranch, GroupsPiece, GroupsPieces, IsMult, CString;
    if |ps| == 0 {
      NoPiecesParse(ps, p, pos, npar, done);
    } else {
      PiecesFirst(ps, npar);
      StandsSplit(p, pos, ShowPiece(ps[0]), ShowPieces(ps[1..]));
      LitEnds(ps, p, pos, npar);
      PieceParses(ps[0], p, pos, npar);
      PieceStarts(ps[0], npar);
      StandsAt(p, pos, ShowPiece(ps[0]), 0);
      PiecesParse(ps[1..], p, pos + |ShowPiece(ps[0])|, npar + GroupsPiece(ps[0]), done + [ps[0]]);
      assert done + [ps[0]] + ps[1..] == done + ps;
      BranchStep(p, pos, npar, done, ps[0], pos + |ShowPiece(ps[0])|, npar + GroupsPiece(ps[0]));
    }
  }

  lemma NoPiecesParse(ps: seq<Piece>, p: seq<byte>, pos: nat, npar: nat, done: seq<Piece>)
    requires ps == [] && Stands(p, pos, ShowPieces(ps)) && EndsBranch(Peek(p, pos + |ShowPieces(ps)|))
    ensures pos <= |p|
    ensures ParseBranch(p, pos, npar, done) == Ok(done + ps, pos + |ShowPieces(ps)|, npar + GroupsPieces(ps))
  {
    assert done + ps == done;
  }

  lemma BranchStep(p: seq<byte>, pos: nat, npar: nat, done: seq<Piece>, q: Piece, next: nat, npar': nat)
    requires pos < |p| && !EndsBranch(Peek(p, pos)) && ParsePiece(p, pos, npar) == Ok(q, next, npar') && next <= |p|
    ensures ParseBranch(p, pos, npar, done) == ParseBranch(p, next, npar', done + [q])
  {
    hide ParsePiece, EndsBranch;
  }

  function ShowMore(bs: seq<Branch>): seq<byte> {
    if |bs| == 0 then [] else [BAR] + ShowAlts(bs)
  }

  lemma AltsFirst(bs: seq<Branch>, n: nat)
    requires |bs| > 0 && WfAlts(bs) && CanonAlts(bs, n)
    ensures ShowAlts(bs) == ShowPieces(bs[0].pieces) + ShowMore(bs[1..])
    ensures WfPieces(bs[0].pieces) && WfAlts(bs[1..])
    ensures CanonPieces(bs[0].pieces, n) && CanonAlts(bs[1..], n + GroupsPieces(bs[0].pieces))
    ensures GroupsAlts(bs) == GroupsPieces(bs[0].pieces) + GroupsAlts(bs[1..])
  {
    hide ShowPieces, WfPieces, CanonPieces, GroupsPieces;
  }

  /** What may stand behind the alternatives. */
  predicate Closes(b: byte) {
    b == 0 || b == RPAREN
  }

  lemma MoreStarts(bs: seq<Branch>, p: seq<byte>, pos: nat)
    requires Stands(p, pos, ShowMore(bs)) && Closes(Peek(p, pos + |ShowMore(bs)|))
    ensures EndsBranch(Peek(p, pos))
  {
    hide ShowAlts;
    if |bs| > 0 {
      StandsAt(p, pos, ShowMore(bs), 0);
    }
  }

  lemma {:induction false} MoreParses(bs: seq<Branch>, p: seq<byte>, pos: nat, npar: nat, done: seq<Branch>)
    requires CString(p) && WfAlts(bs) && CanonAlts(bs, npar) && npar > 0
    requires Stands(p, pos, ShowMore(bs)) && Closes(Peek(p, pos + |ShowMore(bs)|))
    ensures pos <= |p|
    ensures ParseMore(p, pos, npar, done) == Ok(done + bs, pos + |ShowMore(bs)|, npar + GroupsAlts(bs))
    decreases bs, 0
  {
    hide ShowPieces, ShowAlts, WfAlts, CanonAlts, WfPieces, CanonPieces, GroupsPieces, GroupsAlts, Stands, ParseBranch,
      ParseMore, CString, EndsBranch, Closes, ShowMore;
    if |bs| == 0 {
      NoMoreParses(bs, p, pos, npar, done);
    } else {
      MoreFirst(bs);
      var ps := bs[0].pieces;
      AltsFirst(bs, npar);
      StandsSplit(p, pos, [BAR], ShowAlts(bs));
      StandsAt(p, pos, [BAR], 0);
      StandsSplit(p, pos + 1, ShowPieces(ps), ShowMore(bs[1..]));
      MoreStarts(bs[1..], p, pos + 1 + |ShowPieces(ps)|);
      PiecesParse(ps, p, pos + 1, npar, []);
      assert [] + ps == ps;
      MoreParses(bs[1..], p, pos + 1 + |ShowPieces(ps)|, npar + GroupsPieces(ps), done + [bs[0]]);
      assert done + [bs[0]] + bs[1..] == done + bs;
      MoreStep(p, pos, npar, done, bs[0], pos + 1 + |ShowPieces(ps)|, npar + GroupsPieces(ps));
    }
  }

  lemma NoMoreParses(bs: seq<Branch>, p: seq<byte>, pos: nat, npar: nat, done: seq<Branch>)
    requires bs == [] && Stands(p, pos, ShowMore(bs)) && Closes(Peek(p, pos + |ShowMore(bs)|))
    ensures pos <= |p|
    ensures ParseMore(p, pos, npar, done) == Ok(done + bs, pos + |ShowMore(bs)|, npar + GroupsAlts(bs))
  {
    assert done + bs == done;
  }

  lemma MoreFirst(bs: seq<Branch>)
    requires |bs| > 0
    ensures ShowMore(bs) == [BAR] + ShowAlts(bs)
  {
  }

  lemma MoreStep(p: seq<byte>, pos: nat, npar: nat, done: seq<Branch>, b: Branch, next: nat, npar': nat)
    requires pos < |p| && p[pos] == BAR && ParseBranch(p, pos + 1, npar, []) == Ok(b.pieces, next, npar') && next <= |p|
    ensures ParseMore(p, pos, npar, done) == ParseMore(p, next, npar', done + [b])
  {
    hide ParseBranch;
  }

  lemma {:induction false} RegParses(bs: seq<Branch>, p: seq<byte>, pos: nat, npar: nat, paren: bool)
    requires CString(p) && |bs| > 0 && WfAlts(bs) && npar > 0 && (paren ==> npar < NSUBEXP)
    requires CanonAlts(bs, if paren then npar + 1 else npar)
    requires Stands(p, pos, ShowAlts(bs)) && Peek(p, pos + |ShowAlts(bs)|) == if paren then RPAREN else 0
    ensures pos <= |p|
    ensures ParseReg(p, pos, npar, paren)
      == if paren then Ok(bs, pos + |ShowAlts(bs)| + 1, npar + 1 + GroupsAlts(bs)) else Ok(bs, pos + |ShowAlts(bs)|, npar + GroupsAlts(bs))
    decreases bs, 1
  {
    hide ShowPieces, ShowAlts, WfAlts, CanonAlts, WfPieces, CanonPieces, GroupsPieces, GroupsAlts, Stands, ParseBranch, ParseMore, ShowMore;
    var npar1 := if paren then npar + 1 else npar;
    var ps := bs[0].pieces;
    AltsFirst(bs, npar1);
    StandsSplit(p, pos, ShowPieces(ps), ShowMore(bs[1..]));
    MoreStarts(bs[1..], p, pos + |ShowPieces(ps)|);
    PiecesParse(ps, p, pos, npar1, []);
    assert [] + ps == ps && Branch(ps) == bs[0];
    MoreParses(bs[1..], p, pos + |ShowPieces(ps)|, npar1 + GroupsPieces(ps), [bs[0]]);
    assert [bs[0]] + bs[1..] == bs;
  }

  /** Parsing the print of a canonical tree gives the tree. */
  lemma ShownParses(bs: seq<Branch>)
    requires Canonical(bs)
    ensures CString(ShowAlts(bs)) && Parse(ShowAlts(bs)) == Ok(bs, |ShowAlts(bs)|, 1 + GroupsAlts(bs))
  {
    hide ShowAlts, WfAlts, CanonAlts;
    var p := ShowAlts(bs);
    assert p[0..|p|] == p;
    AltsNoNul(bs, 1);
    RegParses(bs, p, 0, 1, false);
  }

  // ---------------------------------------------- printing leaves no NUL

  lemma {:induction false} ItemsNoNul(items: seq<ClassItem>)
    requires WfItems(items)
    ensures CString(ShowItems(items))
  {
    if |items| > 0 {
      ItemsNoNul(items[..|items| - 1]);
      assert WfItem(items[|items| - 1]);
    }
  }

  lemma {:induction false} AtomNoNul(a: Atom, n: nat)
    requires WfAtom(a) && CanonAtom(a, n)
    ensures CString(ShowAtom(a))
    decreases a, 0
  {
    hide ShowItems, ShowAlts;
    if a.Class? {
      ItemsNoNul(a.items);
    } else if a.Group? {
      AltsNoNul(a.alts, n + 1);
    }
  }

  lemma {:induction false} PieceNoNul(q: Piece, n: nat)
    requires WfPiece(q) && CanonPiece(q, n)
    ensures CString(ShowPiece(q))
    decreases q, 0
  {
    hide ShowAtom, WideAtom;
    AtomNoNul(q.atom, n);
  }

  lemma {:induction false} PiecesNoNul(ps: seq<Piece>, n: nat)
    requires WfPieces(ps) && CanonPieces(ps, n)
    ensures CString(ShowPieces(ps))
    decreases ps, 0
  {
    hide ShowPiece;
    if |ps| > 0 {
      PieceNoNul(ps[0], n);
      PiecesNoNul(ps[1..], n + GroupsPiece(ps[0]));
    }
  }

  lemma {:induction false} AltsNoNul(bs: seq<Branch>, n: nat)
    requires WfAlts(bs) && CanonAlts(bs, n)
    ensures CString(ShowAlts(bs))
    decreases bs, 0
  {
    hide ShowPieces;
    if |bs| > 0 {
      PiecesNoNul(bs[0].pieces, n);
      AltsNoNul(bs[1..], n + GroupsPieces(bs[0].pieces));
    }
  }

  // --------------------------------- what the parser builds is canonical

  /** The elements read up to `pos` have been written just in front of it. */
  ghost predicate ItemsUpTo(p: seq<byte>, pos: nat, done: seq<ClassItem>, neg: bool)
    requires 1 <= pos <= |p|
  {
    && (forall j :: 0 <= j < |done| ==> CanonItem(done, j, neg))
    && if |done| == 0 then pos == |p| || (p[pos] != RBRACK && p[pos] != HYPHEN && (p[pos] == CARET ==> neg))
       else
         var it := done[|done| - 1];
         p[pos - 1] == LastByte(it) && (|done| > 1 && it == Single(HYPHEN) ==> pos == |p| || p[pos] == RBRACK)
  }

  lemma {:induction false} ItemsCanon(p: seq<byte>, pos: nat, done: seq<ClassItem>, neg: bool)
    requires 1 <= pos <= |p| && ParseItems(p, pos, done).Ok? && ItemsUpTo(p, pos, done, neg)
    ensures var r := ParseItems(p, pos, done).value; |r| > 0 && forall j :: 0 <= j < |r| ==> CanonItem(r, j, neg)
    decreases |p| - pos
  {
    if p[pos] != RBRACK {
      var it := ParseItem(p, pos);
      ItemCanon(p, pos, done, neg);
      hide CanonItem, ParseItem;
      ItemsCanon(p, it.pos, done + [it.value], neg);
    }
  }

  lemma ItemCanon(p: seq<byte>, pos: nat, done: seq<ClassItem>, neg: bool)
    requires 1 <= pos < |p| && p[pos] != RBRACK && ParseItem(p, pos).Ok? && ItemsUpTo(p, pos, done, neg)
    ensures var it := ParseItem(p, pos); ItemsUpTo(p, it.pos, done + [it.value], neg)
  {
    var it := ParseItem(p, pos).value;
    forall j | 0 <= j < |done| ensures CanonItem(done + [it], j, neg) {
      assert CanonItem(done, j, neg);
    }
  }

  lemma ClassCanon(p: seq<byte>, pos: nat, npar: nat)
    requires 1 <= pos <= |p| && ParseClass(p, pos, npar).Ok?
    ensures CanonAtom(ParseClass(p, pos, npar).value, npar) && ParseClass(p, pos, npar).npar == npar
  {
    var neg, done := Peek(p, pos) == CARET, ClassStart(p, pos);
    ItemsCanon(p, pos + (if neg then 1 else 0) + |done|, done, neg);
  }

  lemma {:induction false} AtomCanon(p: seq<byte>, pos: nat, npar: nat)
    requires CString(p) && pos <= |p| && ParseAtom(p, pos, npar).Ok?
    ensures var r := ParseAtom(p, pos, npar); CanonAtom(r.value, npar) && r.npar == npar + GroupsAtom(r.value)
    decreases |p| - pos, 0
  {
    hide ParseItems, CanonItem, ParseClass;
    if Peek(p, pos) == LBRACK {
      ClassCanon(p, pos + 1, npar);
    } else if Peek(p, pos) == LPAREN {
      RegCanon(p, pos + 1, npar, true);
    }
  }

  /** A run that was cut short in front of `pos` was cut for a multiplier. */
  ghost predicate CutFor(p: seq<byte>, pos: nat, q: Piece) {
    PlainLit(q) && q.mult == One && pos < |p| && !IsMeta(p[pos]) ==> pos + 1 < |p| && IsMult(p[pos + 1])
  }

  lemma {:induction false} PieceCanon(p: seq<byte>, pos: nat, npar: nat)
    requires CString(p) && pos <= |p| && ParsePiece(p, pos, npar).Ok?
    ensures var r := ParsePiece(p, pos, npar);
      CanonPiece(r.value, npar) && r.npar == npar + GroupsPiece(r.value) && CutFor(p, r.pos, r.value)
    decreases |p| - pos, 1
  {
    hide WideAtom, CanonAtom, GroupsAtom;
    AtomCanon(p, pos, npar);
    hide ParseClass, ParseReg;
  }

  lemma CutApart(p: seq<byte>, pos: nat, npar: nat, last: Piece)
    requires pos <= |p| && ParsePiece(p, pos, npar).Ok? && CutFor(p, pos, last)
    ensures Apart(last, ParsePiece(p, pos, npar).value)
  {
    hide WideAtom, ParseClass, ParseReg;
    MetaBytes();
    if PlainLit(last) && last.mult == One && PlainLit(ParsePiece(p, pos, npar).value) {
      PlainRunIs(p, pos, 1);
    }
  }

  lemma {:induction false} CanonPiecesGrow(ps: seq<Piece>, q: Piece, n: nat)
    ensures GroupsPieces(ps + [q]) == GroupsPieces(ps) + GroupsPiece(q)
    ensures CanonPieces(ps + [q], n)
      <==> CanonPieces(ps, n) && CanonPiece(q, n + GroupsPieces(ps)) && (|ps| > 0 ==> Apart(ps[|ps| - 1], q))
  {
    hide CanonPiece, GroupsPiece, Apart;
    var all := ps + [q];
    if |ps| == 0 {
      assert all[1..] == [];
    } else {
      assert all[1..] == ps[1..] + [q];
      CanonPiecesGrow(ps[1..], q, n + GroupsPiece(ps[0]));
    }
  }

  lemma {:induction false} BranchCanon(p: seq<byte>, pos: nat, npar: nat, done: seq<Piece>, n: nat)
    requires CString(p) && pos <= |p| && ParseBranch(p, pos, npar, done).Ok?
    requires CanonPieces(done, n) && npar == n + GroupsPieces(done)
    requires |done| > 0 ==> CutFor(p, pos, done[|done| - 1])
    ensures var r := ParseBranch(p, pos, npar, done); CanonPieces(r.value, n) && r.npar == n + GroupsPieces(r.value)
    decreases |p| - pos, 2
  {
    hide CanonPieces, GroupsPieces, CanonPiece, GroupsPiece, CutFor, Apart, ParsePiece, EndsBranch, CString;
    if !EndsBranch(Peek(p, pos)) {
      var q := ParsePiece(p, pos, npar);
      PieceCanon(p, pos, npar);
      CanonPiecesGrow(done, q.value, n);
      if |done| > 0 {
        CutApart(p, pos, npar, done[|done| - 1]);
      }
      BranchCanon(p, q.pos, q.npar, done + [q.value], n);
    }
  }

  lemma {:induction false} CanonAltsGrow(bs: seq<Branch>, b: Branch, n: nat)
    ensures GroupsAlts(bs + [b]) == GroupsAlts(bs) + GroupsPieces(b.pieces)
    ensures CanonAlts(bs + [b], n) <==> CanonAlts(bs, n) && CanonPieces(b.pieces, n + GroupsAlts(bs))
  {
    hide CanonPieces, GroupsPieces;
    var all := bs + [b];
    if |bs| == 0 {
      assert all[1..] == [];
    } else {
      assert all[1..] == bs[1..] + [b];
      CanonAltsGrow(bs[1..], b, n + GroupsPieces(bs[0].pieces));
    }
  }

  lemma NoCanonPieces(n: nat)
    ensures CanonPieces([], n) && GroupsPieces([]) == 0
  {
  }

  lemma {:induction false} MoreCanon(p: seq<byte>, pos: nat, npar: nat, done: seq<Branch>, n: nat)
    requires CString(p) && pos <= |p| && ParseMore(p, pos, npar, done).Ok?
    requires CanonAlts(done, n) && npar == n + GroupsAlts(done)
    ensures var r := ParseMore(p, pos, npar, done); CanonAlts(r.value, n) && r.npar == n + GroupsAlts(r.value)
    decreases |p| - pos, 3
  {
    hide CanonPieces, GroupsPieces, CanonAlts, GroupsAlts, ParseBranch, CString;
    if Peek(p, pos) == BAR {
      var b := ParseBranch(p, pos + 1, npar, []);
      NoCanonPieces(npar);
      BranchCanon(p, pos + 1, npar, [], npar);
      CanonAltsGrow(done, Branch(b.value), n);
      MoreCanon(p, b.pos, b.npar, done + [Branch(b.value)], n);
    }
  }

  lemma OneCanonBranch(b: Branch, n: nat)
    ensures CanonAlts([b], n) <==> CanonPieces(b.pieces, n)
    ensures GroupsAlts([b]) == GroupsPieces(b.pieces)
  {
    hide CanonPieces, GroupsPieces;
    assert [b][1..] == [];
  }

  lemma {:induction false} RegCanon(p: seq<byte>, pos: nat, npar: nat, paren: bool)
    requires CString(p) && pos <= |p| && ParseReg(p, pos, npar, paren).Ok?
    ensures var r, n := ParseReg(p, pos, npar, paren), if paren then npar + 1 else npar;
      CanonAlts(r.value, n) && r.npar == n + GroupsAlts(r.value)
    decreases |p| - pos, 4
  {
    hide CanonPieces, GroupsPieces, CanonAlts, GroupsAlts, ParseBranch, ParseMore, CString;
    var n := if paren then npar + 1 else npar;
    var b := ParseBranch(p, pos, n, []);
    NoCanonPieces(n);
    BranchCanon(p, pos, n, [], n);
    OneCanonBranch(Branch(b.value), n);
    MoreCanon(p, b.pos, b.npar, [Branch(b.value)], n);
  }

  // ------------------------------------------------------ main theorems

  /** `bs` is the canonical tree that is printed as `exp`. */
  ghost predicate TreeOf(bs: seq<Branch>, exp: seq<byte>) {
    Canonical(bs) && ShowAlts(bs) == exp
  }

  /** A pattern parses exactly if it is the print of a canonical tree, and it parses as that tree. */
  lemma ParsesAsTree(exp: seq<byte>, bs: seq<Branch>)
    requires CString(exp)
    ensures TreeOf(bs, exp) <==> Parse(exp).Ok? && Parse(exp).value == bs
  {
    hide ShowAlts, WfAlts, CanonAlts, ParseReg;
    if Parse(exp).Ok? {
      ParseReadsAll(exp);
      RegCanon(exp, 0, 1, false);
    }
    if TreeOf(bs, exp) {
      ShownParses(bs);
    }
  }

  /** No two canonical trees are printed alike. */
  lemma PrintsApart(bs: seq<Branch>, cs: seq<Branch>)
    requires Canonical(bs) && Canonical(cs) && ShowAlts(bs) == ShowAlts(cs)
    ensures bs == cs
  {
    hide ShowAlts, Canonical, Parse;
    ShownParses(bs);
    ShownParses(cs);
  }
}
