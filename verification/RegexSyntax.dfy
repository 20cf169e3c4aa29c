/**
  The abstract syntax of the patterns accepted by `evr_regcomp`, the flags its
  parser passes up and down, and the parser itself as a function from pattern
  bytes to syntax trees.
*/
module RegexSyntax {
  import Basics

  type byte = Basics.byte

  // ASCII codes of the bytes the parser looks at.
  const CARET: byte := 94
  const DOLLAR: byte := 36
  const DOT: byte := 46
  const LBRACK: byte := 91
  const RBRACK: byte := 93
  const LPAREN: byte := 40
  const RPAREN: byte := 41
  const BAR: byte := 124
  const QUERY: byte := 63
  const PLUS: byte := 43
  const STAR: byte := 42
  const BACKSLASH: byte := 92
  const HYPHEN: byte := 45

  // Group numbers run from 1 to NSUBEXP - 1.
  const NSUBEXP: nat := 10

  /** One element of a bracket expression: a byte, or the rest `-hi` of a range whose first byte `lo` precedes it. */
  datatype ClassItem = Single(b: byte) | UpTo(lo: byte, hi: byte)

  datatype Atom =
    | Bol
    | Eol
    | Any
    | Class(neg: bool, items: seq<ClassItem>)
    | Lit(text: seq<byte>, escaped: bool)
    | Group(no: nat, alts: seq<Branch>)

  datatype Mult = One | ZeroOrMore | OneOrMore | ZeroOrOne

  datatype Piece = Piece(atom: Atom, mult: Mult)

  /** One alternative: pieces one after the other. */
  datatype Branch = Branch(pieces: seq<Piece>)

  /** A C string: no byte is NUL. */
  ghost predicate CString(s: seq<byte>) {
    forall k :: 0 <= k < |s| ==> s[k] != 0
  }

  /** The byte a C pointer at offset `pos` of the string sees. */
  function Peek(s: seq<byte>, pos: nat): (b: byte) {
    if pos < |s| then s[pos] else 0
  }

  predicate IsMult(b: byte) {
    b == STAR || b == PLUS || b == QUERY
  }

  predicate IsMeta(b: byte) {
    b in {CARET, DOLLAR, DOT, LBRACK, LPAREN, RPAREN, BAR, QUERY, PLUS, STAR, BACKSLASH}
  }

  predicate EndsBranch(b: byte) {
    b == 0 || b == BAR || b == RPAREN
  }

  // ---------------------------------------------------------------- flags

  /** SIMPLE: small enough to be the operand of STAR or PLUS. */
  predicate SimpleAtom(a: Atom) {
    match a
    case Any => true
    case Class(_, _) => true
    case Lit(text, _) => |text| == 1
    case _ => false
  }

  /** HASWIDTH: known never to match the empty string. */
  predicate WideAtom(a: Atom) {
    match a
    case Bol => false
    case Eol => false
    case Any => true
    case Class(_, _) => true
    case Lit(_, _) => true
    case Group(_, alts) => WideAlts(alts)
  }

  predicate WidePiece(p: Piece) {
    match p.mult
    case One => WideAtom(p.atom)
    case OneOrMore => true
    case _ => false
  }

  predicate WidePieces(ps: seq<Piece>) {
    |ps| > 0 && (WidePiece(ps[0]) || WidePieces(ps[1..]))
  }

  predicate WideAlts(bs: seq<Branch>) {
    |bs| == 0 || (WidePieces(bs[0].pieces) && WideAlts(bs[1..]))
  }

  /** SPSTART: starts with `*` or `?` (so a match may have to back up a lot). */
  predicate SpStartAtom(a: Atom) {
    a.Group? && SpStartAlts(a.alts)
  }

  predicate SpStartPiece(p: Piece) {
    match p.mult
    case One => SpStartAtom(p.atom)
    case OneOrMore => false
    case _ => true
  }

  predicate SpStartPieces(ps: seq<Piece>) {
    |ps| > 0 && SpStartPiece(ps[0])
  }

  predicate SpStartAlts(bs: seq<Branch>) {
    |bs| > 0 && (SpStartPieces(bs[0].pieces) || SpStartAlts(bs[1..]))
  }

  // ------------------------------------------------------ well-formedness

  /** What the parser guarantees of the trees it builds. */
  ghost predicate WfAtom(a: Atom) {
    match a
    case Class(_, items) => forall k :: 0 <= k < |items| ==> WfItem(items[k])
    case Lit(text, escaped) => |text| > 0 && CString(text) && (escaped ==> |text| == 1)
    case Group(no, alts) => 0 < no < 10 && |alts| > 0 && WfAlts(alts)
    case _ => true
  }

  ghost predicate WfItem(it: ClassItem) {
    match it
    case Single(b) => b != 0
    case UpTo(lo, hi) => 0 < lo <= hi
  }

  /** `*` and `+` apply only to operands that have width, and no multiplier applies to a longer run of bytes. */
  ghost predicate WfPiece(p: Piece) {
    && WfAtom(p.atom)
    && (p.mult == ZeroOrMore || p.mult == OneOrMore ==> WideAtom(p.atom))
    && (p.mult != One && p.atom.Lit? ==> SimpleAtom(p.atom))
  }

  ghost predicate WfPieces(ps: seq<Piece>) {
    |ps| > 0 ==> WfPiece(ps[0]) && WfPieces(ps[1..])
  }

  ghost predicate WfAlts(bs: seq<Branch>) {
    |bs| > 0 ==> WfPieces(bs[0].pieces) && WfAlts(bs[1..])
  }

  // --------------------------------------------------------------- parser

  datatype Error =
    | TooManyParens
    | UnmatchedParen
    | JunkOnEnd
    | EmptyOperand
    | NestedMult
    | InvalidRange
    | UnmatchedBracket
    | InternalUrp
    | FollowsNothing
    | TrailingBackslash
    | TooBig

  datatype Parsed<T> = Ok(value: T, pos: nat, npar: nat) | Err(error: Error)

  /** Length of the run of bytes from `pos` on that are not in META (C's strcspn). */
  function PlainRun(p: seq<byte>, pos: nat): (n: nat)
    requires pos <= |p|
    ensures pos + n <= |p|
    ensures forall k :: pos <= k < pos + n ==> !IsMeta(p[k])
    ensures pos + n < |p| ==> IsMeta(p[pos + n])
    decreases |p| - pos
  {
    if pos == |p| || IsMeta(p[pos]) then 0 else 1 + PlainRun(p, pos + 1)
  }

  /** One element of a bracket expression. A `-` that is not last continues a range begun by the byte before it. */
  function ParseItem(p: seq<byte>, pos: nat): (r: Parsed<ClassItem>)
    requires 1 <= pos < |p|
    ensures r.Ok? ==> pos < r.pos <= |p|
  {
    if p[pos] != HYPHEN then Ok(Single(p[pos]), pos + 1, 0)
    else if pos + 1 == |p| || p[pos + 1] == RBRACK then Ok(Single(HYPHEN), pos + 1, 0)
    else if p[pos - 1] > p[pos + 1] then Err(InvalidRange)
    else Ok(UpTo(p[pos - 1], p[pos + 1]), pos + 2, 0)
  }

  /** The inside of a bracket expression, having parsed `done` */
  function ParseItems(p: seq<byte>, pos: nat, done: seq<ClassItem>): (r: Parsed<seq<ClassItem>>)
    requires 1 <= pos <= |p|
    ensures r.Ok? ==> pos < r.pos <= |p| && done <= r.value
    decreases |p| - pos
  {
    if pos == |p| then Err(UnmatchedBracket)
    else if p[pos] == RBRACK then Ok(done, pos + 1, 0)
    else
      var it := ParseItem(p, pos);
      if it.Err? then Err(it.error) else ParseItems(p, it.pos, done + [it.value])
  }

  /** The elements a bracket expression starts with: a `]` or `-` up front stands for itself. */
  function ClassStart(p: seq<byte>, pos: nat): (done: seq<ClassItem>)
    requires pos <= |p|
    ensures |done| <= 1 && pos + (if Peek(p, pos) == CARET then 1 else 0) + |done| <= |p|
  {
    var first := Peek(p, if Peek(p, pos) == CARET then pos + 1 else pos);
    if first == RBRACK || first == HYPHEN then [Single(first)] else []
  }

  /** A bracket expression, `pos` being just behind its `[`. */
  function ParseClass(p: seq<byte>, pos: nat, npar: nat): (r: Parsed<Atom>)
    requires 1 <= pos <= |p|
    ensures r.Ok? ==> pos < r.pos <= |p| && r.value.Class? && ClassStart(p, pos) <= r.value.items
  {
    var neg := Peek(p, pos) == CARET;
    var done := ClassStart(p, pos);
    var r := ParseItems(p, pos + (if neg then 1 else 0) + |done|, done);
    if r.Err? then Err(r.error) else Ok(Class(neg, r.value), r.pos, npar)
  }

  /** The number of bytes of an ordinary run that become one node: a following multiplier takes the last byte. */
  function LitLen(p: seq<byte>, pos: nat): (n: nat)
    requires pos <= |p|
    ensures pos + n <= |p|
    ensures pos < |p| && !IsMeta(p[pos]) ==> n > 0
  {
    var len := PlainRun(p, pos);
    if len > 1 && IsMult(Peek(p, pos + len)) then len - 1 else len
  }

  /** `regatom` */
  function ParseAtom(p: seq<byte>, pos: nat, npar: nat): (r: Parsed<Atom>)
    requires pos <= |p|
    ensures r.Ok? ==> pos < r.pos <= |p| && npar <= r.npar
    decreases |p| - pos, 0
  {
    var c := Peek(p, pos);
    if c == CARET then Ok(Bol, pos + 1, npar)
    else if c == DOLLAR then Ok(Eol, pos + 1, npar)
    else if c == DOT then Ok(Any, pos + 1, npar)
    else if c == LBRACK then ParseClass(p, pos + 1, npar)
    else if c == LPAREN then
      var r := ParseReg(p, pos + 1, npar, true);
      if r.Err? then Err(r.error) else Ok(Group(npar, r.value), r.pos, r.npar)
    else if EndsBranch(c) then Err(InternalUrp)
    else if IsMult(c) then Err(FollowsNothing)
    else if c == BACKSLASH then
      if Peek(p, pos + 1) == 0 then Err(TrailingBackslash)
      else Ok(Lit([p[pos + 1]], true), pos + 2, npar)
    else
      var len := LitLen(p, pos);
      Ok(Lit(p[pos..pos + len], false), pos + len, npar)
  }

  function MultOf(c: byte): Mult {
    if c == STAR then ZeroOrMore else if c == PLUS then OneOrMore else if c == QUERY then ZeroOrOne else One
  }

  /** `regpiece` */
  function ParsePiece(p: seq<byte>, pos: nat, npar: nat): (r: Parsed<Piece>)
    requires pos <= |p|
    ensures r.Ok? ==> pos < r.pos <= |p| && npar <= r.npar
    decreases |p| - pos, 1
  {
    var a := ParseAtom(p, pos, npar);
    if a.Err? then Err(a.error)
    else
      var op := Peek(p, a.pos);
      if !IsMult(op) then Ok(Piece(a.value, One), a.pos, a.npar)
      else if !WideAtom(a.value) && op != QUERY then Err(EmptyOperand)
      else if IsMult(Peek(p, a.pos + 1)) then Err(NestedMult)
      else Ok(Piece(a.value, MultOf(op)), a.pos + 1, a.npar)
  }

  /** `regbranch`, having parsed the pieces `done` */
  function ParseBranch(p: seq<byte>, pos: nat, npar: nat, done: seq<Piece>): (r: Parsed<seq<Piece>>)
    requires pos <= |p|
    ensures r.Ok? ==> pos <= r.pos <= |p| && npar <= r.npar && done <= r.value && EndsBranch(Peek(p, r.pos))
    decreases |p| - pos, 2
  {
    if EndsBranch(Peek(p, pos)) then Ok(done, pos, npar)
    else
      var r := ParsePiece(p, pos, npar);
      if r.Err? then Err(r.error) else ParseBranch(p, r.pos, r.npar, done + [r.value])
  }

  /** The loop of `reg` over `|`, having parsed the branches `done` */
  function ParseMore(p: seq<byte>, pos: nat, npar: nat, done: seq<Branch>): (r: Parsed<seq<Branch>>)
    requires pos <= |p|
    ensures r.Ok? ==> pos <= r.pos <= |p| && npar <= r.npar && done <= r.value
    decreases |p| - pos, 3
  {
    if Peek(p, pos) == BAR then
      var r := ParseBranch(p, pos + 1, npar, []);
      if r.Err? then Err(r.error) else ParseMore(p, r.pos, r.npar, done + [Branch(r.value)])
    else Ok(done, pos, npar)
  }

  /** `reg` */
  function ParseReg(p: seq<byte>, pos: nat, npar: nat, paren: bool): (r: Parsed<seq<Branch>>)
    requires pos <= |p|
    ensures r.Ok? ==> pos <= r.pos <= |p| && npar <= r.npar && |r.value| > 0
    ensures r.Ok? && paren ==> npar < NSUBEXP
    decreases |p| - pos, 4
  {
    if paren && npar >= NSUBEXP then Err(TooManyParens)
    else
      var npar1 := if paren then npar + 1 else npar;
      var b := ParseBranch(p, pos, npar1, []);
      if b.Err? then Err(b.error)
      else
        var r := ParseMore(p, b.pos, b.npar, [Branch(b.value)]);
        if r.Err? then Err(r.error)
        else if paren then
          if Peek(p, r.pos) == RPAREN then Ok(r.value, r.pos + 1, r.npar) else Err(UnmatchedParen)
        else if Peek(p, r.pos) == 0 then r
        else if Peek(p, r.pos) == RPAREN then Err(UnmatchedParen)
        else Err(JunkOnEnd)
  }

  /** A whole pattern. */
  function Parse(p: seq<byte>): Parsed<seq<Branch>> {
    ParseReg(p, 0, 1, false)
  }
}
