/**
  The two-pass compiler. The first pass runs the parser with code generation
  switched off and counts bytes, the second emits into a buffer of that size,
  shifting code already emitted (`RegInsert`) and patching links in place
  (`RegTail`, `RegOpTail`). Positions are offsets into the program buffer.
*/
module RegexCompiler {
  import opened RegexSyntax
  import opened RegexCode

  const DUMMY: int := -1   // stands for &regdummy: count, do not emit
  const NULL: int := -2

  datatype Flags = Flags(hasWidth: bool, simple: bool, spStart: bool)

  function FlagsOfAtom(a: Atom): Flags {
    Flags(WideAtom(a), SimpleAtom(a), SpStartAtom(a))
  }

  function FlagsOfPiece(p: Piece): Flags {
    Flags(WidePiece(p), p.mult == One && SimpleAtom(p.atom), SpStartPiece(p))
  }

  /** What `reg` emits for a parenthesized or a whole expression. */
  function RegCode(paren: bool, no: nat, bs: seq<Branch>): (c: seq<byte>)
    ensures |c| == AltsLen(bs) + if paren then 6 else 3
  {
    if paren then AtomCode(Group(no, bs), -1) else AltsCode(bs) + Node(END, 0)
  }

  lemma {:induction false} PiecesPrefix(a: seq<Piece>, b: seq<Piece>)
    requires a <= b
    ensures PiecesLen(a) <= PiecesLen(b)
  {
    if |a| > 0 {
      PiecesPrefix(a[1..], b[1..]);
    }
  }

  lemma {:induction false} AltsPrefix(a: seq<Branch>, b: seq<Branch>)
    requires a <= b
    ensures AltsLen(a) <= AltsLen(b)
  {
    if |a| > 0 {
      AltsPrefix(a[1..], b[1..]);
    }
  }

  lemma {:induction false} ClassPrefix(a: seq<ClassItem>, b: seq<ClassItem>)
    requires a <= b
    ensures |ClassBytes(a)| <= |ClassBytes(b)|
  {
    if a != b {
      ClassPrefix(a, b[..|b| - 1]);
    }
  }

  lemma ClassSnoc(items: seq<ClassItem>, it: ClassItem)
    ensures ClassBytes(items + [it]) == ClassBytes(items) + ItemBytes(it)
  {
    assert (items + [it])[..|items|] == items;
  }

  lemma ClassOne(b: byte)
    ensures ClassBytes([Single(b)]) == [b] && ClassBytes([]) == []
  {
  }

  lemma ClassCode(neg: bool, items: seq<ClassItem>, done: seq<byte>)
    requires done <= ClassBytes(items)
    ensures Node(if neg then ANYBUT else ANYOF, 0) + done + (ClassBytes(items)[|done|..] + [0])
         == AtomCode(Class(neg, items), -1)
  {
    hide ClassBytes, Node;
  }

  lemma ClassStartFits(p: seq<byte>, pos: nat, npar: nat)
    requires 1 <= pos <= |p| && ParseClass(p, pos, npar).Ok?
    ensures |ClassBytes(ClassStart(p, pos))| <= |ClassBytes(ParseClass(p, pos, npar).value.items)|
  {
    ClassPrefix(ClassStart(p, pos), ParseClass(p, pos, npar).value.items);
  }

  lemma {:induction false} WideSnoc(ps: seq<Piece>, q: Piece)
    ensures WidePieces(ps + [q]) == (WidePieces(ps) || WidePiece(q))
    ensures |ps| > 0 ==> SpStartPieces(ps + [q]) == SpStartPieces(ps)
    ensures |ps| == 0 ==> SpStartPieces(ps + [q]) == SpStartPiece(q)
  {
    if |ps| > 0 {
      assert (ps + [q])[1..] == ps[1..] + [q];
      WideSnoc(ps[1..], q);
    }
  }

  lemma NoPieces()
    ensures PiecesLen([]) == 0 && PiecesCode([], -1) == PiecesCode([], 0) == []
    ensures !WidePieces([]) && !SpStartPieces([])
  {
  }

  /** The code of `x*` while it is being built. */
  lemma StarPieces(pre: seq<byte>, x: seq<byte>, first: nat, back: nat)
    ensures (pre + x)[..|pre|] == pre && (pre + x)[|pre|..] == x
    ensures pre + Node(BRANCH, first) + x + Node(BACK, back) == pre + Loop(first, x, back)
    ensures (pre + Loop(first, x, back))[|pre|] == BRANCH
    ensures var c, b, n := Loop(first, x, back), Node(BRANCH, 0), Node(NOTHING, 0);
      pre + c + b == pre + (c + b) && pre + (c + b) + n == pre + (c + b + n)
  {
    HeadByte(pre, BRANCH, first, x + Node(BACK, back));
    hide Node;
  }

  lemma Regroup(a: seq<byte>, b: seq<byte>, c: seq<byte>, d: seq<byte>)
    ensures a + (b + c) + d == (a + b) + c + d
    ensures a + ((b + c) + d) == (a + b) + c + d
  {
  }

  lemma Parted(ps: seq<Piece>)
    requires |ps| > 0
    ensures ps == ps[..|ps| - 1] + [ps[|ps| - 1]]
  {
  }

  /** Hooking the last piece of a branch to the piece just emitted behind it. */
  lemma PieceChainStep(head: seq<byte>, done: seq<Piece>, q: Piece)
    requires |done| > 0 && PiecesLen(done) < 0x1_0000
    ensures var last, start := done[|done| - 1], PiecesLen(done[..|done| - 1]);
      && start + PieceLen(last) == PiecesLen(done)
      && Hooks(head + PiecesCode(done, -1) + PieceCode(q, -1), |head| + start, PieceTail(last),
               PieceLen(last) - PieceTail(last), head + PiecesCode(done + [q], -1))
  {
    hide *;
    var init, last := done[..|done| - 1], done[|done| - 1];
    Parted(done);
    PiecesSnoc(init, last, -1);
    PiecesSnoc(init, last, 0);
    PiecesSnoc(done, q, -1);
    PieceHook(last, 0);
    var a, l, l0, c := PiecesCode(init, 0), PieceCode(last, -1), PieceCode(last, 0), PieceCode(q, -1);
    HooksInside(head + a, l, c, 0, PieceTail(last), PieceLen(last) - PieceTail(last), l0);
    Regroup(head, a, l, c);
    Regroup(head, a, l0, c);
  }

  /** The choice with one branch, as just emitted. */
  lemma OneAlt(ps: seq<Piece>)
    ensures AltsLen([Branch(ps)]) == 3 + BodyLen(ps)
    ensures OpenAlts([Branch(ps)]) == Node(BRANCH, 0) + BodyCode(ps, -1)
    ensures WideAlts([Branch(ps)]) == WidePieces(ps) && SpStartAlts([Branch(ps)]) == SpStartPieces(ps)
  {
    assert [Branch(ps)][1..] == [];
  }

  lemma {:induction false} AltsFlagsSnoc(bs: seq<Branch>, b: Branch)
    ensures WideAlts(bs + [b]) == (WideAlts(bs) && WidePieces(b.pieces))
    ensures SpStartAlts(bs + [b]) == (SpStartAlts(bs) || SpStartPieces(b.pieces))
  {
    if |bs| > 0 {
      assert (bs + [b])[1..] == bs[1..] + [b];
      AltsFlagsSnoc(bs[1..], b);
    } else {
      OneAlt(b.pieces);
      assert bs + [b] == [Branch(b.pieces)];
    }
  }

  /** A branch that will be accepted fits where the whole choice does. */
  lemma BranchFits(done: seq<Branch>, ps: seq<Piece>, all: seq<Branch>)
    requires done + [Branch(ps)] <= all
    ensures AltsLen(done) + 3 + BodyLen(ps) <= AltsLen(all)
  {
    AltsSnoc(done, Branch(ps));
    AltsPrefix(done + [Branch(ps)], all);
  }

  lemma IsOpenNode(op: byte)
    requires op != BACK && op != BRANCH
    ensures IsOpen(Node(op, 3))
  {
  }

  lemma NoAlts()
    ensures AltsLen([]) == 0
  {
  }

  lemma OpenNode(pre: seq<byte>, no: nat, rest: seq<byte>)
    requires no < NSUBEXP
    ensures Hooks(pre + (Node(OPEN + no, 0) + rest), |pre|, 0, 3, pre + (Node(OPEN + no, 3) + rest))
  {
    hide Hooks, Node;
    HookNew(OPEN + no, rest, 3);
    HooksBehind(pre, Node(OPEN + no, 0) + rest, 0, 0, 3, Node(OPEN + no, 3) + rest);
  }

  lemma InsertedNode(before: seq<byte>, after: seq<byte>, opnd: nat, op: byte)
    requires opnd <= |before| && |after| == |before| + 3
    requires forall k :: 0 <= k < opnd ==> after[k] == before[k]
    requires after[opnd] == op && after[opnd + 1] == 0 && after[opnd + 2] == 0
    requires forall k :: opnd + 3 <= k < |after| ==> after[k] == before[k - 3]
    ensures after == before[..opnd] + Node(op, 0) + before[opnd..]
  {
    assert Node(op, 0) == [op, 0, 0];
  }

  class Compiler {
    const pattern: seq<byte>
    var regparse: nat
    var regnpar: nat
    var regcode: int
    var regsize: nat
    var program: array<byte>
    var failure: Error

    ghost predicate Valid()
      reads this
    {
      && (regcode == DUMMY || 0 <= regcode <= program.Length)
      && program.Length < 32767
      && regparse <= |pattern| && CString(pattern)
    }

    predicate Emitting()
      reads this
    {
      regcode != DUMMY
    }

    ghost predicate Room(n: int)
      reads this
    {
      Emitting() ==> regcode + n <= program.Length
    }

    ghost function Code(): (c: seq<byte>)
      reads this`regcode, this`program, program
      requires 0 <= regcode <= program.Length
      ensures |c| == regcode
    {
      program[..regcode]
    }

    /** The effect of emitting a fragment, in either pass. */
    twostate predicate Emitted(frag: seq<byte>)
      reads this, program
    {
      && Valid() && program == old(program)
      && if old(regcode) == DUMMY then regcode == DUMMY && regsize == old(regsize) + |frag|
         else
           && 0 <= old(regcode) <= old(program.Length)
           && regcode == old(regcode) + |frag| && Code() == old(Code()) + frag && regsize == old(regsize)
    }

    /** The outcome of reading an atom that parses as `r`. */
    twostate predicate AtomRead(r: Parsed<Atom>, ok: bool, ret: int, flags: Flags)
      reads this, program
    {
      if r.Err? then !ok && failure == r.error
      else
        && ok && regparse == r.pos && regnpar == r.npar && ret == old(regcode)
        && flags == FlagsOfAtom(r.value) && Emitted(AtomCode(r.value, -1))
    }

    constructor (p: seq<byte>)
      requires CString(p)
      ensures pattern == p && Valid() && regcode == DUMMY && regsize == 0 && fresh(program)
      ensures regparse == 0 && regnpar == 1
    {
      pattern := p;
      regparse, regnpar := 0, 1;
      regcode, regsize := DUMMY, 0;
      program := new byte[0];
      failure := InternalUrp;
    }

    method RegNode(op: byte) returns (ret: int)
      requires Valid() && Room(3)
      modifies this`regcode, this`regsize, program
      ensures Emitted(Node(op, 0)) && ret == old(regcode)
    {
      ret := regcode;
      if ret == DUMMY {
        regsize := regsize + 3;
        return;
      }
      program[ret], program[ret + 1], program[ret + 2] := op, 0, 0;
      regcode := ret + 3;
      assert program[..ret] == old(program[..ret]);
    }

    method RegC(b: byte)
      requires Valid() && Room(1)
      modifies this`regcode, this`regsize, program
      ensures Emitted([b])
    {
      if regcode != DUMMY {
        program[regcode] := b;
        regcode := regcode + 1;
        assert program[..regcode - 1] == old(program[..regcode]);
      } else {
        regsize := regsize + 1;
      }
    }

    /** Inserts a node in front of the operand emitted from `opnd` on, which moves up by three bytes. */
    method RegInsert(op: byte, opnd: int)
      requires Valid() && Room(3)
      requires Emitting() ==> 0 <= opnd <= regcode
      modifies this`regcode, this`regsize, program
      ensures Valid() && program == old(program)
      ensures !old(Emitting()) ==> regcode == DUMMY && regsize == old(regsize) + 3
      ensures old(Emitting()) ==> regcode == old(regcode) + 3 && regsize == old(regsize)
      ensures old(Emitting()) ==> Code() == old(Code()[..opnd]) + Node(op, 0) + old(Code()[opnd..])
    {
      hide Node;
      if regcode == DUMMY {
        regsize := regsize + 3;
        return;
      }
      var src := regcode;
      regcode := regcode + 3;
      var dst := regcode;
      while src > opnd
        invariant opnd <= src <= old(regcode) && dst == src + 3
        invariant regcode == old(regcode) + 3 && regsize == old(regsize)
        invariant forall k :: 0 <= k < src ==> program[k] == old(program[k])
        invariant forall k :: dst <= k < regcode ==> program[k] == old(program[k - 3])
      {
        dst := dst - 1;
        src := src - 1;
        program[dst] := program[src];
      }
      program[opnd], program[opnd + 1], program[opnd + 2] := op, 0, 0;
      InsertedNode(old(program[..regcode]), program[..regcode], opnd, op);
    }

    /** `regnext`: the position a node links to */
    function RegNext(p: int): (r: int)
      requires p == DUMMY || 0 <= p <= program.Length - 3
      reads this, program
      ensures 0 <= p && p + 3 <= regcode <= program.Length ==>
        var c := Code();
        r == if LinkAt(c, p) == 0 then NULL else if c[p] == BACK then p - LinkAt(c, p) else p + LinkAt(c, p)
    {
      if p == DUMMY then NULL
      else
        var offset := (program[p + 1] as int) * 256 + program[p + 2] as int;
        if offset == 0 then NULL
        else if program[p] == BACK then p - offset
        else p + offset
    }

    /** Linking the last node of the chain that starts at `p` to `val` turns the emitted code into `r`. */
    ghost predicate Tail(p: int, val: int, t: nat, r: seq<byte>)
      requires Valid() && Emitting()
      reads this, program
    {
      && 0 <= p
      && ((p + t <= val && Hooks(Code(), p, t, val - p - t, r)) || (val <= p + t && HooksBack(Code(), p, t, p + t - val, r)))
    }

    lemma CodeAt(k: int)
      requires Valid() && Emitting() && 0 <= k < regcode
      ensures Code()[k] == program[k]
    {
    }

    /** The two bytes of a link */
    method SetOffset(scan: int, offset: int)
      requires Valid() && Emitting() && 0 <= scan && scan + 3 <= regcode && offset >= 0
      modifies program
      ensures Valid() && Code() == SetLink(old(Code()), scan, offset)
    {
      program[scan + 1] := (offset / 256) % 256;
      program[scan + 2] := offset % 256;
      assert Code() == SetLink(old(Code()), scan, offset);
    }

    /** `regtail`: links the last node of the chain that starts at `p`, `t` bytes further on, to `val`. */
    method RegTail(p: int, val: int, ghost t: nat, ghost r: seq<byte>)
      requires Valid() && (p == DUMMY <==> !Emitting())
      requires Emitting() ==> Tail(p, val, t, r)
      modifies program
      ensures Valid()
      ensures Emitting() ==> Code() == r
    {
      hide Code, SetLink, LinkAt;
      if p == DUMMY {
        return;
      }
      var scan := p;
      while true
        invariant 0 <= scan && ChainTo(Code(), scan, p + t)
        decreases p + t - scan
      {
        var temp := RegNext(scan);
        if temp == NULL {
          break;
        }
        scan := temp;
      }
      CodeAt(scan);
      SetOffset(scan, if program[scan] == BACK then scan - val else val - scan);
    }

    /** `regoptail`: `regtail` on the operand of a BRANCH; nothing for other nodes. */
    method RegOpTail(p: int, val: int, ghost t: nat, ghost r: seq<byte>)
      requires Valid() && (p == DUMMY <==> !Emitting())
      requires Emitting() ==> 0 <= p < |Code()| && if Code()[p] == BRANCH then Tail(p + 3, val, t, r) else Code() == r
      modifies program
      ensures Valid()
      ensures Emitting() ==> Code() == r
    {
      if p == DUMMY || program[p] != BRANCH {
        return;
      }
      RegTail(p + 3, val, t, r);
    }

    /** The operand `x` is emitted at `ret`; hooking its tail `t` by `off` makes it `x0`. */
    ghost predicate Operand(ret: int, pre: seq<byte>, x: seq<byte>, t: nat, off: nat, x0: seq<byte>)
      reads this, program
    {
      && Valid() && (ret == DUMMY <==> !Emitting())
      && (Emitting() ==>
        ret == |pre| && Code() == pre + x && t + 3 <= |x| && Hooks(x, 0, t, off, x0) && |x| == |x0|)
    }

    /** `x*` for an operand that is not simple: (x&|) */
    method EmitStar(ret: int, ghost pre: seq<byte>, ghost x: seq<byte>, ghost t: nat, ghost x0: seq<byte>)
      requires t <= |x| && Operand(ret, pre, x, t, |x| - t, x0) && Room(12)
      modifies this`regcode, this`regsize, program
      ensures Valid() && program == old(program)
      ensures !old(Emitting()) ==> regcode == DUMMY && regsize == old(regsize) + 12
      ensures old(Emitting()) ==>
        regcode == old(regcode) + 12 && regsize == old(regsize) && Code() == pre + StarCode(x0, -1)
    {
      hide Hooks, HooksBack, Node, StarCode, Loop, Code;
      ghost var len := |x|;
      StarPieces(pre, x, 0, 0);
      if Emitting() {
        StarSteps(pre, x, t, x0);
        StarLast(pre, x0);
        StarPieces(pre, x0, 0, 0);
        StarPieces(pre, x0, 0, len + 3);
        StarPieces(pre, x0, len + 6, len + 3);
      }
      RegInsert(BRANCH, ret);                          // either x
      var back := RegNode(BACK);                       // and loop
      RegOpTail(ret, back, t, pre + Loop(0, x0, 0));
      RegOpTail(ret, ret, len, pre + Loop(0, x0, len + 3));   // back
      var orNull := RegNode(BRANCH);
      RegTail(ret, orNull, 0, pre + (Loop(len + 6, x0, len + 3) + Node(BRANCH, 0)));   // or
      var nothing := RegNode(NOTHING);
      RegTail(ret, nothing, len + 6, pre + StarCode(x0, -1));   // null
    }

    lemma PlusGroups(pre: seq<byte>, x: seq<byte>, b: seq<byte>, loop: seq<byte>)
      ensures pre + x + b + loop + b == pre + x + (b + loop + b)
    {
    }

    /** `x+` for an operand that is not simple: x(&|) */
    method EmitPlus(ret: int, ghost pre: seq<byte>, ghost x: seq<byte>, ghost t: nat, ghost x0: seq<byte>)
      requires t <= |x| && Operand(ret, pre, x, t, |x| - t, x0) && Room(12)
      modifies this`regcode, this`regsize, program
      ensures Valid() && program == old(program)
      ensures !old(Emitting()) ==> regcode == DUMMY && regsize == old(regsize) + 12
      ensures old(Emitting()) ==>
        regcode == old(regcode) + 12 && regsize == old(regsize) && Code() == pre + PlusCode(x0, -1)
    {
      hide Hooks, HooksBack, Node, PlusCode, Code;
      ghost var len, b0 := |x|, Node(BRANCH, 0);
      ghost var loop := Node(BACK, len + 3);
      if Emitting() {
        PlusSteps(pre, x, t, x0);
        PlusLast(pre, x, t, x0);
      }
      var next := RegNode(BRANCH);                     // either
      RegTail(ret, next, t, pre + x0 + b0);
      var back := RegNode(BACK);                       // loop back
      RegTail(back, ret, 0, pre + x0 + b0 + loop);
      var orNull := RegNode(BRANCH);                   // or
      PlusGroups(pre, x0, b0, loop);
      RegTail(next, orNull, 0, pre + x0 + (Node(BRANCH, 6) + loop + b0));
      var nothing := RegNode(NOTHING);                 // null
      RegTail(ret, nothing, len + 6, pre + PlusCode(x0, -1));
    }

    lemma OptPieces(pre: seq<byte>, x: seq<byte>)
      ensures (pre + x)[..|pre|] == pre && (pre + x)[|pre|..] == x
      ensures var b := Node(BRANCH, 0); pre + b + x + b == pre + (b + x + b)
      ensures |OptCode(x, -1)| == |x| + 9 && (pre + OptCode(x, -1))[|pre|] == BRANCH
    {
      hide Node, EmptyBranch;
      HeadByte(pre, BRANCH, |x| + 3, x + EmptyBranch(-1));
      assert Node(BRANCH, |x| + 3) + (x + EmptyBranch(-1)) == OptCode(x, -1);
    }

    /** `x?`: (x|) */
    method EmitOpt(ret: int, ghost pre: seq<byte>, ghost x: seq<byte>, ghost t: nat, ghost x3: seq<byte>)
      requires t <= |x| && Operand(ret, pre, x, t, |x| + 3 - t, x3) && Room(9)
      modifies this`regcode, this`regsize, program
      ensures Valid() && program == old(program)
      ensures !old(Emitting()) ==> regcode == DUMMY && regsize == old(regsize) + 9
      ensures old(Emitting()) ==>
        regcode == old(regcode) + 9 && regsize == old(regsize) && Code() == pre + OptCode(x3, -1)
    {
      hide Hooks, HooksBack, Node, EmptyBranch, Code, OptCode;
      ghost var len, b0 := |x|, Node(BRANCH, 0);
      if Emitting() {
        OptSteps(pre, x, t, x3);
      }
      OptPieces(pre, x);
      RegInsert(BRANCH, ret);                          // either x
      var orNull := RegNode(BRANCH);                   // or
      RegTail(ret, orNull, 0, pre + (Node(BRANCH, len + 3) + x + b0));
      var next := RegNode(NOTHING);                    // null
      RegTail(ret, next, len + 3, pre + OptCode(x, -1));
      RegOpTail(ret, next, t, pre + OptCode(x3, -1));
    }

    /** The range loop of a bracket expression: the bytes above `lo` up to `hi`. */
    method RegRange(lo: byte, hi: byte)
      requires Valid() && Room(|Span(lo, hi)|)
      modifies this`regcode, this`regsize, program
      ensures Emitted(Span(lo, hi))
    {
      var class_: int := lo + 1;
      ghost var n := 0;
      while class_ <= hi
        invariant lo + 1 <= class_ && (class_ <= hi + 1 || class_ == lo + 1)
        invariant n <= |Span(lo, hi)| && Span(lo, hi)[n..] == Span(class_ - 1, hi)
        invariant Emitted(Span(lo, hi)[..n])
        decreases hi - class_
      {
        RegC(class_);
        assert Span(lo, hi)[..n + 1] == Span(lo, hi)[..n] + [class_];
        n := n + 1;
        class_ := class_ + 1;
      }
      assert Span(lo, hi)[..n] == Span(lo, hi);
    }

    /** One element of a bracket expression. */
    method RegItem() returns (ok: bool)
      requires Valid() && 1 <= regparse < |pattern| && pattern[regparse] != RBRACK
      requires Emitting() ==>
        var it := ParseItem(pattern, regparse); it.Ok? && Room(|ItemBytes(it.value)|)
      modifies this, program
      ensures var it := ParseItem(pattern, old(regparse));
        && ok == it.Ok?
        && (!ok ==> failure == it.error)
        && (ok ==> regparse == it.pos && regnpar == old(regnpar) && Emitted(ItemBytes(it.value)))
    {
      ok := true;
      if Peek(pattern, regparse) == HYPHEN {
        regparse := regparse + 1;
        if Peek(pattern, regparse) == RBRACK || Peek(pattern, regparse) == 0 {
          RegC(HYPHEN);
        } else {
          var lo, hi := pattern[regparse - 2], pattern[regparse];
          if lo as int + 1 > hi as int + 1 {
            failure := InvalidRange;
            ok := false;
            return;
          }
          RegRange(lo, hi);
          regparse := regparse + 1;
        }
      } else {
        RegC(pattern[regparse]);
        regparse := regparse + 1;
      }
    }

    lemma ItemsMore(a: seq<byte>, b: seq<byte>, n: nat)
      requires n <= |a|
      ensures (a + b)[n..] == a[n..] + b
      ensures forall c: seq<byte> :: c + a[n..] + b == c + (a[n..] + b)
    {
    }

    /** The elements of a bracket expression after those in `done`, and the NUL that ends its operand. */
    method RegItems(ghost done: seq<ClassItem>) returns (ok: bool)
      requires Valid() && 1 <= regparse
      requires Emitting() ==>
        var r := ParseItems(pattern, regparse, done);
        r.Ok? && Room(|ClassBytes(r.value)| - |ClassBytes(done)| + 1)
      modifies this, program
      ensures var r := ParseItems(pattern, old(regparse), done);
        && ok == r.Ok?
        && (!ok ==> failure == r.error)
        && (ok ==>
          && regparse == r.pos && regnpar == old(regnpar)
          && ClassBytes(done) <= ClassBytes(r.value)
          && Emitted(ClassBytes(r.value)[|ClassBytes(done)|..] + [0]))
    {
      hide ClassBytes, ItemBytes, ParseItem, Code;
      ghost var n := |ClassBytes(done)|;
      ghost var all := ParseItems(pattern, regparse, done);
      ghost var now := done;
      while Peek(pattern, regparse) != 0 && Peek(pattern, regparse) != RBRACK
        invariant Valid() && 1 <= regparse && regnpar == old(regnpar)
        invariant ParseItems(pattern, regparse, now) == all
        invariant ClassBytes(done) <= ClassBytes(now)
        invariant Emitted(ClassBytes(now)[n..])
        decreases |pattern| - regparse
      {
        ghost var it := ParseItem(pattern, regparse);
        if it.Ok? {
          ClassSnoc(now, it.value);
          if all.Ok? {
            ClassPrefix(now + [it.value], all.value);
          }
        }
        ok := RegItem();
        if !ok {
          return;
        }
        ItemsMore(ClassBytes(now), ItemBytes(it.value), n);
        now := now + [it.value];
      }
      RegC(0);
      if Peek(pattern, regparse) != RBRACK {
        failure := UnmatchedBracket;
        ok := false;
        return;
      }
      regparse := regparse + 1;
      ok := true;
    }

    /** The opcode of a bracket expression and its first byte where that is `]` or `-`. */
    method RegClassHead() returns (ghost done: seq<ClassItem>)
      requires Valid() && regparse > 0 && Room(4)
      modifies this, program
      ensures Valid() && regnpar == old(regnpar)
      ensures var neg := Peek(pattern, old(regparse)) == CARET;
        && done == ClassStart(pattern, old(regparse))
        && regparse == old(regparse) + (if neg then 1 else 0) + |done|
        && Emitted(Node(if neg then ANYBUT else ANYOF, 0) + ClassBytes(done))
    {
      hide Code, Node, ClassBytes;
      ClassOne(0);
      if Peek(pattern, regparse) == CARET {
        var _ := RegNode(ANYBUT);
        regparse := regparse + 1;
      } else {
        var _ := RegNode(ANYOF);
      }
      done := [];
      var first := Peek(pattern, regparse);
      if first == RBRACK || first == HYPHEN {
        ClassOne(first);
        RegC(first);
        regparse := regparse + 1;
        done := [Single(first)];
      }
    }

    /** The `[` case of `regatom`. */
    method RegClass() returns (ok: bool, ret: int)
      requires Valid() && regparse > 0
      requires Emitting() ==>
        var r := ParseClass(pattern, regparse, regnpar); r.Ok? && Room(AtomLen(r.value))
      modifies this, program
      ensures var r := ParseClass(pattern, old(regparse), old(regnpar));
        && ok == r.Ok?
        && (!ok ==> failure == r.error)
        && (ok ==> regparse == r.pos && regnpar == r.npar && ret == old(regcode) && Emitted(AtomCode(r.value, -1)))
    {
      hide ClassBytes, ItemBytes, ParseItems, Node, AtomCode;
      ghost var neg := Peek(pattern, regparse) == CARET;
      ghost var r := ParseClass(pattern, regparse, regnpar);
      if Emitting() {
        ClassStartFits(pattern, regparse, regnpar);
      }
      ret := regcode;
      ghost var done := RegClassHead();
      ok := RegItems(done);
      if ok {
        ClassCode(neg, r.value.items, ClassBytes(done));
      }
    }

    lemma LiteralMore(n: seq<byte>, s: seq<byte>, start: nat, k: nat)
      requires start <= k < |s|
      ensures forall c: seq<byte> :: c + (n + s[start..k]) + [s[k]] == c + (n + s[start..k + 1])
    {
      assert s[start..k + 1] == s[start..k] + [s[k]];
    }

    lemma LiteralDone(n: seq<byte>, s: seq<byte>)
      ensures forall c: seq<byte> :: c + (n + s) + [0] == c + (n + (s + [0]))
    {
    }

    /** An EXACTLY node for the next `len` bytes of the pattern. */
    method RegLiteral(len: nat) returns (ret: int)
      requires Valid() && regparse + len <= |pattern| && Room(4 + len)
      modifies this, program
      ensures regparse == old(regparse) + len && regnpar == old(regnpar) && ret == old(regcode)
      ensures Emitted(Node(EXACTLY, 0) + (pattern[old(regparse)..old(regparse) + len] + [0]))
    {
      hide Node, Code;
      ret := RegNode(EXACTLY);
      ghost var start := regparse;
      var left := len;
      while left > 0
        invariant 0 <= left <= len
        invariant Valid() && regparse == start + len - left && regnpar == old(regnpar)
        invariant Emitted(Node(EXACTLY, 0) + pattern[start..regparse])
      {
        LiteralMore(Node(EXACTLY, 0), pattern, start, regparse);
        RegC(pattern[regparse]);
        regparse := regparse + 1;
        left := left - 1;
      }
      LiteralDone(Node(EXACTLY, 0), pattern[start..regparse]);
      RegC(0);
    }

    /** The cases of `regatom` that neither recurse nor scan a bracket expression. */
    method RegOrdinary() returns (ok: bool, ret: int, flags: Flags)
      requires Valid() && Peek(pattern, regparse) !in {LBRACK, LPAREN}
      requires Emitting() ==>
        var r := ParseAtom(pattern, regparse, regnpar); r.Ok? && Room(AtomLen(r.value))
      modifies this, program
      ensures AtomRead(ParseAtom(pattern, old(regparse), old(regnpar)), ok, ret, flags)
    {
      hide ClassBytes, ParseItems, ParseReg, Node, Code, AltsCode, AltsLen, WideAlts, SpStartAlts;
      ok := true;
      ret := regcode;
      flags := Flags(false, false, false);
      var c := Peek(pattern, regparse);
      if c == CARET {
        ret := RegNode(BOL);
        regparse := regparse + 1;
      } else if c == DOLLAR {
        ret := RegNode(EOL);
        regparse := regparse + 1;
      } else if c == DOT {
        ret := RegNode(ANY);
        regparse := regparse + 1;
        flags := Flags(true, true, false);
      } else if EndsBranch(c) {
        failure := InternalUrp;
        ok := false;
      } else if IsMult(c) {
        failure := FollowsNothing;
        ok := false;
      } else if c == BACKSLASH {
        ok, ret, flags := RegEscaped();
      } else {
        ret, flags := RegRun();
      }
    }

    /** A backslash and the byte it makes literal. */
    method RegEscaped() returns (ok: bool, ret: int, flags: Flags)
      requires Valid() && Peek(pattern, regparse) == BACKSLASH
      requires Emitting() ==>
        var r := ParseAtom(pattern, regparse, regnpar); r.Ok? && Room(AtomLen(r.value))
      modifies this, program
      ensures AtomRead(ParseAtom(pattern, old(regparse), old(regnpar)), ok, ret, flags)
    {
      hide ClassBytes, ParseItems, ParseReg, Node, Code, AltsCode, AltsLen, WideAlts, SpStartAlts;
      regparse := regparse + 1;
      if Peek(pattern, regparse) == 0 {
        failure := TrailingBackslash;
        return false, regcode, Flags(false, false, false);
      }
      ghost var b := pattern[regparse];
      ret := RegLiteral(1);
      assert pattern[regparse - 1..regparse] == [b];
      return true, ret, Flags(true, true, false);
    }

    /** A run of ordinary bytes; a repetition mark behind it takes only the last of them. */
    method RegRun() returns (ret: int, flags: Flags)
      requires Valid() && (var c := Peek(pattern, regparse);
        c !in {CARET, DOLLAR, DOT, LBRACK, LPAREN, BACKSLASH} && !EndsBranch(c) && !IsMult(c))
      requires Emitting() ==>
        var r := ParseAtom(pattern, regparse, regnpar); r.Ok? && Room(AtomLen(r.value))
      modifies this, program
      ensures AtomRead(ParseAtom(pattern, old(regparse), old(regnpar)), true, ret, flags)
    {
      hide ClassBytes, ParseItems, ParseReg, Node, Code, AltsCode, AltsLen, WideAlts, SpStartAlts;
      var len := PlainRun(pattern, regparse);
      var ender := Peek(pattern, regparse + len);
      if len > 1 && IsMult(ender) {
        len := len - 1;
      }
      flags := Flags(true, len == 1, false);
      ret := RegLiteral(len);
    }

    /** `regatom` */
    method RegAtom() returns (ok: bool, ret: int, flags: Flags)
      requires Valid()
      requires Emitting() ==>
        var r := ParseAtom(pattern, regparse, regnpar); r.Ok? && Room(AtomLen(r.value))
      modifies this, program
      ensures AtomRead(ParseAtom(pattern, old(regparse), old(regnpar)), ok, ret, flags)
      decreases |pattern| - regparse, 0
    {
      hide ClassBytes, ParseItems, ParseClass, Node, Code, AtomCode, AtomLen;
      var c := Peek(pattern, regparse);
      if c == LBRACK {
        regparse := regparse + 1;
        ok, ret := RegClass();
        flags := Flags(true, true, false);
      } else if c == LPAREN {
        regparse := regparse + 1;
        var inner;
        ok, ret, inner := Reg(true);
        flags := Flags(inner.hasWidth, false, inner.spStart);
      } else {
        ok, ret, flags := RegOrdinary();
      }
    }

    /** STAR or PLUS in front of a simple operand. */
    method EmitRepeat(op: byte, ret: int, ghost pre: seq<byte>, ghost x: seq<byte>)
      requires Valid() && Room(3) && (ret == DUMMY <==> !Emitting()) && (Emitting() ==> ret == |pre| && Code() == pre + x)
      modifies this`regcode, this`regsize, program
      ensures Valid() && program == old(program)
      ensures !old(Emitting()) ==> regcode == DUMMY && regsize == old(regsize) + 3
      ensures old(Emitting()) ==>
        regcode == old(regcode) + 3 && regsize == old(regsize) && Code() == pre + RepeatCode(op, x, -1)
    {
      hide Node, Code;
      RegInsert(op, ret);
      assert (pre + x)[..|pre|] == pre && (pre + x)[|pre|..] == x;
      assert Emitting() ==> Code() == pre + RepeatCode(op, x, -1);
    }

    /** The part of `regpiece` that emits the multiplier `op` for the operand `a`, which stands at `ret`. */
    method EmitMult(op: byte, simple: bool, ret: int, ghost pre: seq<byte>, ghost a: Atom)
      requires Valid() && (op == STAR || op == PLUS || op == QUERY) && simple == SimpleAtom(a)
      requires ret == DUMMY <==> !Emitting()
      requires Emitting() ==> ret == |pre| && Code() == pre + AtomCode(a, -1)
      requires var q := Piece(a, MultOf(op)); AtomLen(a) <= PieceLen(q) && Shaped(q) && Room(PieceLen(q) - AtomLen(a))
      modifies this`regcode, this`regsize, program
      ensures var q := Piece(a, MultOf(op));
        && Valid() && program == old(program)
        && (!old(Emitting()) ==> regcode == DUMMY && regsize == old(regsize) + PieceLen(q) - AtomLen(a))
        && (old(Emitting()) ==>
          regcode == old(regcode) + PieceLen(q) - AtomLen(a) && regsize == old(regsize) && Code() == pre + PieceCode(q, -1))
    {
      hide Hooks, Node, AtomCode, StarCode, PlusCode, OptCode, RepeatCode, Code, AtomLen, AtomTail, PieceCode, PieceLen, SimpleAtom,
        FlagsOfPiece, FlagsOfAtom, WideAtom, SpStartAtom;
      ghost var x, t := AtomCode(a, -1), AtomTail(a);
      if Emitting() {
        AtomHook(a, 0);
        AtomHook(a, 3);
      }
      if op == STAR && simple {
        EmitRepeat(STARNODE, ret, pre, x);
      } else if op == STAR {
        EmitStar(ret, pre, x, t, AtomCode(a, 0));
      } else if op == PLUS && simple {
        EmitRepeat(PLUSNODE, ret, pre, x);
      } else if op == PLUS {
        EmitPlus(ret, pre, x, t, AtomCode(a, 0));
      } else if op == QUERY {
        EmitOpt(ret, pre, x, t, AtomCode(a, 3));
      }
    }

    /** The steps of parsing a piece. */
    lemma PieceCases(p: seq<byte>, pos: nat, npar: nat)
      requires pos <= |p|
      ensures var a, r := ParseAtom(p, pos, npar), ParsePiece(p, pos, npar);
        if a.Err? then r == Err(a.error)
        else
          var op := Peek(p, a.pos);
          var q := Piece(a.value, MultOf(op));
          && IsMult(op) == (op == STAR || op == PLUS || op == QUERY)
          && AtomFlags(a.value) && AtomLen(a.value) <= PieceLen(q) && Shaped(q)
          && if !IsMult(op) then r == Ok(q, a.pos, a.npar) && op != STAR && op != PLUS && op != QUERY
             else if !WideAtom(a.value) && op != QUERY then r == Err(EmptyOperand)
             else r == if IsMult(Peek(p, a.pos + 1)) then Err(NestedMult) else Ok(q, a.pos + 1, a.npar)
    {
      hide ParseAtom, AtomLen, WideAtom, AtomCode, StarCode, PlusCode, OptCode, RepeatCode, SimpleAtom, SpStartAtom;
    }

    ghost predicate AtomFlags(a: Atom) {
      FlagsOfAtom(a) == Flags(WideAtom(a), SimpleAtom(a), SpStartAtom(a))
    }

    /** The code and the flags of a piece, by its multiplier. */
    ghost predicate Shaped(q: Piece) {
      match q.mult
      case One => PieceCode(q, -1) == AtomCode(q.atom, -1) && FlagsOfPiece(q) == FlagsOfAtom(q.atom)
      case ZeroOrMore =>
        && FlagsOfPiece(q) == Flags(false, false, true)
        && if SimpleAtom(q.atom)
           then PieceCode(q, -1) == RepeatCode(STARNODE, AtomCode(q.atom, -1), -1) && PieceLen(q) == AtomLen(q.atom) + 3
           else PieceCode(q, -1) == StarCode(AtomCode(q.atom, 0), -1) && PieceLen(q) == AtomLen(q.atom) + 12
      case OneOrMore =>
        && FlagsOfPiece(q) == Flags(true, false, false)
        && if SimpleAtom(q.atom)
           then PieceCode(q, -1) == RepeatCode(PLUSNODE, AtomCode(q.atom, -1), -1) && PieceLen(q) == AtomLen(q.atom) + 3
           else PieceCode(q, -1) == PlusCode(AtomCode(q.atom, 0), -1) && PieceLen(q) == AtomLen(q.atom) + 12
      case ZeroOrOne =>
        && FlagsOfPiece(q) == Flags(false, false, true)
        && PieceCode(q, -1) == OptCode(AtomCode(q.atom, 3), -1) && PieceLen(q) == AtomLen(q.atom) + 9
    }

    /** `regpiece` */
    method RegPiece() returns (ok: bool, ret: int, flags: Flags)
      requires Valid()
      requires Emitting() ==>
        var r := ParsePiece(pattern, regparse, regnpar); r.Ok? && Room(PieceLen(r.value))
      modifies this, program
      ensures var r := ParsePiece(pattern, old(regparse), old(regnpar));
        && ok == r.Ok?
        && (!ok ==> failure == r.error)
        && (ok ==>
          && regparse == r.pos && regnpar == r.npar && ret == old(regcode)
          && flags == FlagsOfPiece(r.value) && Emitted(PieceCode(r.value, -1)))
      decreases |pattern| - regparse, 1, 0
    {
      hide Hooks, Node, AtomCode, StarCode, PlusCode, OptCode, Code, AtomLen, ParseAtom, ParsePiece, WideAtom, SpStartAtom,
        PieceCode, PieceLen, FlagsOfPiece, FlagsOfAtom, SimpleAtom, IsMult, Peek;
      ghost var a := ParseAtom(pattern, regparse, regnpar);
      PieceCases(pattern, regparse, regnpar);
      ghost var pre := if Emitting() then Code() else [];
      var atom;
      ok, ret, atom := RegAtom();
      flags := atom;
      if !ok {
        return;
      }
      var op := Peek(pattern, regparse);
      if !IsMult(op) {
        return;
      }
      if !atom.hasWidth && op != QUERY {
        failure := EmptyOperand;
        ok := false;
        return;
      }
      flags := if op != PLUS then Flags(false, false, true) else Flags(true, false, false);
      EmitMult(op, atom.simple, ret, pre, a.value);
      regparse := regparse + 1;
      if IsMult(Peek(pattern, regparse)) {
        failure := NestedMult;
        ok := false;
      }
    }

    /** Links the piece before to the piece `q` just emitted. */
    method HookPiece(chain: int, latest: int, ghost head: seq<byte>, ghost done: seq<Piece>, ghost q: Piece)
      requires Valid() && |done| > 0 && (chain == DUMMY <==> !Emitting())
      requires Emitting() ==>
        && Code() == head + PiecesCode(done, -1) + PieceCode(q, -1)
        && chain == |head| + PiecesLen(done[..|done| - 1]) && latest == |head| + PiecesLen(done)
      modifies program
      ensures Valid() && (Emitting() ==> Code() == head + PiecesCode(done + [q], -1))
    {
      hide PieceCode, PieceLen, Hooks, PieceTail, PiecesCode, PiecesLen, Code;
      if Emitting() {
        PieceChainStep(head, done, q);
      }
      RegTail(chain, latest, PieceTail(done[|done| - 1]), head + PiecesCode(done + [q], -1));
    }

    /** One more piece of a branch, or its end. */
    lemma BranchCases(p: seq<byte>, pos: nat, npar: nat, done: seq<Piece>)
      requires pos <= |p|
      ensures var r, q := ParseBranch(p, pos, npar, done), ParsePiece(p, pos, npar);
        if EndsBranch(Peek(p, pos)) then r == Ok(done, pos, npar)
        else if q.Err? then r == Err(q.error)
        else
          && r == ParseBranch(p, q.pos, q.npar, done + [q.value])
          && (r.Ok? ==> PiecesLen(done + [q.value]) <= BodyLen(r.value))
      ensures BodyIs(done)
    {
      hide ParsePiece, EndsBranch, Peek, PieceLen, WidePieces, SpStartPieces;
      var r, q := ParseBranch(p, pos, npar, done), ParsePiece(p, pos, npar);
      if r.Ok? && q.Ok? && !EndsBranch(Peek(p, pos)) {
        PiecesPrefix(done + [q.value], r.value);
      }
    }

    /** A branch without pieces is a NOTHING node. */
    ghost predicate BodyIs(ps: seq<Piece>) {
      BodyCode(ps, -1) == (if |ps| == 0 then Node(NOTHING, 0) else PiecesCode(ps, -1))
      && BodyLen(ps) == if |ps| == 0 then 3 else PiecesLen(ps)
    }

    /** `regbranch` */
    method RegBranch() returns (ok: bool, ret: int, flags: Flags)
      requires Valid()
      requires Emitting() ==>
        var r := ParseBranch(pattern, regparse, regnpar, []); r.Ok? && Room(3 + BodyLen(r.value))
      modifies this, program
      ensures var r := ParseBranch(pattern, old(regparse), old(regnpar), []);
        && ok == r.Ok?
        && (!ok ==> failure == r.error)
        && (ok ==>
          && regparse == r.pos && regnpar == r.npar && ret == old(regcode)
          && flags == Flags(WidePieces(r.value), false, SpStartPieces(r.value))
          && Emitted(Node(BRANCH, 0) + BodyCode(r.value, -1)))
      decreases |pattern| - regparse, 2
    {
      hide Node, PieceCode, PieceLen, Code, ParsePiece, PiecesLen, PiecesCode, WidePieces, SpStartPieces, EndsBranch, Peek, ParseBranch,
        BodyCode, BodyLen, ChainAt;
      ghost var all := ParseBranch(pattern, regparse, regnpar, []);
      ghost var done: seq<Piece> := [];
      ghost var head := if Emitting() then Code() + Node(BRANCH, 0) else [];
      NoPieces();
      flags := Flags(false, false, false);
      ok := true;
      ret := RegNode(BRANCH);
      var chain := NULL;
      NoChain(head);
      assert Emitting() ==> head + [] == head;
      while !EndsBranch(Peek(pattern, regparse))
        invariant Valid() && old(regparse) <= regparse && program == old(program)
        invariant ParseBranch(pattern, regparse, regnpar, done) == all
        invariant if old(Emitting())
          then Emitting() && Code() == head + PiecesCode(done, -1) && regsize == old(regsize)
          else !Emitting() && regsize == old(regsize) + 3 + PiecesLen(done)
        invariant flags == Flags(WidePieces(done), false, SpStartPieces(done)) && ChainAt(chain, head, done)
        decreases |pattern| - regparse
      {
        ghost var q := ParsePiece(pattern, regparse, regnpar);
        BranchCases(pattern, regparse, regnpar, done);
        if q.Ok? { PiecesSnoc(done, q.value, -1); }
        ok, chain, flags := NextPiece(chain, flags, head, done);
        if !ok {
          return;
        }
        done := done + [q.value];
      }
      BranchCases(pattern, regparse, regnpar, done);
      BranchEnds(chain, head, done);
      if chain == NULL {
        var _ := RegNode(NOTHING);
      }
    }

    /** Where the last piece of a branch starts; NULL before the first. */
    ghost predicate ChainAt(chain: int, head: seq<byte>, done: seq<Piece>)
      reads this
    {
      && (done == [] <==> chain == NULL)
      && (done != [] ==> if Emitting() then chain == |head| + PiecesLen(done[..|done| - 1]) else chain == DUMMY)
    }

    lemma NoChain(head: seq<byte>)
      ensures ChainAt(NULL, head, [])
    {
    }

    lemma BranchEnds(chain: int, head: seq<byte>, done: seq<Piece>)
      requires ChainAt(chain, head, done)
      ensures done == [] <==> chain == NULL
      ensures done == [] ==> PiecesCode(done, -1) == [] && PiecesLen(done) == 0 && head + PiecesCode(done, -1) == head
    {
      NoPieces();
    }

    /** One round of the loop of `regbranch`: the next piece is emitted and linked to. */
    method NextPiece(chain0: int, flags0: Flags, ghost head: seq<byte>, ghost done: seq<Piece>) returns (ok: bool, chain: int, flags: Flags)
      requires Valid() && flags0 == Flags(WidePieces(done), false, SpStartPieces(done)) && ChainAt(chain0, head, done)
      requires Emitting() ==>
        var q := ParsePiece(pattern, regparse, regnpar);
        Code() == head + PiecesCode(done, -1) && q.Ok? && Room(PieceLen(q.value))
      modifies this, program
      ensures var q := ParsePiece(pattern, old(regparse), old(regnpar));
        && ok == q.Ok?
        && (!ok ==> failure == q.error)
        && (ok ==>
          var now := done + [q.value];
          && Valid() && program == old(program) && regparse == q.pos && regnpar == q.npar
          && flags == Flags(WidePieces(now), false, SpStartPieces(now)) && ChainAt(chain, head, now)
          && if old(Emitting())
             then Emitting() && Code() == head + PiecesCode(now, -1) && regsize == old(regsize)
             else !Emitting() && regsize == old(regsize) + PieceLen(q.value))
      decreases |pattern| - regparse, 1, 1
    {
      hide Node, PieceCode, PieceLen, Hooks, PieceTail, Code, ParsePiece, PiecesLen, PiecesCode, WidePieces, SpStartPieces;
      ghost var q := ParsePiece(pattern, regparse, regnpar);
      var piece;
      ok, chain, piece := RegPiece();
      flags := flags0;
      if !ok {
        return;
      }
      NoPieces();
      PiecesSnoc(done, q.value, -1);
      WideSnoc(done, q.value);
      flags := flags.(hasWidth := flags.hasWidth || piece.hasWidth);
      if chain0 == NULL {
        flags := flags.(spStart := piece.spStart);
      } else {
        HookPiece(chain0, chain, head, done, q.value);
      }
      assert (done + [q.value])[..|done|] == done;
    }

    /** Links the chain that starts at `ret` to the branch or closing node just emitted as `rest`. */
    method HookAlts(ret: int, val: int, ghost pre: seq<byte>, ghost h: seq<byte>, ghost bs: seq<Branch>, ghost rest: seq<byte>)
      requires Valid() && |bs| > 0 && (ret == DUMMY <==> !Emitting()) && IsOpen(h)
      requires Emitting() ==> ret == |pre| && val == |pre| + |h| + AltsLen(bs) && Code() == pre + (h + OpenAlts(bs) + rest)
      modifies program
      ensures Valid() && (Emitting() ==> Code() == pre + (h + LinkedAlts(bs) + rest))
    {
      hide Hooks, OpenAlts, AltsLen, LinkedAlts, BranchPos, Code, IsOpen;
      if Emitting() {
        AltsHook(pre, h, bs, rest);
      }
      RegTail(ret, val, |h| + BranchPos(bs, |bs| - 1), pre + (h + LinkedAlts(bs) + rest));
    }

    /** One round of the loop that hooks the branches to the closing node. */
    method CloseNext(br: int, ender: int, op: byte, ghost pre: seq<byte>, ghost h: seq<byte>, ghost bs: seq<Branch>, ghost k: int)
      returns (next: int)
      requires Valid() && -1 <= k <= |bs| && (br == DUMMY <==> !Emitting()) && IsOpen(h) && op != BRANCH
      requires k == -1 ==> h != []
      requires Emitting() ==>
        && Code() == CloseCode(pre, h, bs, Node(op, 0), k)
        && br == ClosePos(pre, h, bs, k) && ender == ClosePos(pre, h, bs, |bs|)
      modifies program
      ensures Valid() && (!Emitting() ==> next == NULL)
      ensures Emitting() && k < |bs| ==>
        Code() == CloseCode(pre, h, bs, Node(op, 0), k + 1) && next == ClosePos(pre, h, bs, k + 1)
      ensures Emitting() && k == |bs| ==> Code() == old(Code()) && next == NULL
    {
      hide CloseCode, Node, Code, Hooks, BodyTail, IsOpen;
      ghost var e := Node(op, 0);
      ghost var c := if !Emitting() then [] else if 0 <= k < |bs| then CloseCode(pre, h, bs, e, k + 1) else Code();
      if Emitting() {
        if k == -1 {
          CloseFirst(pre, h, bs, e);
        } else if k == |bs| {
          CloseLast(pre, h, bs, op);
        } else {
          CloseStep(pre, h, bs, e, k);
          CloseNode(pre, h, bs, e, k, k);
          CloseNode(pre, h, bs, e, k + 1, k);
        }
      }
      RegOpTail(br, ender, if 0 <= k < |bs| then BodyTail(bs[k].pieces) else 0, c);
      next := RegNext(br);
      if Emitting() && k == -1 {
        CloseStart(pre, h, bs, e);
      }
    }

    /** The closing node of `reg`, and the tails of all branches hooked to it. */
    method RegClose(ret: int, op: byte, ghost pre: seq<byte>, ghost h: seq<byte>, ghost bs: seq<Branch>)
      requires Valid() && |bs| > 0 && (ret == DUMMY <==> !Emitting()) && Room(3) && IsOpen(h) && op != BRANCH
      requires Emitting() ==> ret == |pre| && Code() == pre + (h + OpenAlts(bs))
      modifies this`regcode, this`regsize, program
      ensures Valid() && program == old(program)
      ensures !old(Emitting()) ==> regcode == DUMMY && regsize == old(regsize) + 3
      ensures old(Emitting()) ==>
        regcode == old(regcode) + 3 && regsize == old(regsize) && Code() == pre + (h + AltsCode(bs) + Node(op, 0))
    {
      hide OpenAlts, AltsCode, LinkedAlts, Node, HookedAlts, Code, IsOpen;
      var ender := RegNode(op);
      ghost var e := Node(op, 0);
      assert Emitting() ==> Code() == pre + (h + OpenAlts(bs) + e);
      HookAlts(ret, ender, pre, h, bs, e);
      OpenClose(bs);
      HookedAll(bs);
      var br := ret;
      ghost var n: int := |bs|;
      ghost var k := if h == [] then 0 else -1;
      while br != NULL
        invariant Valid() && Emitting() == old(Emitting()) && program == old(program)
        invariant regcode == old(regcode) + (if Emitting() then 3 else 0) && regsize == old(regsize) + if Emitting() then 0 else 3
        invariant -1 <= k <= n + 1 && (k == -1 ==> h != [])
        invariant !Emitting() ==> br == NULL || (br == DUMMY && k <= 0)
        invariant Emitting() && k <= n ==> Code() == CloseCode(pre, h, bs, e, k) && br == ClosePos(pre, h, bs, k)
        invariant Emitting() && k == n + 1 ==> Code() == CloseCode(pre, h, bs, e, n) && br == NULL
        decreases n + 1 - k
      {
        br := CloseNext(br, ender, op, pre, h, bs, k);
        k := k + 1;
      }
    }

    /** The start of `reg`: the OPEN node, if any, and the first branch. */
    method RegStart(paren: bool) returns (ok: bool, ret: int, flags: Flags, ghost bs: seq<Branch>)
      requires Valid() && (paren ==> regnpar < NSUBEXP)
      requires Emitting() ==>
        var r := ParseBranch(pattern, regparse, if paren then regnpar + 1 else regnpar, []);
        r.Ok? && Room(3 + BodyLen(r.value) + if paren then 3 else 0)
      modifies this, program
      ensures var r := ParseBranch(pattern, old(regparse), if paren then old(regnpar) + 1 else old(regnpar), []);
        && ok == r.Ok?
        && (!ok ==> failure == r.error)
        && (ok ==>
          && Valid() && bs == [Branch(r.value)]
          && regparse == r.pos && regnpar == r.npar && ret == old(regcode)
          && flags == Flags(WideAlts(bs), false, SpStartAlts(bs))
          && Emitted((if paren then Node(OPEN + old(regnpar), 3) else []) + OpenAlts(bs)))
      decreases |pattern| - regparse, 3
    {
      hide OpenAlts, Node, Code, BodyCode, BodyLen, ParseBranch, IsOpen, WideAlts, SpStartAlts, WidePieces, SpStartPieces, Hooks;
      ghost var pre := if Emitting() then Code() else [];
      bs := [];
      flags := Flags(false, false, false);
      if !paren {
        ghost var b := ParseBranch(pattern, regparse, regnpar, []);
        ok, ret, flags := RegBranch();
        if ok {
          OneAlt(b.value);
          bs := [Branch(b.value)];
          assert [] + OpenAlts(bs) == OpenAlts(bs);
        }
        return;
      }
      var parno := regnpar;
      regnpar := regnpar + 1;
      ret := RegNode(OPEN + parno);
      ghost var b := ParseBranch(pattern, regparse, regnpar, []);
      var br;
      ok, br, flags := RegBranch();
      if !ok {
        return;
      }
      OneAlt(b.value);
      bs := [Branch(b.value)];
      OpenNode(pre, parno, OpenAlts(bs));
      assert Emitting() ==> Code() == pre + (Node(OPEN + parno, 0) + OpenAlts(bs));
      RegTail(ret, br, 0, pre + (Node(OPEN + parno, 3) + OpenAlts(bs)));
    }

    /** The steps of parsing an expression, and that a branch of it is no longer than the whole. */
    lemma RegCases(p: seq<byte>, pos: nat, npar: nat, paren: bool)
      requires pos <= |p|
      ensures var r, b := ParseReg(p, pos, npar, paren), ParseBranch(p, pos, if paren then npar + 1 else npar, []);
        if paren && npar >= NSUBEXP then r == Err(TooManyParens)
        else if b.Err? then r == Err(b.error)
        else
          var m := ParseMore(p, b.pos, b.npar, [Branch(b.value)]);
          if m.Err? then r == Err(m.error)
          else
            && 3 + BodyLen(b.value) <= AltsLen(m.value)
            && if paren then r == if Peek(p, m.pos) == RPAREN then Ok(m.value, m.pos + 1, m.npar) else Err(UnmatchedParen)
               else r == if Peek(p, m.pos) == 0 then m else Err(if Peek(p, m.pos) == RPAREN then UnmatchedParen else JunkOnEnd)
    {
      hide ParseBranch, ParseMore, BodyLen, AltsLen;
      var b := ParseBranch(p, pos, if paren then npar + 1 else npar, []);
      if b.Ok? {
        var m := ParseMore(p, b.pos, b.npar, [Branch(b.value)]);
        if m.Ok? {
          BranchFits([], b.value, m.value);
          NoAlts();
        }
      }
    }

    lemma RegCodeIs(paren: bool, no: nat, bs: seq<Branch>)
      ensures paren && no < NSUBEXP ==> RegCode(paren, no, bs) == Node(OPEN + no, 3) + AltsCode(bs) + Node(CLOSE + no, 0)
      ensures !paren ==> RegCode(paren, no, bs) == [] + AltsCode(bs) + Node(END, 0)
    {
      hide AltsCode, Node;
      assert [] + AltsCode(bs) == AltsCode(bs);
    }

    /** `reg` */
    method Reg(paren: bool) returns (ok: bool, ret: int, flags: Flags)
      requires Valid()
      requires Emitting() ==>
        var r := ParseReg(pattern, regparse, regnpar, paren); r.Ok? && Room(|RegCode(paren, regnpar, r.value)|)
      modifies this, program
      ensures var r := ParseReg(pattern, old(regparse), old(regnpar), paren);
        && ok == r.Ok?
        && (!ok ==> failure == r.error)
        && (ok ==>
          && regparse == r.pos && regnpar == r.npar && ret == old(regcode)
          && flags == Flags(WideAlts(r.value), false, SpStartAlts(r.value))
          && Emitted(RegCode(paren, old(regnpar), r.value)))
      decreases |pattern| - regparse, 4
    {
      hide OpenAlts, AltsCode, Node, Code, BodyCode, BodyLen, AltsLen, ParseReg, ParseBranch, ParseMore, IsOpen, WideAlts,
        SpStartAlts, RegCode, Peek;
      RegCases(pattern, regparse, regnpar, paren);
      ghost var pre := if Emitting() then Code() else [];
      var parno := regnpar;
      if paren && parno >= NSUBEXP {
        failure := TooManyParens;
        ok, ret, flags := false, NULL, Flags(true, false, false);
        return;
      }
      ghost var bs;
      ok, ret, flags, bs := RegStart(paren);
      if !ok {
        return;
      }
      ghost var h := if paren then Node(OPEN + parno, 3) else [];
      if paren { IsOpenNode(OPEN + parno); } else { IsOpenEmpty(); }
      ok, flags, bs := RegMore(ret, pre, h, bs, flags);
      if !ok {
        return;
      }
      RegClose(ret, if paren then CLOSE + parno else END, pre, h, bs);
      RegCodeIs(paren, parno, bs);
      if paren {
        if Peek(pattern, regparse) != RPAREN {
          failure := UnmatchedParen;
          ok := false;
        } else {
          regparse := regparse + 1;
        }
      } else if Peek(pattern, regparse) != 0 {
        failure := if Peek(pattern, regparse) == RPAREN then UnmatchedParen else JunkOnEnd;
        ok := false;
      }
    }

    /** The loop of `reg` over `|`. */
    method RegMore(ret: int, ghost pre: seq<byte>, ghost h: seq<byte>, ghost done: seq<Branch>, flags0: Flags)
      returns (ok: bool, flags: Flags, ghost bs: seq<Branch>)
      requires Valid() && |done| > 0 && IsOpen(h) && (ret == DUMMY <==> !Emitting())
      requires flags0 == Flags(WideAlts(done), false, SpStartAlts(done))
      requires Emitting() ==> ret == |pre| && Code() == pre + (h + OpenAlts(done))
      requires Emitting() ==>
        var r := ParseMore(pattern, regparse, regnpar, done); r.Ok? && |pre| + |h| + AltsLen(r.value) <= program.Length
      modifies this, program
      ensures var r := ParseMore(pattern, old(regparse), old(regnpar), done);
        && ok == r.Ok?
        && (!ok ==> failure == r.error)
        && (ok ==>
          && Valid() && program == old(program) && bs == r.value && regparse == r.pos && regnpar == r.npar
          && flags == Flags(WideAlts(bs), false, SpStartAlts(bs))
          && if old(Emitting())
             then Emitting() && Code() == pre + (h + OpenAlts(bs)) && regsize == old(regsize)
             else !Emitting() && regsize == old(regsize) + AltsLen(bs) - AltsLen(done))
      decreases |pattern| - regparse, 3
    {
      hide OpenAlts, AltsCode, LinkedAlts, Node, HookedAlts, Code, BodyCode, BodyLen, AltsLen, ParseBranch, IsOpen,
        WideAlts, SpStartAlts, WidePieces, SpStartPieces, Hooks;
      ghost var all := ParseMore(pattern, regparse, regnpar, done);
      bs := done;
      flags := flags0;
      ok := true;
      while Peek(pattern, regparse) == BAR
        invariant Valid() && old(regparse) <= regparse && program == old(program) && |bs| > 0
        invariant ParseMore(pattern, regparse, regnpar, bs) == all
        invariant flags == Flags(WideAlts(bs), false, SpStartAlts(bs))
        invariant if old(Emitting())
          then Emitting() && Code() == pre + (h + OpenAlts(bs)) && regsize == old(regsize)
          else !Emitting() && regsize == old(regsize) + AltsLen(bs) - AltsLen(done)
        decreases |pattern| - regparse
      {
        regparse := regparse + 1;
        ghost var b := ParseBranch(pattern, regparse, regnpar, []);
        if Emitting() {
          BranchFits(bs, b.value, all.value);
        }
        var br, branch;
        ok, br, branch := RegBranch();
        if !ok {
          return;
        }
        OneAlt(b.value);
        assert Emitting() ==> Code() == pre + (h + OpenAlts(bs) + OpenAlts([Branch(b.value)]));
        HookAlts(ret, br, pre, h, bs, OpenAlts([Branch(b.value)]));
        OpenExtend(bs, Branch(b.value));
        AltsSnoc(bs, Branch(b.value));
        AltsFlagsSnoc(bs, Branch(b.value));
        assert Emitting() ==> Code() == pre + (h + OpenAlts(bs + [Branch(b.value)]));
        flags := Flags(flags.hasWidth && branch.hasWidth, false, flags.spStart || branch.spStart);
        bs := bs + [Branch(b.value)];
      }
    }
  }

  /** The first pass decides and counts; the second emits exactly as many bytes as the first counted. */
  method TwoPasses(exp: seq<byte>) returns (ok: bool, program: seq<byte>, spStart: bool, error: Error)
    requires CString(exp)
    ensures ok <==> Parse(exp).Ok? && AltsLen(Parse(exp).value) + 4 < 32767
    ensures ok ==> program == [MAGIC] + (AltsCode(Parse(exp).value) + Node(END, 0))
    ensures ok ==> spStart == SpStartAlts(Parse(exp).value)
    ensures !ok ==> error == if Parse(exp).Err? then Parse(exp).error else TooBig
  {
    hide ParseReg, AltsCode, AltsLen, Node, SpStartAlts, WideAlts, AtomCode;
    program, spStart, error := [], false, TooBig;
    var c := new Compiler(exp);
    c.RegC(MAGIC);
    var first, flags;
    ok, first, flags := c.Reg(false);
    if !ok {
      error := c.failure;
      return;
    }
    if c.regsize >= 32767 {
      ok := false;
      return;
    }
    c.program := new byte[c.regsize];
    c.regparse, c.regnpar, c.regcode := 0, 1, 0;
    assert c.Code() == [];
    c.RegC(MAGIC);
    assert c.Code() == [MAGIC];
    ok, first, flags := c.Reg(false);
    spStart := flags.spStart;
    program := c.program[..];
    assert program == c.Code();
  }
}
