/**
  The backtracking machine: `regmatch` runs the byte code from a node on, calling
  itself where it may have to try something else, and `regrepeat` counts the
  matches of a simple operand. Both advance the field `reginput`.
*/
module RegexMatcher {
  import opened RegexSyntax
  import opened RegexCode
  import opened RegexMeaning
  import opened RegexPaths

  // ------------------------------------------------ single-node matches

  /** What a run answers, or that it reads a byte outside the memory, where C leaves everything open. */
  datatype Verdict = Matched | Failed | Strayed

  /** A test that stays in the memory ends in one place. */
  lemma StepsOnce(a: Atom, x: Subject, i: nat, j: nat)
    requires !a.Group? && MatchAtom(a, x, i, j)
    ensures j <= Limit(x) || (SimpleAtom(a) && i < Limit(x)) ==> j == i + StepLen(a)
  {
  }

  /** `strchr(s, b) != NULL` on the operand of a class, whose terminator strchr finds too. */
  function StrChr(code: seq<byte>, p: nat, b: byte): (r: bool)
    decreases |code| - p
  {
    if p >= |code| then false
    else if code[p] == b then true
    else if code[p] == 0 then false
    else StrChr(code, p + 1, b)
  }

  lemma {:induction false} StrChrFinds(code: seq<byte>, p: nat, s: seq<byte>, b: byte)
    requires CString(s) && Sub(code, p, s + [0])
    ensures StrChr(code, p, b) <==> b == 0 || b in s
    decreases |s|
  {
    var w := code[p..p + |s| + 1];
    assert code[p] == w[0];
    if |s| > 0 {
      assert w[1..] == s[1..] + [0];
      assert code[p + 1..p + 1 + |s|] == w[1..];
      StrChrFinds(code, p + 1, s[1..], b);
      assert s == [s[0]] + s[1..];
    }
  }

  /** The operand of a class lists exactly the bytes the class has. */
  lemma {:induction false} ClassBytesHas(items: seq<ClassItem>, b: byte)
    ensures b in ClassBytes(items) <==> ClassHas(items, b)
  {
    if |items| > 0 {
      var n := |items| - 1;
      ClassBytesHas(items[..n], b);
      ItemBytesHas(items[n], b);
      assert ClassHas(items[..n], b) ==> ClassHas(items, b) by {
        if ClassHas(items[..n], b) {
          var k :| 0 <= k < n && ItemHas(items[..n][k], b);
          assert ItemHas(items[k], b);
        }
      }
      if ClassHas(items, b) && !ItemHas(items[n], b) {
        var k :| 0 <= k < |items| && ItemHas(items[k], b);
        assert ItemHas(items[..n][k], b);
      }
    }
  }

  lemma ItemBytesHas(it: ClassItem, b: byte)
    ensures b in ItemBytes(it) <==> ItemHas(it, b)
  {
    if it.UpTo? {
      SpanHas(it.lo, it.hi, b);
    }
  }

  lemma {:induction false} SpanHas(lo: byte, hi: byte, b: byte)
    ensures b in Span(lo, hi) <==> lo < b <= hi
    decreases hi - lo
  {
    if lo < hi {
      SpanHas(lo + 1, hi, b);
    }
  }

  lemma {:induction false} ClassNoNul(items: seq<ClassItem>)
    requires forall k :: 0 <= k < |items| ==> WfItem(items[k])
    ensures CString(ClassBytes(items))
  {
    forall k | 0 <= k < |ClassBytes(items)|
      ensures ClassBytes(items)[k] != 0
    {
      ClassBytesHas(items, ClassBytes(items)[k]);
    }
  }

  /** The C string at `p` of the code; `StrLen` is C's strlen. */
  function StrLen(code: seq<byte>, p: nat): (n: nat)
    ensures p <= |code| ==> p + n <= |code|
    decreases |code| - p
  {
    if p >= |code| || code[p] == 0 then 0 else 1 + StrLen(code, p + 1)
  }

  lemma {:induction false} StrLenFinds(code: seq<byte>, p: nat, s: seq<byte>)
    requires CString(s) && Sub(code, p, s + [0])
    ensures StrLen(code, p) == |s| && code[p..p + |s|] == s
    decreases |s|
  {
    var w := code[p..p + |s| + 1];
    assert w == s + [0];
    assert code[p] == w[0];
    assert code[p..p + |s|] == w[..|s|];
    if |s| > 0 {
      assert code[p + 1..p + 1 + |s|] == w[1..] == s[1..] + [0];
      StrLenFinds(code, p + 1, s[1..]);
    }
  }

  /** C's strlen on the subject from `i` on, which is cut short at the end of the memory. */
  function TextLen(x: Subject, i: nat): (n: nat)
    ensures i <= Limit(x) ==> i + n <= Limit(x)
    ensures forall k: nat :: i <= k < i + n ==> At(x, k) != 0
    ensures i + n < Limit(x) ==> At(x, i + n) == 0
    decreases Limit(x) - i
  {
    if i >= Limit(x) || At(x, i) == 0 then 0 else 1 + TextLen(x, i + 1)
  }

  /** C's strncmp on the C string at `p`, `len` being its length, and the subject from `i` on. */
  function SameBytes(code: seq<byte>, p: nat, x: Subject, i: nat, len: nat): Verdict
    requires p + len <= |code|
    decreases len
  {
    if len == 0 then Matched
    else if i >= Limit(x) then Strayed
    else if code[p] != At(x, i) then Failed
    else SameBytes(code, p + 1, x, i + 1, len - 1)
  }

  lemma {:induction false} SameBytesFinds(code: seq<byte>, p: nat, x: Subject, i: nat, s: seq<byte>)
    requires Sub(code, p, s) && i <= Limit(x)
    ensures SameBytes(code, p, x, i, |s|) ==
      if !Agree(s, Within(x, i, |s|), x, i) then Failed else if i + |s| <= Limit(x) then Matched else Strayed
    decreases |s|
  {
    if |s| > 0 && i < Limit(x) {
      var w, r := code[p..p + |s|], s[1..];
      assert code[p] == w[0] && code[p + 1..p + 1 + |r|] == w[1..] == r;
      SameBytesFinds(code, p + 1, x, i + 1, r);
      AgreeFirst(s, Within(x, i, |s|), x, i);
    }
  }

  lemma AgreeFirst(s: seq<byte>, n: nat, x: Subject, i: nat)
    requires 0 < n <= |s|
    ensures Agree(s, n, x, i) <==> At(x, i) == s[0] && Agree(s[1..], n - 1, x, i + 1)
  {
    if Agree(s, n, x, i) {
      assert At(x, i + 0) == s[0];
      forall k | 0 <= k < n - 1 ensures At(x, i + 1 + k) == s[1..][k] {
        assert At(x, i + (k + 1)) == s[k + 1];
      }
    }
    if At(x, i) == s[0] && Agree(s[1..], n - 1, x, i + 1) {
      forall k | 0 <= k < n ensures At(x, i + k) == s[k] {
        if k > 0 {
          assert At(x, i + 1 + (k - 1)) == s[1..][k - 1];
        }
      }
    }
  }

  /** The simple atom matches the one byte at `i`. */
  ghost predicate OneStep(a: Atom, x: Subject, i: nat) {
    MatchAtom(a, x, i, i + 1)
  }

  lemma OneStepIs(a: Atom, x: Subject, i: nat)
    requires SimpleAtom(a) && WfAtom(a) && !x.loose
    ensures i < Limit(x) ==> (OneStep(a, x, i) <==> At(x, i) != 0 && match a
      case Class(neg, items) => ClassHas(items, At(x, i)) != neg
      case Lit(text, _) => text[0] == At(x, i)
      case _ => true)
    ensures i == Limit(x) ==> OneStep(a, x, i)
  {
    if a.Lit? && i < Limit(x) {
      AgreeFirst(a.text, 1, x, i);
    }
  }

  /** Single steps all the way from `i` on. */
  ghost predicate StepRun(a: Atom, x: Subject, i: nat, n: nat) {
    forall k: nat :: i <= k < i + n ==> OneStep(a, x, k)
  }

  lemma RunMore(a: Atom, x: Subject, i: nat, n: nat)
    requires StepRun(a, x, i, n) && OneStep(a, x, i + n)
    ensures StepRun(a, x, i, n + 1)
  {
    hide OneStep;
  }

  lemma NoRun(a: Atom, x: Subject, i: nat)
    ensures StepRun(a, x, i, 0)
  {
  }

  /** A maximal run of single steps: exactly the shorter runs are repetitions. */
  lemma {:induction false} RunTimes(a: Atom, x: Subject, i: nat, no: nat, n: nat, j: nat)
    requires SimpleAtom(a) && i + no < Limit(x) && StepRun(a, x, i, no) && !OneStep(a, x, i + no)
    ensures MatchTimes(a, n, x, i, j) <==> n <= no && j == i + n
    decreases n
  {
    hide MatchAtom;
    if n > 0 {
      if MatchTimes(a, n, x, i, j) {
        var k := TimesSplit(a, n, x, i, j);
        StepsOnce(a, x, i, k);
        assert OneStep(a, x, i);
        RunTimes(a, x, i + 1, no - 1, n - 1, j);
      }
      if n <= no && j == i + n {
        RunTimes(a, x, i + 1, no - 1, n - 1, j);
        assert OneStep(a, x, i) && MatchTimes(a, n - 1, x, i + 1, j);
      }
    }
  }

  lemma RunIs(a: Atom, x: Subject, i: nat, no: nat)
    requires SimpleAtom(a) && i + no < Limit(x) && StepRun(a, x, i, no) && !OneStep(a, x, i + no)
    ensures forall n: nat, j: nat :: MatchTimes(a, n, x, i, j) <==> n <= no && j == i + n
  {
    hide MatchTimes, OneStep, StepRun;
    forall n: nat, j: nat ensures MatchTimes(a, n, x, i, j) <==> n <= no && j == i + n {
      RunTimes(a, x, i, no, n, j);
    }
  }

  /** A run of single steps is a repetition. */
  lemma {:induction false} RunOn(a: Atom, x: Subject, i: nat, n: nat)
    requires StepRun(a, x, i, n)
    ensures MatchTimes(a, n, x, i, i + n)
    decreases n
  {
    hide MatchAtom;
    if n > 0 {
      RunOn(a, x, i + 1, n - 1);
      assert OneStep(a, x, i);
    }
  }

  /** `regnext` on the finished program; -1 for a null link. */
  function RegNext(code: seq<byte>, p: int): (r: int)
    requires 0 <= p && p + 3 <= |code|
  {
    var offset := LinkAt(code, p);
    if offset == 0 then -1 else if code[p] == BACK then p - offset else p + offset
  }

  ghost predicate CanReach(c: Cont, x: Subject, i: nat) {
    exists e: nat :: Reach(c, x, i, e)
  }

  /** After `n` repetitions that started at `save`, the rest of the program can end at `e`. */
  ghost predicate EndsAfter(k: Cont, x: Subject, save: nat, n: nat, e: nat) {
    Reach(k, x, save + n, e)
  }

  ghost predicate LeadsOn(k: Cont, x: Subject, save: nat, n: nat) {
    exists e: nat :: EndsAfter(k, x, save, n, e)
  }

  class Matcher {
    const x: Subject
    const code: seq<byte>
    var reginput: nat

    ghost predicate Valid()
      reads this
    {
      reginput <= Limit(x) && CString(x.text) && |code| < 0x1_0000
    }

    constructor (code: seq<byte>, x: Subject)
      requires CString(x.text) && |code| < 0x1_0000
      ensures this.code == code && this.x == x && reginput == 0 && Valid()
    {
      this.code := code;
      this.x := x;
      reginput := 0;
    }

    /**
      `regrepeat`: counts the matches of the simple operand at `p` and moves behind them.
      The source has no test for the end of the memory; a loop that comes there strays.
    */
    method RegRepeat(p: int, ghost a: Atom) returns (no: nat, strayed: bool)
      requires Valid() && SimpleAtom(a) && WfAtom(a) && Sub(code, p, AtomCode(a, -1))
      modifies this`reginput
      ensures Valid()
      ensures strayed ==> MatchTimes(a, no + 1, x.(loose := false), old(reginput), Gone(x))
      ensures !strayed ==> reginput == old(reginput) + no < Limit(x) && forall n: nat, j: nat ::
        MatchTimes(a, n, x.(loose := false), old(reginput), j) <==> n <= no && j == old(reginput) + n
    {
      hide MatchTimes, MatchAtom, OneStep, StrLen, StrChr, Sub, At, StepRun, ClassHas, SimpleAtom, AtomCode, OpOf, Operand, WfAtom, CString;
      ghost var y := x.(loose := false);
      ByteSame(y);
      var opnd := p + 3;
      SimpleThere(p, a);
      OpShape(a);
      OperandFinds(opnd, a);
      var start := reginput;
      NoRun(a, y, start);
      no := 0;
      var scan := start;
      if code[p] == ANY {
        no := TextLen(x, scan);
        scan := scan + no;
        AnyRun(a, y, start, no);
      } else if code[p] == EXACTLY {
        while scan < Limit(x) && code[opnd] == At(x, scan)
          invariant scan == start + no <= Limit(x) && StepRun(a, y, start, no)
        {
          OneStepIs(a, y, scan);
          RunMore(a, y, start, no);
          no, scan := no + 1, scan + 1;
        }
      } else if code[p] == ANYOF {
        while scan < Limit(x) && At(x, scan) != 0 && StrChr(code, opnd, At(x, scan))
          invariant scan == start + no <= Limit(x) && StepRun(a, y, start, no)
        {
          OneStepIs(a, y, scan);
          RunMore(a, y, start, no);
          no, scan := no + 1, scan + 1;
        }
      } else {
        while scan < Limit(x) && At(x, scan) != 0 && !StrChr(code, opnd, At(x, scan))
          invariant scan == start + no <= Limit(x) && StepRun(a, y, start, no)
        {
          OneStepIs(a, y, scan);
          RunMore(a, y, start, no);
          no, scan := no + 1, scan + 1;
        }
      }
      OneStepIs(a, y, scan);
      strayed := scan == Limit(x);
      if strayed {
        RunMore(a, y, start, no);
        RunOn(a, y, start, no + 1);
      } else {
        RunIs(a, y, start, no);
      }
      reginput := scan;
    }

    lemma AnyRun(a: Atom, y: Subject, i: nat, n: nat)
      requires a.Any? && i + n <= Limit(y) && forall k: nat :: i <= k < i + n ==> At(y, k) != 0
      ensures StepRun(a, y, i, n)
    {
    }

    lemma ByteSame(y: Subject)
      requires y == x.(loose := false)
      ensures Limit(y) == Limit(x) && forall k: nat :: At(y, k) == At(x, k)
    {
    }

    lemma SimpleThere(p: int, a: Atom)
      requires SimpleAtom(a) && Sub(code, p, AtomCode(a, -1))
      ensures 0 <= p && p + 3 <= |code| && code[p] == OpOf(a) && Sub(code, p + 3, Operand(a)) && !a.Group?
      ensures a.Any? || a.Class? || (a.Lit? && |a.text| == 1)
    {
      hide Sub, Node, ClassBytes;
      SubTwo(code, p, Node(OpOf(a), 0), Operand(a));
      SubNodeShort(code, p, OpOf(a), 0);
    }

    /** What searching the operand of a node finds. */
    lemma OperandFinds(opnd: int, a: Atom)
      requires 0 <= opnd && WfAtom(a) && Sub(code, opnd, Operand(a))
      ensures a.Lit? ==> StrLen(code, opnd) == |a.text| && Sub(code, opnd, a.text) && code[opnd] == a.text[0]
      ensures a.Class? ==> forall b: byte :: StrChr(code, opnd, b) <==> b == 0 || ClassHas(a.items, b)
    {
      if a.Lit? {
        StrLenFinds(code, opnd, a.text);
        assert code[opnd] == code[opnd..opnd + |a.text|][0];
      } else if a.Class? {
        ClassNoNul(a.items);
        forall b: byte
          ensures StrChr(code, opnd, b) <==> b == 0 || ClassHas(a.items, b)
        {
          StrChrFinds(code, opnd, ClassBytes(a.items), b);
          ClassBytesHas(a.items, b);
        }
      }
    }

    lemma OpShape(a: Atom)
      requires WfAtom(a) && !a.Group?
      ensures a.Bol? <==> OpOf(a) == BOL
      ensures a.Eol? <==> OpOf(a) == EOL
      ensures a.Any? <==> OpOf(a) == ANY
      ensures a.Lit? <==> OpOf(a) == EXACTLY
      ensures a.Class? && !a.neg <==> OpOf(a) == ANYOF
      ensures a.Class? && a.neg <==> OpOf(a) == ANYBUT
      ensures a.Lit? ==> |a.text| > 0 && CString(a.text)
    {
    }

    /** What the verdict of a test says of the places where the test can end. */
    ghost predicate Tested(r: Verdict, a: Atom, i: nat, j: nat) {
      forall l: nat :: MatchAtom(a, x, i, l) <==> r != Failed && l == if r == Matched then j else Gone(x)
    }

    /** What it takes to pass the bytes an atom tests. */
    lemma TestMeans(a: Atom, i: nat)
      requires WfAtom(a) && !a.Group? && i <= Limit(x)
      ensures Tested(
        if !Holds(a, x, i) then Failed else if i + Reads(a) <= Limit(x) then Matched else Strayed, a, i, i + StepLen(a))
      ensures a.Bol? ==> (Holds(a, x, i) <==> i == 0)
      ensures i == Limit(x) && !a.Bol? ==> Holds(a, x, i)
    {
      hide ClassHas, At;
    }

    /** The first byte of a run decides one of length one, and refuses a longer one. */
    lemma ExactFirst(s: seq<byte>, i: nat)
      requires |s| > 0 && i < Limit(x)
      ensures Agree(s, Within(x, i, |s|), x, i) ==> s[0] == At(x, i)
      ensures |s| == 1 && s[0] == At(x, i) ==> Agree(s, Within(x, i, |s|), x, i)
    {
      AgreeFirst(s, Within(x, i, |s|), x, i);
    }

    /** The nodes of `regmatch` that test the input at `reginput` and move on. */
    method RegTest(scan: int, ghost a: Atom) returns (r: Verdict)
      requires Valid() && WfAtom(a) && !a.Group?
      requires 0 <= scan && scan + 3 <= |code| && code[scan] == OpOf(a) && Sub(code, scan + 3, Operand(a))
      modifies this`reginput
      ensures Valid()
      ensures Tested(r, a, old(reginput), old(reginput) + StepLen(a))
      ensures r == Matched ==> reginput == old(reginput) + StepLen(a)
    {
      hide ClassBytes, StrChr, StrLen, MatchAtom, OpOf, Operand, Sub, SameBytes, ClassHas, CString, Tested, At, Agree;
      var opnd := scan + 3;
      OpShape(a);
      TestMeans(a, reginput);
      OperandFinds(opnd, a);
      var op := code[scan];
      if op == BOL {
        return if reginput == 0 then Matched else Failed;
      }
      if reginput == Limit(x) {
        return Strayed;                             // every other node reads the byte there
      } else if op == EOL {
        return if At(x, reginput) == 0 then Matched else Failed;
      } else if op == ANY {
        if At(x, reginput) == 0 {
          return Failed;
        }
        reginput := reginput + 1;
      } else if op == EXACTLY {
        ExactFirst(a.text, reginput);
        if code[opnd] != At(x, reginput) {
          return Failed;
        }
        var len := StrLen(code, opnd);
        SameBytesFinds(code, opnd, x, reginput, a.text);
        if len > 1 && SameBytes(code, opnd, x, reginput, len) != Matched {
          return SameBytes(code, opnd, x, reginput, len);
        }
        reginput := reginput + len;
      } else if op == ANYOF {
        if !StrChr(code, opnd, At(x, reginput)) {
          return Failed;
        }
        if At(x, reginput) == 0 && !x.loose {
          return Failed;                            // a test that the source does not make
        }
        reginput := reginput + 1;
      } else {
        if StrChr(code, opnd, At(x, reginput)) {
          return Failed;
        }
        reginput := reginput + 1;
      }
      r := Matched;
    }

    /** `c` is what the code at `scan` stands for, and the input has moved since every loop in it was entered. */
    ghost predicate Stands(scan: int, c: Cont, i: nat) {
      Located(code, scan, c) && Moving(c, i, false)
    }

    /** The node at `scan`: its bytes, where it leads, and that what follows is smaller. */
    lemma Look(scan: int, c: Cont, i: nat)
      requires Stands(scan, c, i) && |code| < 0x1_0000
      ensures c.KAlts? ==> |c.bs| > 0
      ensures Shows(code, scan, Expose(c, i)) && Advances(Expose(c, i), i, false, Size(c, i))
      ensures CanReach(c, x, i) <==> exists e: nat :: ReachView(Expose(c, i), x, i, e)
      ensures forall e: nat :: Reach(c, x, i, e) <==> ReachView(Expose(c, i), x, i, e)
    {
      hide Shows, Expose, ReachView, Advances, Size, Reach;
      ExposeShows(code, scan, c, i, false);
      ExposeAdvances(c, i);
      forall e: nat
        ensures Reach(c, x, i, e) <==> ReachView(Expose(c, i), x, i, e)
      {
        ExposePaths(c, x, i, e);
      }
    }

    /** `k` is next, at `next`, and is smaller than what had the given size. */
    ghost predicate Goes(k: Cont, next: int, i: nat, wide: bool, size: nat) {
      Located(code, next, k) && Moving(k, i, wide) && Size(k, i) < size
    }

    /** What the opcode at `scan` tells about the paths from here. */
    lemma Leads(scan: int, c: Cont, i: nat)
      requires Stands(scan, c, i) && |code| < 0x1_0000
      ensures (c.KAlts? ==> |c.bs| > 0) && 0 <= scan && scan + 3 <= |code|
      ensures var v, op, next := Expose(c, i), code[scan], RegNext(code, scan);
        if op == BOL || op == EOL || op == ANY || op == EXACTLY || op == ANYOF || op == ANYBUT then
          && v.VTest? && WfAtom(v.a) && !v.a.Group? && op == OpOf(v.a) && Sub(code, scan + 3, Operand(v.a))
          && Goes(v.k, next, i, WideAtom(v.a), Size(c, i))
          && forall e: nat :: Reach(c, x, i, e) <==> ReachView(VTest(v.a, v.k), x, i, e)
        else if op == NOTHING || op == BACK then
          v.VPass? && Goes(v.k, next, i, false, Size(c, i)) && forall e: nat :: Reach(c, x, i, e) <==> Reach(v.k, x, i, e)
        else if OPEN < op < OPEN + 10 || CLOSE < op < CLOSE + 10 then
          && (v.VOpen? || v.VClose?) && Goes(v.k, next, i, false, Size(c, i))
          && forall e: nat :: Reach(c, x, i, e) <==> Reach(v.k, x, i, e)
        else if op == BRANCH then
          && v.VChoice? && 0 <= next && next + 3 <= |code|
          && (code[next] != BRANCH ==>
            Goes(v.k, scan + 3, i, false, Size(c, i)) && forall e: nat :: Reach(c, x, i, e) <==> Reach(v.k, x, i, e))
        else if op == STARNODE || op == PLUSNODE then v.VRepeat?
        else Reach(c, x, i, i)
    {
      hide Located, Moving, Reach, Expose, Size, MatchAtom, Sub, LinkAt, WfAtom;
      Look(scan, c, i);
    }

    /** An atom that steps over nothing has no width. */
    lemma NoWidth(a: Atom)
      requires WfAtom(a) && !a.Group?
      ensures StepLen(a) == 0 ==> !WideAtom(a)
    {
    }

    /** The verdict on what the program can do from `i` on, `e` being where the run ended. */
    ghost predicate Answers(r: Verdict, c: Cont, i: nat, e: nat) {
      match r
      case Matched => Reach(c, x, i, e)
      case Failed => !CanReach(c, x, i)
      case Strayed => Reach(c, x, i, Gone(x))
    }

    lemma SameAnswers(r: Verdict, c: Cont, i: nat, c': Cont, i': nat, e: nat)
      requires Answers(r, c', i', e)
      requires forall e: nat :: Reach(c, x, i, e) <==> Reach(c', x, i', e)
      ensures Answers(r, c, i, e)
    {
      hide Reach;
    }

    /** `regmatch`: runs the program from `prog` on. */
    method RegMatch(prog: int, ghost c: Cont) returns (r: Verdict)
      requires Valid() && Stands(prog, c, reginput)
      modifies this`reginput
      ensures Valid()
      ensures Answers(r, c, old(reginput), reginput)
      decreases Limit(x) - reginput, Size(c, reginput), 2
    {
      hide Located, Moving, Reach, Size, MatchAtom, Sub, Expose, RegNext, WideAtom, ReachView, Tested, CanReach;
      var scan := prog;
      ghost var k := c;
      while true
        invariant Valid() && Stands(scan, k, reginput) && old(reginput) <= reginput
        invariant forall e: nat :: Reach(c, x, old(reginput), e) <==> Reach(k, x, reginput, e)
        invariant reginput == old(reginput) ==> Size(k, reginput) <= Size(c, reginput)
        decreases Limit(x) - reginput, Size(k, reginput)
      {
        Leads(scan, k, reginput);
        ghost var v := Expose(k, reginput);
        var op := code[scan];
        var next := RegNext(code, scan);
        if op == BOL || op == EOL || op == ANY || op == EXACTLY || op == ANYOF || op == ANYBUT {
          ghost var i := reginput;
          r := RegTest(scan, v.a);
          StepPaths(r, v.a, v.k, i, WideAtom(v.a));
          if r != Matched {
            NoStep(r, c, old(reginput));
            return;
          }
          if reginput > i {
            MovingOn(v.k, i, WideAtom(v.a), reginput, false);
          } else {
            NoWidth(v.a);
          }
          k := v.k;
        } else if op == NOTHING || op == BACK {
          k := v.k;
        } else if OPEN < op < OPEN + 10 || CLOSE < op < CLOSE + 10 {
          ghost var i := reginput;
          r := RegMatch(next, v.k);
          SameAnswers(r, c, old(reginput), v.k, i, reginput);
          return;
        } else if op == BRANCH {
          if code[next] != BRANCH {
            next := scan + 3;                       // no choice: avoid recursion
            k := v.k;
          } else {
            ghost var i := reginput;
            r := RegChoice(scan, k);
            SameAnswers(r, c, old(reginput), k, i, reginput);
            return;
          }
        } else if op == STARNODE || op == PLUSNODE {
          ghost var i := reginput;
          r := RegStar(scan, k);
          SameAnswers(r, c, old(reginput), k, i, reginput);
          return;
        } else {
          return Matched;
        }
        scan := next;
      }
      assert false;
    }

    /** A node that tests the input leads on exactly when its test succeeds, or to the outside of the memory. */
    lemma StepPaths(r: Verdict, a: Atom, k: Cont, i: nat, wide: bool)
      requires Tested(r, a, i, i + StepLen(a)) && Moving(k, i, wide)
      ensures r == Matched ==> forall e: nat :: ReachView(VTest(a, k), x, i, e) <==> Reach(k, x, i + StepLen(a), e)
      ensures r == Failed ==> forall e: nat :: !ReachView(VTest(a, k), x, i, e)
      ensures r == Strayed ==> ReachView(VTest(a, k), x, i, Gone(x))
    {
      hide Reach, Moving, MatchAtom;
      if r == Strayed {
        ReachGone(k, x, i, wide);
        assert MatchAtom(a, x, i, Gone(x));
      }
      if r == Matched {
        assert MatchAtom(a, x, i, i + StepLen(a));
      }
    }

    lemma NoStep(r: Verdict, c: Cont, i: nat)
      requires r == Failed ==> forall e: nat :: !Reach(c, x, i, e)
      requires r == Strayed ==> Reach(c, x, i, Gone(x))
      ensures r != Matched ==> Answers(r, c, i, 0)
    {
      hide Reach;
    }

    /** The BRANCH case of `regmatch` when there is a choice: tries one alternative after the other. */
    method RegChoice(first: int, ghost c: Cont) returns (r: Verdict)
      requires Valid() && Stands(first, c, reginput)
      requires (c.KAlts? ==> |c.bs| > 0) && Expose(c, reginput).VChoice?
      modifies this`reginput
      ensures Valid()
      ensures Answers(r, c, old(reginput), reginput)
      decreases Limit(x) - reginput, Size(c, reginput), 1
    {
      hide Located, Moving, Reach, Size, Expose, Sub;
      var scan := first;
      ghost var k := c;
      Look(scan, k, reginput);
      while true
        invariant Valid() && reginput == old(reginput) && Stands(scan, k, reginput)
        invariant (k.KAlts? ==> |k.bs| > 0) && Expose(k, reginput).VChoice?
        invariant forall e: nat :: Reach(c, x, reginput, e) <==> Reach(k, x, reginput, e)
        invariant Size(k, reginput) <= Size(c, reginput)
        decreases Size(k, reginput)
      {
        Look(scan, k, reginput);
        ghost var v := Expose(k, reginput);
        var save := reginput;
        r := RegMatch(scan + 3, v.k);
        if r != Failed {
          ghost var e := if r == Matched then reginput else Gone(x);
          assert ReachView(v, x, save, e);
          assert Reach(c, x, save, e);
          return;
        }
        reginput := save;
        scan := RegNext(code, scan);
        if scan == -1 || code[scan] != BRANCH {
          assert forall e: nat :: !Reach(c, x, save, e);
          return;
        }
        k := v.alt.k;
        Look(scan, k, reginput);
        OnlyChoice(scan, Expose(k, reginput));
      }
      assert false;
    }

    /** Only a choice shows a BRANCH node. */
    lemma OnlyChoice(scan: int, v: View)
      requires Shows(code, scan, v) && code[scan] == BRANCH
      ensures v.VChoice?
    {
      hide Located, Sub;
    }

    lemma LitOp(a: Atom)
      requires WfAtom(a) && !a.Group? && OpOf(a) == EXACTLY
      ensures a.Lit? && |a.text| > 0 && a.text[0] != 0
    {
    }

    lemma LitMatch(a: Atom, i: nat, j: nat)
      requires a.Lit? && |a.text| > 0 && MatchAtom(a, x, i, j) && i < Limit(x)
      ensures At(x, i) == a.text[0]
    {
      AgreeFirst(a.text, Within(x, i, |a.text|), x, i);
    }

    /** Only a run of bytes shows an EXACTLY node, and a path through it starts with the first of them. */
    lemma OnlyLiteral(scan: int, c: Cont, i: nat)
      requires Stands(scan, c, i) && |code| < 0x1_0000 && i < Limit(x)
      requires scan >= 0 && scan + 3 < |code| && code[scan] == EXACTLY && CanReach(c, x, i)
      ensures At(x, i) == code[scan + 3] != 0
    {
      hide Located, Moving, Reach, Expose, Size, MatchAtom, Sub, OpOf, StrLen, StrChr;
      Leads(scan, c, i);
      var a := Expose(c, i).a;
      LitOp(a);
      OperandFinds(scan + 3, a);
      var e: nat :| Reach(c, x, i, e);
      var j: nat :| MatchAtom(a, x, i, j);
      LitMatch(a, i, j);
    }

    /** The node behind a STAR or PLUS. */
    lemma NextNode(next: int, k: Cont, i: nat, wide: bool)
      requires Located(code, next, k) && Moving(k, i, wide) && |code| < 0x1_0000
      ensures 0 <= next && next + 3 <= |code|
      ensures code[next] == EXACTLY ==> next + 3 < |code|
    {
      hide Located, Moving, Expose;
      KAltsNonempty(k, i, wide);
      ExposeShows(code, next, k, i, wide);
    }

    lemma KAltsNonempty(k: Cont, i: nat, wide: bool)
      requires Moving(k, i, wide)
      ensures k.KAlts? ==> |k.bs| > 0
    {
    }

    /** The STAR and PLUS cases of `regmatch`: takes as many matches as there are, then gives them back one by one. */
    method RegStar(scan: int, ghost c: Cont) returns (r: Verdict)
      requires Valid() && Stands(scan, c, reginput)
      requires (c.KAlts? ==> |c.bs| > 0) && Expose(c, reginput).VRepeat?
      modifies this`reginput
      ensures Valid()
      ensures Answers(r, c, old(reginput), reginput)
      decreases Limit(x) - reginput, Size(c, reginput), 1
    {
      hide Located, Moving, Reach, Expose, Size, MatchTimes, Sub, ReachView, RegNext, LeadsOn, EndsAfter, CanReach, WfAtom, SimpleAtom;
      Repeats(scan, c, reginput);
      ghost var v := Expose(c, reginput);
      ghost var k := v.k;
      var next := RegNext(code, scan);
      NextNode(next, k, reginput, v.min > 0);
      var nextch: byte := 0;
      if code[next] == EXACTLY {
        nextch := code[next + 3];
      }
      var min: int := if code[scan] == STARNODE then 0 else 1;
      var save := reginput;
      var most, strayed := RegRepeat(scan + 3, v.a);
      if strayed {
        RunStrays(c, v.a, v.min, k, save, most + 1);
        return Strayed;
      }
      var no: int := most;
      RepeatReach(c, v.a, v.min, k, save, most);
      while no >= min
        invariant Valid() && -1 <= no <= most && (no >= 0 ==> reginput == save + no)
        invariant save + most < Limit(x)
        invariant min - 1 <= no || no == most
        invariant forall n: nat :: no < n <= most && min <= n ==> !LeadsOn(k, x, save, n)
        decreases no
      {
        if no > 0 {
          MovingOn(k, save, v.min > 0, save + no, false);
        }
        if nextch == 0 || At(x, reginput) == nextch {
          r := RegMatch(next, k);
          if r != Failed {
            Taken(c, k, v.min, save, most, no, if r == Matched then reginput else Gone(x));
            return;
          }
        } else {
          if CanReach(k, x, reginput) {
            OnlyLiteral(next, k, reginput);
          }
        }
        Refused(k, save, no);
        no := no - 1;
        if no >= 0 {
          reginput := save + no;
        }
      }
      NoneTaken(c, k, v.min, save, most);
      return Failed;
    }

    /** A run of matches that goes on to the end of the memory reads what lies behind. */
    lemma RunStrays(c: Cont, a: Atom, min: nat, k: Cont, save: nat, n: nat)
      requires forall e: nat :: Reach(c, x, save, e) <==> ReachView(VRepeat(a, min, k), x, save, e)
      requires min <= n && MatchTimes(a, n, x.(loose := false), save, Gone(x)) && Moving(k, save, min > 0)
      ensures Reach(c, x, save, Gone(x))
    {
      hide Reach, MatchTimes, Moving;
      ReachGone(k, x, save, min > 0);
      assert MatchMany(a, min, x.(loose := false), save, Gone(x));
    }

    /** A node that repeats a simple atom. */
    lemma Repeats(scan: int, c: Cont, i: nat)
      requires Stands(scan, c, i) && |code| < 0x1_0000
      requires (c.KAlts? ==> |c.bs| > 0) && Expose(c, i).VRepeat?
      ensures var v, next := Expose(c, i), if 0 <= scan && scan + 3 <= |code| then RegNext(code, scan) else -1;
        && 0 <= scan && scan + 3 <= |code|
        && SimpleAtom(v.a) && WfAtom(v.a) && Sub(code, scan + 3, AtomCode(v.a, -1))
        && v.min <= 1 && code[scan] == (if v.min == 0 then STARNODE else PLUSNODE)
        && Goes(v.k, next, i, v.min > 0, Size(c, i))
        && forall e: nat :: Reach(c, x, i, e) <==> ReachView(VRepeat(v.a, v.min, v.k), x, i, e)
    {
      hide Located, Moving, Reach, Expose, Size, Sub, LinkAt, WfAtom, ReachView, SimpleAtom, AtomCode;
      Look(scan, c, i);
    }

    /** What the repetition leads to, by the number of matches taken. */
    ghost predicate Counted(c: Cont, k: Cont, min: nat, save: nat, most: nat) {
      forall e: nat :: Reach(c, x, save, e) <==> exists n: nat :: min <= n <= most && EndsAfter(k, x, save, n, e)
    }

    lemma Taken(c: Cont, k: Cont, min: nat, save: nat, most: nat, n: nat, e: nat)
      requires Counted(c, k, min, save, most) && min <= n <= most && Reach(k, x, save + n, e)
      ensures Reach(c, x, save, e) && CanReach(c, x, save)
    {
      hide Reach;
      assert EndsAfter(k, x, save, n, e);
    }

    lemma NoneTaken(c: Cont, k: Cont, min: nat, save: nat, most: nat)
      requires Counted(c, k, min, save, most) && forall n: nat :: min <= n <= most ==> !LeadsOn(k, x, save, n)
      ensures !CanReach(c, x, save)
    {
      hide Reach, EndsAfter;
      assert forall n: nat, e: nat :: EndsAfter(k, x, save, n, e) ==> LeadsOn(k, x, save, n);
    }

    lemma Refused(k: Cont, save: nat, n: nat)
      requires !CanReach(k, x, save + n)
      ensures !LeadsOn(k, x, save, n)
    {
      hide Reach;
    }

    /** Repetition leads on from exactly the positions `save + min` to `save + most`. */
    lemma RepeatReach(c: Cont, a: Atom, min: nat, k: Cont, save: nat, most: nat)
      requires forall e: nat :: Reach(c, x, save, e) <==> ReachView(VRepeat(a, min, k), x, save, e)
      requires forall n: nat, j: nat :: MatchTimes(a, n, x.(loose := false), save, j) <==> n <= most && j == save + n
      ensures Counted(c, k, min, save, most)
    {
      hide Reach, MatchTimes;
      var y := x.(loose := false);
      forall e: nat
        ensures ReachView(VRepeat(a, min, k), x, save, e) <==> exists n: nat :: min <= n <= most && EndsAfter(k, x, save, n, e)
      {
        if ReachView(VRepeat(a, min, k), x, save, e) {
          var j: nat :| MatchMany(a, min, y, save, j) && Reach(k, x, j, e);
          var n := ManySplit(a, min, y, save, j);
          assert EndsAfter(k, x, save, n, e);
        }
        if n: nat :| min <= n <= most && EndsAfter(k, x, save, n, e) {
          assert MatchTimes(a, n, y, save, save + n);
          assert MatchMany(a, min, y, save, save + n);
        }
      }
    }
  }
}
