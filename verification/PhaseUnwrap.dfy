/**
  Unwrapping phases into a run without jumps, and wrapping such a run back into one
  turn. Phases are exact reals, in degrees.
*/
module PhaseUnwrap {

  function Abs(x: real): real {
    if x < 0.0 then -x else x
  }

  /** `x` is a whole number of turns. */
  ghost predicate Turns(x: real) {
    exists k: int :: x == TurnsOf(k)
  }

  function TurnsOf(k: int): real {
    360.0 * k as real
  }

  lemma TurnsAdd(x: real, y: real)
    requires Turns(x) && Turns(y)
    ensures Turns(x + y) && Turns(x - y)
  {
    var j: int :| x == TurnsOf(j);
    var k: int :| y == TurnsOf(k);
    assert x + y == TurnsOf(j + k) && x - y == TurnsOf(j - k);
  }

  lemma OneTurn()
    ensures Turns(0.0) && Turns(360.0) && Turns(-360.0)
  {
    assert 0.0 == TurnsOf(0) && 360.0 == TurnsOf(1) && -360.0 == TurnsOf(-1);
  }

  /** Two phases inside one turn that differ by whole turns are the same. */
  lemma SameInside(x: real, y: real)
    requires -180.0 < x < 180.0 && -180.0 <= y <= 180.0 && Turns(y - x)
    ensures x == y
  {
    var k: int :| y - x == TurnsOf(k);
    assert -1 < k < 1;
  }

  // ------------------------------------------------------------ one value

  datatype Phase = Phase(value: real, added: real)

  /** `unwrap_phase` for a range of one turn */
  function Unwrap(phase: real, prev: real, added: real): Phase {
    var p := phase + added;
    if Abs(p - prev) > 180.0 then
      if p - prev > 0.0 then Phase(p - 360.0, added - 360.0) else Phase(p + 360.0, added + 360.0)
    else Phase(p, added)
  }

  /** `wrap_phase` for a range of one turn */
  function Wrap(phase: real, added: real): Phase {
    var p := phase + added;
    if p > 180.0 then Phase(p - 360.0, added - 360.0)
    else if p < -180.0 then Phase(p + 360.0, added + 360.0)
    else Phase(p, added)
  }

  /** A step, less one turn where it is more than half a turn. */
  function Nearer(d: real): real {
    if d > 180.0 then d - 360.0 else if d < -180.0 then d + 360.0 else d
  }

  /**
    The step to `x` from `y` is the one to `p` from `q`, less one turn where that is more than half a turn;
    so it is at most half a turn exactly where that is at most one and a half.
  */
  ghost predicate Follows(x: real, y: real, p: real, q: real) {
    x - y == Nearer(p - q) && (Abs(x - y) <= 180.0 <==> Abs(p - q) <= 540.0)
  }

  /** One step removes at most one turn: just enough where the jump is at most one and a half. */
  lemma UnwrapStep(phase: real, prev: real, added: real)
    ensures var r := Unwrap(phase, prev, added);
      && r.value == phase + r.added && Turns(r.added - added)
      && Follows(r.value, prev, phase + added, prev)
  {
    OneTurn();
  }

  /** The same, in a run that stands at the phase `before` plus the offset. */
  lemma UnwrapOn(phase: real, before: real, added: real)
    requires Turns(added)
    ensures var r := Unwrap(phase, before + added, added);
      && Turns(r.added) && r.value == phase + r.added && Turns(r.value - phase)
      && Follows(r.value, before + added, phase, before)
  {
    hide Turns;
    var r := Unwrap(phase, before + added, added);
    UnwrapStep(phase, before + added, added);
    TurnsAdd(added, r.added - added);
  }

  /** A phase that stands where the run stands stays there. */
  lemma UnwrapSame(phase: real, added: real)
    ensures Unwrap(phase, phase + added, added) == Phase(phase + added, added)
  {
  }

  // --------------------------------------------------------- whole runs

  function UnwrapRun(ps: seq<real>, prev: real, added: real): (r: seq<real>)
    ensures |r| == |ps|
  {
    if |ps| == 0 then []
    else
      var u := Unwrap(ps[0], prev, added);
      [u.value] + UnwrapRun(ps[1..], u.value, u.added)
  }

  function WrapRun(us: seq<real>, added: real): (r: seq<real>)
    ensures |r| == |us|
  {
    if |us| == 0 then []
    else
      var w := Wrap(us[0], added);
      [w.value] + WrapRun(us[1..], w.added)
  }

  /** The value before position `i` of a run. */
  function Before(r: seq<real>, prev: real, i: nat): real
    requires i < |r|
  {
    if i == 0 then prev else r[i - 1]
  }

  /** Every value keeps its phase, and a step loses one turn exactly where it is more than half a turn. */
  lemma {:induction false} UnwrapRunIs(ps: seq<real>, prev: real, added: real, i: nat)
    requires Turns(added) && i < |ps|
    ensures var r := UnwrapRun(ps, prev, added);
      && Turns(r[i] - ps[i])
      && (i > 0 ==> Follows(r[i], r[i - 1], ps[i], ps[i - 1]))
  {
    var u := Unwrap(ps[0], prev, added);
    UnwrapStep(ps[0], prev, added);
    TurnsAdd(added, u.added - added);
    if i > 0 {
      UnwrapRunIs(ps[1..], u.value, u.added, i - 1);
      if i == 1 {
        UnwrapStep(ps[1], u.value, u.added);
      }
    }
  }

  ghost predicate InTurn(p: real) {
    -180.0 <= p <= 180.0
  }

  /** Phases inside one turn: no step is more than half a turn, from the previous value on. */
  lemma {:induction false} UnwrapSteps(ps: seq<real>, prev: real, added: real, i: nat)
    requires (forall k :: 0 <= k < |ps| ==> InTurn(ps[k])) && InTurn(prev - added) && i < |ps|
    ensures var r := UnwrapRun(ps, prev, added); Abs(r[i] - Before(r, prev, i)) <= 180.0
  {
    var u := Unwrap(ps[0], prev, added);
    UnwrapStep(ps[0], prev, added);
    if i > 0 {
      UnwrapSteps(ps[1..], u.value, u.added, i - 1);
    }
  }

  /** Wrapping a run whose steps are at most half a turn, from a value that is in range with the offset. */
  lemma {:induction false} WrapRunIs(us: seq<real>, prev: real, added: real, i: nat)
    requires Turns(added) && InTurn(prev + added) && i < |us|
    requires forall k :: 0 <= k < |us| ==> Abs(us[k] - Before(us, prev, k)) <= 180.0
    ensures var r := WrapRun(us, added); InTurn(r[i]) && Turns(r[i] - us[i])
  {
    var w := Wrap(us[0], added);
    assert Before(us, prev, 0) == prev;
    OneTurn();
    TurnsAdd(added, 360.0);
    if i > 0 {
      forall k | 0 <= k < |us[1..]| ensures Abs(us[1..][k] - Before(us[1..], us[0], k)) <= 180.0 {
        assert Before(us, prev, k + 1) == Before(us[1..], us[0], k);
      }
      WrapRunIs(us[1..], us[0], w.added, i - 1);
    }
  }

  /** The offset is kept wherever it leaves the value in range. */
  lemma {:induction false} WrapStays(us: seq<real>, added: real, i: nat)
    requires i < |us|
    ensures var r := WrapRun(us, added);
      var offset := if i == 0 then added else r[i - 1] - us[i - 1];
      InTurn(us[i] + offset) ==> r[i] == us[i] + offset
  {
    if i > 0 {
      WrapStays(us[1..], Wrap(us[0], added).added, i - 1);
    }
  }

  // ----------------------------------------------------------- the loops

  /** The offset that brings the first phase into [0, 360) */
  method OffsetToStart(first: real) returns (added: real)
    ensures Turns(added) && 0.0 <= first + added < 360.0
  {
    hide Turns;
    OneTurn();
    added := 0.0;
    while first + added < 0.0
      invariant Turns(added)
      decreases -(first + added)
    {
      TurnsAdd(added, 360.0);
      added := added + 360.0;
    }
    while first + added >= 360.0
      invariant Turns(added) && first + added >= 0.0
      decreases first + added
    {
      TurnsAdd(added, 360.0);
      added := added - 360.0;
    }
  }

  /** The phase loop of `evalresp_response_to_char`: the first phase is brought into [0, 360). */
  method UnwrapOutput(pha: array<real>)
    modifies pha
    ensures forall i :: 0 <= i < pha.Length ==> Turns(pha[i] - old(pha[i]))
    ensures pha.Length > 0 ==> 0.0 <= pha[0] < 360.0
    ensures forall i :: 0 < i < pha.Length ==> Follows(pha[i], pha[i - 1], old(pha[i]), old(pha[i - 1]))
  {
    hide Turns, Unwrap, Follows;
    ghost var ps := pha[..];
    var added := 0.0;
    var prev := 0.0;
    OneTurn();
    var i := 0;
    while i < pha.Length
      invariant 0 <= i <= pha.Length && Turns(added)
      invariant forall k :: 0 <= k < i ==> Turns(pha[k] - ps[k])
      invariant forall k :: i <= k < pha.Length ==> pha[k] == ps[k]
      invariant i > 0 ==> 0.0 <= pha[0] < 360.0 && prev == pha[i - 1] == ps[i - 1] + added
      invariant forall k :: 0 < k < i ==> Follows(pha[k], pha[k - 1], ps[k], ps[k - 1])
    {
      if i == 0 {
        added := OffsetToStart(pha[0]);
        prev := pha[0] + added;
        UnwrapSame(pha[0], added);
      }
      UnwrapOn(ps[i], if i == 0 then ps[i] else ps[i - 1], added);
      var u := Unwrap(pha[i], prev, added);
      pha[i] := u.value;
      added := u.added;
      prev := pha[i];
      i := i + 1;
    }
  }

  lemma UnwrapRunMore(ps: seq<real>, i: nat, prev: real, added: real)
    requires i < |ps|
    ensures var u := Unwrap(ps[i], prev, added);
      UnwrapRun(ps[i..], prev, added) == [u.value] + UnwrapRun(ps[i + 1..], u.value, u.added)
  {
    hide Unwrap;
    assert ps[i..][0] == ps[i] && ps[i..][1..] == ps[i + 1..];
  }

  lemma UnwrapKept(phase: real, prev: real, added: real)
    ensures var u := Unwrap(phase, prev, added); u.value == phase + u.added
  {
  }

  lemma NoRun(s: seq<real>, prev: real, added: real)
    ensures UnwrapRun(s[|s|..], prev, added) == [] && WrapRun(s[|s|..], added) == []
  {
  }

  lemma WrapRunMore(us: seq<real>, i: nat, added: real)
    requires i < |us|
    ensures var w := Wrap(us[i], added); WrapRun(us[i..], added) == [w.value] + WrapRun(us[i + 1..], w.added)
  {
    hide Wrap;
    assert us[i..][0] == us[i] && us[i..][1..] == us[i + 1..];
  }

  lemma WrapKept(phase: real, added: real)
    ensures var w := Wrap(phase, added); w.value == phase + w.added
  {
  }

  /** The unwrapping loop of `interpolate_list_blockette` */
  method UnwrapList(phase: array<real>) returns (local: array<real>, unwrapped: bool)
    ensures fresh(local) && local[..] == UnwrapRun(phase[..], 0.0, 0.0)
    ensures !unwrapped ==> local[..] == phase[..]
  {
    hide Unwrap, UnwrapRun;
    local := new real[phase.Length];
    var added, prev := 0.0, 0.0;
    unwrapped := false;
    ghost var ps := phase[..];
    var i := 0;
    while i < phase.Length
      invariant 0 <= i <= phase.Length && phase[..] == ps
      invariant local[..i] + UnwrapRun(ps[i..], prev, added) == UnwrapRun(ps, 0.0, 0.0)
      invariant !unwrapped ==> added == 0.0 && local[..i] == ps[..i]
    {
      var u := Unwrap(phase[i], prev, added);
      UnwrapRunMore(ps, i, prev, added);
      UnwrapKept(phase[i], prev, added);
      added := u.added;
      if added == 0.0 {
        local[i] := phase[i];
      } else {
        local[i] := u.value;
        unwrapped := true;
      }
      assert u.value == local[i];
      assert local[..i + 1] == local[..i] + [local[i]];
      prev := u.value;
      i := i + 1;
    }
    NoRun(ps, prev, added);
    assert local[..] == local[..i] && ps[i..] == [];
  }

  /** The offset that brings the first value to wrap into range */
  method OffsetIntoRange(first: real) returns (added: real)
    ensures Turns(added) && InTurn(first + added) && (InTurn(first) ==> added == 0.0)
  {
    hide Turns;
    OneTurn();
    added := 0.0;
    if first > 180.0 {
      TurnsAdd(added, 360.0);
      added := added - 360.0;
      while first + added > 180.0
        invariant Turns(added) && first + added > -180.0
        decreases first + added + 360.0
      {
        TurnsAdd(added, 360.0);
        added := added - 360.0;
      }
    } else if first < -180.0 {
      TurnsAdd(added, 360.0);
      added := added + 360.0;
      while first + added < -180.0
        invariant Turns(added) && first + added < 180.0
        decreases -(first + added) + 360.0
      {
        TurnsAdd(added, 360.0);
        added := added + 360.0;
      }
    }
  }

  /** The wrapping loop of `interpolate_list_blockette`: the offset first brings the first value into range. */
  method WrapList(vals: array<real>, unwrapped: bool)
    requires unwrapped ==> vals.Length > 0
    modifies vals
    ensures !unwrapped ==> vals[..] == old(vals[..])
    ensures unwrapped ==> exists added: real :: Turns(added) && InTurn(old(vals[0]) + added) && vals[..] == WrapRun(old(vals[..]), added)
    ensures unwrapped && InTurn(old(vals[0])) ==> vals[..] == WrapRun(old(vals[..]), 0.0)
  {
    hide Turns, Wrap, WrapRun;
    if !unwrapped {
      return;
    }
    ghost var us := vals[..];
    var added := OffsetIntoRange(vals[0]);
    ghost var start := added;
    var i := 0;
    while i < vals.Length
      invariant 0 <= i <= vals.Length && vals[i..] == us[i..]
      invariant vals[..i] + WrapRun(us[i..], added) == WrapRun(us, start)
    {
      assert vals[i] == vals[i..][0] == us[i..][0] == us[i];
      var w := Wrap(vals[i], added);
      WrapRunMore(us, i, added);
      WrapKept(us[i], added);
      added := w.added;
      if added != 0.0 {
        vals[i] := w.value;
      }
      assert vals[..i + 1] == vals[..i] + [w.value];
      i := i + 1;
    }
    NoRun(us, 0.0, added);
    assert vals[..] == vals[..i] && us[i..] == [];
  }

  /** Unwrapping and wrapping without resampling in between returns every phase strictly inside one turn exactly. */
  lemma {:induction false} WrapUnwraps(ps: seq<real>, i: nat)
    requires (forall k :: 0 <= k < |ps| ==> InTurn(ps[k])) && i < |ps|
    ensures var us := UnwrapRun(ps, 0.0, 0.0);
      var r := WrapRun(us, 0.0);
      InTurn(r[i]) && Turns(r[i] - ps[i]) && (-180.0 < ps[i] < 180.0 ==> r[i] == ps[i])
  {
    hide Turns;
    var us := UnwrapRun(ps, 0.0, 0.0);
    OneTurn();
    forall k | 0 <= k < |us| ensures Abs(us[k] - Before(us, 0.0, k)) <= 180.0 {
      UnwrapSteps(ps, 0.0, 0.0, k);
    }
    WrapRunIs(us, 0.0, 0.0, i);
    UnwrapRunIs(ps, 0.0, 0.0, i);
    var r := WrapRun(us, 0.0);
    TurnsAdd(r[i] - us[i], us[i] - ps[i]);
    if -180.0 < ps[i] < 180.0 {
      SameInside(ps[i], r[i]);
    }
  }

  /**
    Both loops of `interpolate_list_blockette`, one after the other: phases inside one turn come back,
    the ones strictly inside exactly.
  */
  method UnwrapAndWrap(phase: array<real>) returns (vals: array<real>)
    requires forall i :: 0 <= i < phase.Length ==> InTurn(phase[i])
    ensures fresh(vals) && vals.Length == phase.Length
    ensures forall i :: 0 <= i < phase.Length ==>
      InTurn(vals[i]) && Turns(vals[i] - phase[i]) && (-180.0 < phase[i] < 180.0 ==> vals[i] == phase[i])
  {
    hide Turns, UnwrapRun, WrapRun, InTurn;
    ghost var ps := phase[..];
    var unwrapped;
    vals, unwrapped := UnwrapList(phase);
    OneTurn();
    if unwrapped && vals.Length > 0 {
      assert vals[..][0] == vals[0];
      FirstKept(ps);
      WrapList(vals, unwrapped);
      forall i | 0 <= i < phase.Length
        ensures InTurn(vals[..][i]) && Turns(vals[..][i] - ps[i]) && (-180.0 < ps[i] < 180.0 ==> vals[..][i] == ps[i])
      {
        WrapUnwraps(ps, i);
      }
      assert forall i :: 0 <= i < phase.Length ==> vals[i] == vals[..][i];
    } else {
      forall i | 0 <= i < phase.Length ensures vals[i] == phase[i] {
        assert vals[..][i] == phase[..][i];
      }
    }
  }

  lemma FirstKept(ps: seq<real>)
    requires |ps| > 0 && InTurn(ps[0])
    ensures InTurn(UnwrapRun(ps, 0.0, 0.0)[0])
  {
  }
}
