/**
  `getopt_internal` and `parse_long_options` as a state machine that is called
  again and again, and what a whole permuting run does to the argument vector.
  Strings are without their terminating NUL, so "the byte is NUL" reads "the rest
  is empty". Messages to stderr are left out.
*/
module Getopt {
  import opened Basics
  import opened OptionString
  import Permutation = PermuteArgs

  /** `flag` identifies the variable to set, where there is one. */
  datatype LongOption = LongOption(name: string, hasArg: HasArg, flag: Option<nat>, val: int)

  /** What a caller passes: `options` without its leading `+` or `-`, which `permute` and `allArgs` reflect. */
  datatype Config = Config(options: string, long: Option<seq<LongOption>>, longOnly: bool, permute: bool, allArgs: bool)

  const BADCH: int := '?' as int
  const INORDER: int := 1

  // ---------------------------------------------- reading one argument

  /** Not an option: no leading `-`, or a lone `-` that is not listed. */
  predicate IsNonOption(c: Config, arg: string) {
    arg == "" || arg[0] != '-' || (|arg| == 1 && '-' !in c.options)
  }

  /** An option character that is refused. */
  predicate IsBadChar(c: Config, ch: char, rest: string) {
    ch == ':' || (ch == '-' && rest != "") || ch !in c.options
  }

  function NameOf(s: string): string {
    s[..IndexOf(s, '=')]
  }

  predicate HasEqual(s: string) {
    '=' in s
  }

  predicate SameInterpretation(a: LongOption, b: LongOption) {
    a.hasArg == b.hasArg && a.flag == b.flag && a.val == b.val
  }

  /** What the table lookup has seen: the chosen entry so far, and whether the abbreviation is ambiguous. */
  datatype Lookup = Lookup(match_: Option<nat>, ambiguous: bool)

  /** The search of the table from entry `i` on; an exact match ends it. */
  function Find(long: seq<LongOption>, name: string, shortToo: bool, i: nat, seen: Lookup): (r: Lookup)
    requires i <= |long| && (seen.match_.Some? ==> seen.match_.value < i)
    ensures r.match_.Some? ==> r.match_.value < |long|
    decreases |long| - i
  {
    if i == |long| then seen
    else if !(name <= long[i].name) then Find(long, name, shortToo, i + 1, seen)
    else if |long[i].name| == |name| then Lookup(Some(i), false)
    else if shortToo && |name| == 1 then Find(long, name, shortToo, i + 1, seen)
    else if seen.match_.None? then Find(long, name, shortToo, i + 1, Lookup(Some(i), seen.ambiguous))
    else if SameInterpretation(long[i], long[seen.match_.value]) then Find(long, name, shortToo, i + 1, seen)
    else Find(long, name, shortToo, i + 1, Lookup(seen.match_, true))
  }

  function FindLong(long: seq<LongOption>, name: string, shortToo: bool): (r: Lookup)
    ensures r.match_.Some? ==> r.match_.value < |long|
  {
    Find(long, name, shortToo, 0, Lookup(None, false))
  }

  predicate Exact(long: seq<LongOption>, name: string, i: nat)
    requires i < |long|
  {
    long[i].name == name
  }

  /** A longer name that starts with `name`; one character of a known short option is no abbreviation. */
  predicate Abbreviates(long: seq<LongOption>, name: string, shortToo: bool, i: nat)
    requires i < |long|
  {
    name <= long[i].name && |name| < |long[i].name| && !(shortToo && |name| == 1)
  }

  /** `m` is the first entry that `name` abbreviates. */
  ghost predicate FirstAbbreviated(long: seq<LongOption>, name: string, shortToo: bool, m: nat) {
    m < |long| && Abbreviates(long, name, shortToo, m) && forall j: nat :: j < m ==> !Abbreviates(long, name, shortToo, j)
  }

  /** The entries before `i` have been looked at, and none was exact. */
  ghost predicate SeenTo(long: seq<LongOption>, name: string, shortToo: bool, i: nat, seen: Lookup) {
    && i <= |long|
    && (forall j: nat :: j < i ==> !Exact(long, name, j))
    && match seen.match_
       case None => !seen.ambiguous && forall j: nat :: j < i ==> !Abbreviates(long, name, shortToo, j)
       case Some(m) =>
         && m < i && FirstAbbreviated(long, name, shortToo, m)
         && (seen.ambiguous <==> exists j: nat :: j < i && Abbreviates(long, name, shortToo, j) && !SameInterpretation(long[j], long[m]))
  }

  /** The entry with exactly the name, the first of them. */
  ghost predicate FirstExact(long: seq<LongOption>, name: string, m: nat) {
    m < |long| && Exact(long, name, m) && forall j: nat :: j < m ==> !Exact(long, name, j)
  }

  lemma {:induction false} FindIs(long: seq<LongOption>, name: string, shortToo: bool, i: nat, seen: Lookup)
    requires SeenTo(long, name, shortToo, i, seen)
    ensures var r := Find(long, name, shortToo, i, seen);
      if exists m: nat :: FirstExact(long, name, m) then r.match_.Some? && FirstExact(long, name, r.match_.value) && !r.ambiguous
      else SeenTo(long, name, shortToo, |long|, r)
    decreases |long| - i
  {
    if i < |long| {
      if Exact(long, name, i) {
        assert FirstExact(long, name, i);
      } else {
        NameCases(long[i].name, name);
        var next := if !Abbreviates(long, name, shortToo, i) then seen
                    else if seen.match_.None? then Lookup(Some(i), seen.ambiguous)
                    else if SameInterpretation(long[i], long[seen.match_.value]) then seen
                    else Lookup(seen.match_, true);
        SeenMore(long, name, shortToo, i, seen, next);
        FindIs(long, name, shortToo, i + 1, next);
      }
    }
  }

  lemma NameCases(full: string, name: string)
    ensures name <= full && |full| == |name| <==> full == name
  {
  }

  lemma SeenMore(long: seq<LongOption>, name: string, shortToo: bool, i: nat, seen: Lookup, next: Lookup)
    requires SeenTo(long, name, shortToo, i, seen) && i < |long| && !Exact(long, name, i)
    requires next == if !Abbreviates(long, name, shortToo, i) then seen
                     else if seen.match_.None? then Lookup(Some(i), seen.ambiguous)
                     else if SameInterpretation(long[i], long[seen.match_.value]) then seen
                     else Lookup(seen.match_, true)
    ensures SeenTo(long, name, shortToo, i + 1, next)
  {
    hide Exact, Abbreviates, SameInterpretation;
    if next.match_.Some? && seen.match_.None? {
      SameSelf(long[i]);
    }
  }

  lemma SameSelf(o: LongOption)
    ensures SameInterpretation(o, o)
  {
  }

  /**
    Which entry a long option stands for: the first with exactly its name, and else the
    first it abbreviates, unless it also abbreviates one that is read differently.
  */
  lemma FindLongIs(long: seq<LongOption>, name: string, shortToo: bool)
    ensures var r := FindLong(long, name, shortToo);
      if exists m: nat :: FirstExact(long, name, m) then r.match_.Some? && FirstExact(long, name, r.match_.value) && !r.ambiguous
      else SeenTo(long, name, shortToo, |long|, r)
  {
    hide Exact, Abbreviates, Find;
    FindIs(long, name, shortToo, 0, Lookup(None, false));
  }

  /** The long-option reading of `s` (without its dashes) is given up for the short one. */
  predicate NotLong(long: seq<LongOption>, s: string, shortToo: bool) {
    var r := FindLong(long, NameOf(s), shortToo);
    shortToo && !r.ambiguous && r.match_.None?
  }

  /** The long option `s` uses the next argument. */
  predicate LongTakes(long: seq<LongOption>, s: string, shortToo: bool) {
    var r := FindLong(long, NameOf(s), shortToo);
    !r.ambiguous && r.match_.Some? && long[r.match_.value].hasArg == RequiredArgument && !HasEqual(s)
  }

  /** `place` is looked up as a long option first. */
  predicate TriesLong(c: Config, place: string, atStart: bool)
    requires place != ""
  {
    c.long.Some? && !atStart && (place[0] == '-' || c.longOnly)
  }

  predicate ShortToo(c: Config, place: string)
    requires place != ""
  {
    place[0] != '-' && place[0] != ':' && place[0] in c.options
  }

  function LongPart(place: string): string
    requires place != ""
  {
    if place[0] == '-' then place[1..] else place
  }

  /** The rest `place` of an argument uses the argument behind it. */
  predicate Takes(c: Config, place: string, atStart: bool)
    decreases |place|
  {
    if place == "" then false
    else if TriesLong(c, place, atStart) && !NotLong(c.long.value, LongPart(place), ShortToo(c, place)) then
      LongTakes(c.long.value, LongPart(place), ShortToo(c, place))
    else
      var ch, rest := place[0], place[1..];
      if IsBadChar(c, ch, rest) || !TakesArg(c.options, ch) then Takes(c, rest, false)
      else rest == "" && !ArgOptional(c.options, ch)
  }

  /** Where scanning the argument `arg` starts: behind its dash, except for a lone dash. */
  function ScanStart(arg: string): string
    requires arg != ""
  {
    if |arg| == 1 then arg else arg[1..]
  }

  // ------------------------------------------------- the whole vector

  /** Options with their arguments, other arguments, and what follows a `--`. */
  datatype Parts = Parts(opts: seq<string>, nons: seq<string>, rest: seq<string>)

  /** The number of arguments the option at `k` occupies. */
  function Width(c: Config, args: seq<string>, k: nat): (w: nat)
    requires k < |args| && args[k] != ""
    ensures 1 <= w && k + w <= |args|
  {
    if Takes(c, ScanStart(args[k]), |args[k]| == 1) && k + 1 < |args| then 2 else 1
  }

  /** The arguments from `k` on, sorted into options and others, each in order. */
  function Split(c: Config, args: seq<string>, k: nat): (r: Parts)
    requires k <= |args|
    decreases |args| - k
  {
    if k == |args| then Parts([], [], [])
    else if IsNonOption(c, args[k]) then
      var r := Split(c, args, k + 1);
      r.(nons := [args[k]] + r.nons)
    else if args[k] == "--" then Parts(["--"], [], args[k + 1..])
    else
      var w := Width(c, args, k);
      var r := Split(c, args, k + w);
      r.(opts := args[k..k + w] + r.opts)
  }

  /** Reading `place` as short options comes to a `-` at its end that is not listed, which ends the run early. */
  predicate Stalls(c: Config, place: string)
    decreases |place|
  {
    if place == "" then false
    else
      var ch, rest := place[0], place[1..];
      if IsBadChar(c, ch, rest) && ch == '-' && rest == "" then true
      else if IsBadChar(c, ch, rest) || !TakesArg(c.options, ch) then Stalls(c, rest)
      else false
  }

  /** No option of the vector stalls, from `k` on; with a table of long options none does. */
  predicate Smooth(c: Config, args: seq<string>, k: nat)
    requires k <= |args|
    decreases |args| - k
  {
    if c.long.Some? || k == |args| then true
    else if IsNonOption(c, args[k]) then Smooth(c, args, k + 1)
    else if args[k] == "--" then true
    else !Stalls(c, ScanStart(args[k])) && Smooth(c, args, k + Width(c, args, k))
  }

  // ------------------------------------------------- what is reported

  /** What a call returns, and the argument it sets. */
  datatype Event = Event(r: int, arg: Option<string>)

  /** A call that has read an option: what it reports, and where it stands then. */
  datatype Turn = Turn(event: Event, next: nat, place: string)

  function BadArgOf(c: Config): int {
    if c.options != "" && c.options[0] == ':' then ':' as int else '?' as int
  }

  /** What a matched long option returns: its value, or 0 where it sets a variable. */
  function LongReturn(o: LongOption): int {
    if o.flag.Some? then 0 else o.val
  }

  /** Something has been read at `k`, of `len` characters left there. */
  predicate Ahead(t: Turn, n: nat, k: nat, len: nat) {
    if t.place == "" then k < t.next <= n else t.next == k < n && |t.place| < len
  }

  function LongTurn(c: Config, args: seq<string>, k: nat, s: string, shortToo: bool): (r: Turn)
    requires c.long.Some? && k < |args|
    ensures k < r.next <= |args| && r.place == ""
  {
    var found := FindLong(c.long.value, NameOf(s), shortToo);
    if found.ambiguous || found.match_.None? then Turn(Event(BADCH, None), k + 1, "")
    else
      var o := c.long.value[found.match_.value];
      if o.hasArg == NoArgument then
        Turn(Event(if HasEqual(s) then BadArgOf(c) else LongReturn(o), None), k + 1, "")
      else if HasEqual(s) then Turn(Event(LongReturn(o), Some(s[IndexOf(s, '=') + 1..])), k + 1, "")
      else if o.hasArg == OptionalArgument then Turn(Event(LongReturn(o), None), k + 1, "")
      else if k + 1 < |args| then Turn(Event(LongReturn(o), Some(args[k + 1])), k + 2, "")
      else Turn(Event(BadArgOf(c), None), k + 1, "")
  }

  function ShortTurn(c: Config, args: seq<string>, k: nat, place: string): (r: Turn)
    requires place != "" && k < |args|
    ensures Ahead(r, |args|, k, |place|)
  {
    var ch, rest := place[0], place[1..];
    var bad := IsBadChar(c, ch, rest);
    if bad || !TakesArg(c.options, ch) then
      Turn(Event(if bad then BADCH else ch as int, None), if rest == "" then k + 1 else k, rest)
    else if rest != "" then Turn(Event(ch as int, Some(rest)), k + 1, "")
    else if ArgOptional(c.options, ch) then Turn(Event(ch as int, None), k + 1, "")
    else if k + 1 < |args| then Turn(Event(ch as int, Some(args[k + 1])), k + 2, "")
    else Turn(Event(BadArgOf(c), None), k + 1, "")
  }

  /** Reading on at `place` in the argument at `k` */
  function ReadTurn(c: Config, args: seq<string>, k: nat, place: string, atStart: bool): (r: Turn)
    requires place != "" && k < |args|
    ensures Ahead(r, |args|, k, |place|)
  {
    if TriesLong(c, place, atStart) && !NotLong(c.long.value, LongPart(place), ShortToo(c, place))
    then LongTurn(c, args, k, LongPart(place), ShortToo(c, place))
    else ShortTurn(c, args, k, place)
  }

  /** A turn depends on nothing before its place. */
  lemma SameTurn(c: Config, v: seq<string>, orig: seq<string>, k: nat, place: string, atStart: bool)
    requires place != "" && k < |v| == |orig| && v[k..] == orig[k..]
    ensures ReadTurn(c, v, k, place, atStart) == ReadTurn(c, orig, k, place, atStart)
  {
    hide TakesArg, ArgOptional, FindLong, NameOf, HasEqual, IsBadChar;
    assert k + 1 < |v| ==> v[k + 1] == v[k..][1] && orig[k + 1] == orig[k..][1];
  }

  /** A turn uses the next argument, or leaves it to the rest of its own, exactly if `Takes` says so. */
  lemma TurnTakes(c: Config, args: seq<string>, k: nat, place: string, atStart: bool)
    requires place != "" && k < |args| && (c.long.Some? || !Stalls(c, place))
    requires atStart ==> place == "-" && '-' in c.options
    ensures var t, takes := ReadTurn(c, args, k, place, atStart), Takes(c, place, atStart);
      && (t.place == "" ==> t.next == k + if takes && k + 1 < |args| then 2 else 1)
      && (t.place != "" ==> (Takes(c, t.place, false) <==> takes))
      && (c.long.None? ==> !Stalls(c, t.place))
  {
    hide TakesArg, ArgOptional, FindLong, NameOf, HasEqual;
  }

  /** The next argument from `k` on that is no plain one. */
  function NextOpt(c: Config, args: seq<string>, k: nat): (n: nat)
    requires k <= |args|
    ensures k <= n <= |args| && (n < |args| ==> !IsNonOption(c, args[n]))
    decreases |args| - k
  {
    if k < |args| && IsNonOption(c, args[k]) then NextOpt(c, args, k + 1) else k
  }

  /** What the next call of a run does; nothing at the end of the options. */
  function NextTurn(c: Config, args: seq<string>, k: nat, place: string, atStart: bool): (t: Option<Turn>)
    requires k <= |args| && (place != "" ==> k < |args|)
    ensures t.Some? ==> t.value.next <= |args| && (t.value.place != "" ==> t.value.next < |args|)
    ensures t.Some? ==> k < t.value.next || (k == t.value.next && t.value.place != "" && (place == "" || |t.value.place| < |place|))
  {
    if place != "" then Some(ReadTurn(c, args, k, place, atStart))
    else
      var n := NextOpt(c, args, k);
      if n == |args| || args[n] == "--" then None
      else Some(ReadTurn(c, args, n, ScanStart(args[n]), |args[n]| == 1))
  }

  /** All that the calls of a run report, up to the -1. */
  function Events(c: Config, args: seq<string>, k: nat, place: string, atStart: bool): seq<Event>
    requires k <= |args| && (place != "" ==> k < |args|)
    decreases |args| - k, place == "", |place|
  {
    var t := NextTurn(c, args, k, place, atStart);
    if t.None? then [] else [t.value.event] + Events(c, args, t.value.next, t.value.place, false)
  }

  function Join(opts: seq<string>, nons: seq<string>, p: Parts): Parts {
    Parts(opts + p.opts, nons + p.nons, p.rest)
  }

  ghost predicate ValidConfig(c: Config) {
    && (c.long.Some? ==> forall i :: 0 <= i < |c.long.value| ==> c.long.value[i].val != -1)
    && (c.long.Some? ==> !('W' in c.options && CharAt(c.options, IndexOf(c.options, 'W') + 1) == Some(';')))
  }

  // ------------------------------------------------ the vector in blocks

  /** The two blocks waiting to be exchanged: non-options from `ns` to `ne`, options from there to `k`. */
  ghost predicate BlocksOk(start: nat, ns: int, ne: int, k: nat) {
    && start <= k
    && (ns == -1 ==> ne == -1)
    && (ns != -1 ==> start <= ns < k)
    && (ne != -1 ==> ns < ne <= k)
  }

  ghost function OptsIn(v: seq<string>, start: nat, ns: int, ne: int, k: nat): seq<string>
    requires BlocksOk(start, ns, ne, k) && k <= |v|
  {
    if ns == -1 then v[start..k] else if ne == -1 then v[start..ns] else v[start..ns] + v[ne..k]
  }

  ghost function NonsIn(v: seq<string>, ns: int, ne: int, k: nat): seq<string>
    requires BlocksOk(0, ns, ne, k) && k <= |v|
  {
    if ns == -1 then [] else if ne == -1 then v[ns..k] else v[ns..ne]
  }

  lemma SliceJoin(s: seq<string>, i: nat, k: nat, j: nat)
    requires i <= k <= j <= |s|
    ensures s[i..j] == s[i..k] + s[k..j]
  {
  }

  lemma OneElement(v: seq<string>, k: nat)
    requires k < |v|
    ensures v[k..k + 1] == [v[k]]
  {
  }

  lemma SameHead(a: seq<string>, b: seq<string>, k: nat)
    requires k < |a| == |b| && a[k..] == b[k..]
    ensures a[k] == b[k] && a[k + 1..] == b[k + 1..]
  {
    assert a[k] == a[k..][0] && b[k] == b[k..][0];
    assert a[k..][1..] == a[k + 1..] && b[k..][1..] == b[k + 1..];
  }

  lemma SameSlices(a: seq<string>, b: seq<string>, k: nat, w: nat)
    requires k + w <= |a| == |b| && a[k..] == b[k..]
    ensures a[k..k + w] == b[k..k + w] && a[k + w..] == b[k + w..]
  {
    assert a[k..][..w] == a[k..k + w] && b[k..][..w] == b[k..k + w];
    assert a[k..][w..] == a[k + w..] && b[k..][w..] == b[k + w..];
  }

  /** What lies between `k` and `k + w` is read. */
  lemma OptsGrow(v: seq<string>, start: nat, ns: int, ne: int, k: nat, w: nat)
    requires BlocksOk(start, ns, ne, k) && (ns != -1 ==> ne != -1) && k + w <= |v|
    ensures BlocksOk(start, ns, ne, k + w)
    ensures OptsIn(v, start, ns, ne, k + w) == OptsIn(v, start, ns, ne, k) + v[k..k + w]
    ensures NonsIn(v, ns, ne, k + w) == NonsIn(v, ns, ne, k)
  {
    SliceJoin(v, if ns == -1 then start else ne, k, k + w);
  }

  /** The argument at `k` joins the skipped block, which has no options behind it. */
  lemma NonsGrow(v: seq<string>, start: nat, ns: int, k: nat)
    requires BlocksOk(start, ns, -1, k) && k < |v|
    ensures var ns' := if ns == -1 then k else ns;
      && BlocksOk(start, ns', -1, k + 1)
      && OptsIn(v, start, ns', -1, k + 1) == OptsIn(v, start, ns, -1, k)
      && NonsIn(v, ns', -1, k + 1) == NonsIn(v, ns, -1, k) + [v[k]]
  {
    if ns != -1 {
      SliceJoin(v, ns, k, k + 1);
    }
  }

  lemma NonsNonempty(v: seq<string>, ns: int, ne: int, k: nat)
    requires BlocksOk(0, ns, ne, k) && k <= |v| && ne != -1
    ensures |NonsIn(v, ns, ne, k)| == ne - ns > 0
  {
  }

  /** The vector after the exchange: options before the skipped block. */
  lemma Exchanged(v: seq<string>, pre: seq<string>, o: seq<string>, n: seq<string>, rest: seq<string>)
    requires v == pre + o + n + rest && |n| > 0
    ensures var start, k := |pre|, |pre| + |o| + |n|;
      && BlocksOk(start, k - |n|, -1, k)
      && OptsIn(v, start, k - |n|, -1, k) == o && NonsIn(v, k - |n|, -1, k) == n
      && v[..start] == pre && v[k..] == rest
  {
  }

  lemma WholeVector(v: seq<string>, start: nat, ns: int, k: nat)
    requires BlocksOk(start, ns, -1, k) && k <= |v|
    ensures v == v[..start] + OptsIn(v, start, ns, -1, k) + NonsIn(v, ns, -1, k) + v[k..]
  {
  }

  class Parser {
    const c: Config
    const nargv: array<string>
    var optind: nat
    var optreset: bool
    var place: string
    var atStart: bool              // place is the whole argument, no dash skipped
    var nonoptStart: int
    var nonoptEnd: int
    var optarg: Option<string>
    var optopt: int
    var longIndex: int
    var flags: map<nat, int>       // variables set through a long option's flag

    constructor (c: Config, nargv: array<string>)
      requires ValidConfig(c) && nargv.Length >= 1
      ensures this.c == c && this.nargv == nargv && optind == 1 && Inv(nargv[..], 1)
      ensures place == ""
    {
      this.c, this.nargv := c, nargv;
      optind, optreset, place, atStart := 1, false, "", false;
      nonoptStart, nonoptEnd := -1, -1;
      optarg, optopt, longIndex, flags := None, '?' as int, -1, map[];
      new;
      Begin(nargv[..], 1);
    }

    /** The options read so far, where they stand now. */
    ghost function Opts(start: nat): seq<string>
      requires start <= optind <= nargv.Length && Blocks(start)
      reads this`nonoptStart, this`nonoptEnd, this`optind, nargv
    {
      OptsIn(nargv[..], start, nonoptStart, nonoptEnd, optind)
    }

    /** The other arguments skipped so far, where they stand now. */
    ghost function Nons(start: nat): seq<string>
      requires start <= optind <= nargv.Length && Blocks(start)
      reads this`nonoptStart, this`nonoptEnd, this`optind, nargv
    {
      NonsIn(nargv[..], nonoptStart, nonoptEnd, optind)
    }

    ghost predicate Blocks(start: nat)
      reads this`nonoptStart, this`nonoptEnd, this`optind
    {
      BlocksOk(start, nonoptStart, nonoptEnd, optind)
    }

    /**
      Between calls: what was read and skipped so far, with what the rest of the
      original vector contributes, is the whole vector's parts; everything from
      `optind` on still stands where it stood. Inside an argument, the part of it not
      read yet uses the next argument exactly if the whole does.
    */
    ghost predicate Inv(orig: seq<string>, start: nat)
      reads this, nargv
    {
      && ValidConfig(c) && !optreset
      && 0 < start <= optind <= nargv.Length == |orig|
      && Blocks(start)
      && nargv[..][..start] == orig[..start] && nargv[..][optind..] == orig[optind..]
      && Join(Opts(start), Nons(start), Split(c, orig, optind)) == Split(c, orig, start)
      && (place == "" ==> nonoptEnd != optind)
      && (!Permuting() ==> nonoptStart == -1)
      && (place != "" ==>
        && optind < |orig| && !IsNonOption(c, orig[optind]) && orig[optind] != "--"
        && (nonoptStart != -1 ==> nonoptEnd != -1)
        && (atStart ==> place == "-" && '-' in c.options)
        && (Takes(c, place, atStart) <==> Takes(c, ScanStart(orig[optind]), |orig[optind]| == 1)))
    }

    /** What is still to be read does not stall. */
    ghost predicate Goes(orig: seq<string>)
      reads this
    {
      c.long.Some? || (optind <= |orig| &&
        if place == "" then Smooth(c, orig, optind)
        else !Stalls(c, place) && optind < |orig| && orig[optind] != "" && Smooth(c, orig, optind + Width(c, orig, optind)))
    }

    /** After the run: options first, then the rest, each in its original order. */
    ghost predicate Final(orig: seq<string>, start: nat)
      reads this, nargv
    {
      && start <= |orig|
      && var p := Split(c, orig, start);
      && nargv[..] == orig[..start] + p.opts + p.nons + p.rest
      && optind == start + |p.opts|
      && nonoptStart == nonoptEnd == -1 && place == ""
    }

    /** `permute_args` on the skipped block and the options read behind it. */
    method Exchange(ghost start: nat)
      requires start <= optind <= nargv.Length && Blocks(start) && nonoptStart != -1 && nonoptEnd != -1 && nonoptEnd < optind
      modifies nargv
      ensures nargv[..] == old(nargv[..][..start] + Opts(start) + Nons(start) + nargv[..][optind..])
    {
      ghost var v := nargv[..];
      Permutation.Permute(nonoptStart, nonoptEnd, optind, nargv);
      SliceJoin(v, 0, start, nonoptStart);
      assert v[..nonoptStart] == v[..start] + v[start..nonoptStart];
    }

    /** Options read since the last skipped block move in front of it, and the argument at `optind` joins that block. */
    method Skip(ghost start: nat)
      requires 0 < start <= optind < nargv.Length && Blocks(start) && nonoptEnd != optind
      modifies this`nonoptStart, this`nonoptEnd, this`optind, nargv
      ensures optind == old(optind) + 1 && start <= optind <= nargv.Length && Blocks(start) && nonoptEnd == -1
      ensures Opts(start) == old(Opts(start)) && Nons(start) == old(Nons(start)) + [old(nargv[optind])]
      ensures nargv[..][..start] == old(nargv[..][..start]) && nargv[..][optind..] == old(nargv[..][optind + 1..])
    {
      hide OptsIn, NonsIn;
      ghost var v, k := nargv[..], optind;
      ghost var o, n := Opts(start), Nons(start);
      if nonoptEnd != -1 {
        NonsNonempty(v, nonoptStart, nonoptEnd, k);
        Exchange(start);
        Exchanged(nargv[..], v[..start], o, n, v[k..]);
        nonoptStart := optind - (nonoptEnd - nonoptStart);
        nonoptEnd := -1;
        assert nargv[..][k..][0] == v[k..][0];
        assert nargv[..][k..][1..] == nargv[..][k + 1..] && v[k..][1..] == v[k + 1..];
      }
      NonsGrow(nargv[..], start, nonoptStart, k);
      if nonoptStart == -1 {
        nonoptStart := optind;
      }
      optind := optind + 1;
    }

    /** A non-option is skipped. */
    method SkipNonOption(ghost orig: seq<string>, ghost start: nat)
      requires Inv(orig, start) && place == "" && optind < nargv.Length && IsNonOption(c, nargv[optind]) && Permuting()
      modifies this, nargv
      ensures Inv(orig, start) && place == "" && optind == old(optind) + 1 && optarg == old(optarg)
      ensures old(Goes(orig)) ==> Goes(orig)
      ensures old(optind) < |orig| && IsNonOption(c, orig[old(optind)])
    {
      hide Takes, Split, Join, Opts, Nons, Stalls, Width;
      ghost var k := optind;
      ghost var o, n := Opts(start), Nons(start);
      SameHead(nargv[..], orig, k);
      JoinSkip(c, orig, start, k, o, n);
      Skip(start);
    }

    /** The last exchange, and `optind` back to the first non-option. */
    method LastExchange(ghost start: nat)
      requires 0 < start <= optind <= nargv.Length && Blocks(start) && nonoptEnd != optind
      modifies this`nonoptStart, this`nonoptEnd, this`optind, nargv
      ensures nonoptStart == nonoptEnd == -1
      ensures old(nonoptStart == -1) ==> optind == old(optind) && nargv[..] == old(nargv[..])
      ensures old(nonoptStart != -1 ==> nonoptEnd != -1 || optind == nargv.Length)
        ==> optind == start + |old(Opts(start))|
      ensures nargv[..] == old(nargv[..][..start] + Opts(start) + Nons(start) + nargv[..][optind..])
    {
      if nonoptEnd != -1 {
        Exchange(start);
        optind := optind - (nonoptEnd - nonoptStart);
      } else {
        WholeVector(nargv[..], start, nonoptStart, optind);
        if nonoptStart != -1 {
          optind := nonoptStart;
        }
      }
      nonoptStart, nonoptEnd := -1, -1;
    }

    /** The end of the vector. */
    method AtEnd(ghost orig: seq<string>, ghost start: nat)
      requires Inv(orig, start) && place == "" && optind == nargv.Length
      modifies this, nargv
      ensures Final(orig, start) && place == "" && optreset == old(optreset)
      ensures old(nonoptStart == -1) ==> optind == old(optind) && nargv[..] == old(nargv[..])
    {
      hide Takes, Split, Opts, Nons, Blocks;
      ghost var o, n := Opts(start), Nons(start);
      SplitEnd(c, orig, start, o, n);
      LastExchange(start);
    }

    /** `--`: it counts as an option, the last one. */
    method AtDashDash(ghost orig: seq<string>, ghost start: nat)
      requires Inv(orig, start) && place == "" && optind < nargv.Length && nargv[optind] == "--" && !IsNonOption(c, "--")
      modifies this, nargv
      ensures Final(orig, start) && optreset == old(optreset)
      ensures old(nonoptStart == -1) ==> optind == old(optind) + 1 && nargv[..] == old(nargv[..])
    {
      hide Takes, Split, Opts, Nons, Join;
      ghost var k := optind;
      ghost var o, n := Opts(start), Nons(start);
      SameHead(nargv[..], orig, k);
      OneElement(nargv[..], k);
      SplitDashDash(c, orig, start, k, o, n);
      if nonoptStart != -1 && nonoptEnd == -1 {
        MarkEnd(start);
      }
      Advance(1, start);
      assert nargv[..][k..k + 1] == ["--"];
      LastExchange(start);
    }

    /** Moves `optind` over arguments that count as read. */
    method Advance(w: nat, ghost start: nat)
      requires start <= optind && optind + w <= nargv.Length && Blocks(start) && (nonoptStart != -1 ==> nonoptEnd != -1)
      modifies this`optind
      ensures optind == old(optind) + w && Blocks(start)
      ensures Opts(start) == old(Opts(start)) + nargv[..][old(optind)..optind] && Nons(start) == old(Nons(start))
    {
      OptsGrow(nargv[..], start, nonoptStart, nonoptEnd, optind, w);
      optind := optind + w;
    }

    predicate Permuting() {
      c.permute && !c.allArgs
    }

    function BadArg(): int {
      BadArgOf(c)
    }

    /** The table search of `parse_long_options`: the entry found, or -1, and whether the name is ambiguous. */
    static method LookUp(long: seq<LongOption>, name: string, shortToo: bool) returns (match_: int, ambiguous: bool)
      ensures -1 <= match_ < |long|
      ensures FindLong(long, name, shortToo) == Lookup(if match_ == -1 then None else Some(match_), ambiguous)
    {
      match_, ambiguous := -1, false;
      ghost var found := FindLong(long, name, shortToo);
      var i := 0;
      while i < |long|
        invariant 0 <= i <= |long| && -1 <= match_ < i
        invariant Find(long, name, shortToo, i, Lookup(if match_ == -1 then None else Some(match_), ambiguous)) == found
      {
        if name <= long[i].name {
          if |long[i].name| == |name| {
            match_ := i;
            ambiguous := false;
            break;
          }
          if !(shortToo && |name| == 1) {
            if match_ == -1 {
              match_ := i;
            } else if !SameInterpretation(long[i], long[match_]) {
              ambiguous := true;
            }
          }
        }
        i := i + 1;
      }
    }

    /** `parse_long_options` on `place`, whose dashes are skipped */
    method ParseLongOptions(shortToo: bool) returns (r: int)
      requires ValidConfig(c) && c.long.Some? && optind < nargv.Length
      modifies this`optind, this`optarg, this`optopt, this`longIndex, this`flags
      ensures r == -1 <==> NotLong(c.long.value, place, shortToo)
      ensures r == -1 ==> optind == old(optind)
      ensures r != -1 ==>
        optind == old(optind) + if LongTakes(c.long.value, place, shortToo) && old(optind) + 1 < nargv.Length then 2 else 1
      ensures var found := FindLong(c.long.value, NameOf(place), shortToo);
        if found.ambiguous then r == BADCH && optopt == 0 && optarg == old(optarg)
        else if found.match_.None? then
          optarg == old(optarg) && if shortToo then r == -1 && optopt == old(optopt) else r == BADCH && optopt == 0
        else
          var o := c.long.value[found.match_.value];
          if (o.hasArg == NoArgument && HasEqual(place))
            || (o.hasArg == RequiredArgument && !HasEqual(place) && old(optind) + 1 == nargv.Length)
          then r == BadArg() && optopt == (if o.flag.None? then o.val else 0) && (old(optarg).None? ==> optarg.None?)
          else
            && r == LongReturn(o) && longIndex == found.match_.value && optopt == old(optopt)
            && (o.flag.Some? ==> flags == old(flags)[o.flag.value := o.val])
            && (o.hasArg != NoArgument && HasEqual(place) ==> optarg == Some(place[IndexOf(place, '=') + 1..]))
            && (LongTakes(c.long.value, place, shortToo) ==> optarg == Some(nargv[old(optind) + 1]))
            && (o.hasArg == NoArgument || (o.hasArg == OptionalArgument && !HasEqual(place)) ==> optarg == old(optarg))
      ensures r != -1 && old(optarg).None? ==>
        Turn(Event(r, optarg), optind, "") == LongTurn(c, nargv[..], old(optind), place, shortToo)
    {
      hide Find, IndexOf;
      var long := c.long.value;
      var match_, ambiguous;
      optind := optind + 1;
      var hasEqual: Option<string> := None;
      var len := IndexOf(place, '=');
      if len < |place| {
        hasEqual := Some(place[len + 1..]);
      }
      var name := place[..len];
      match_, ambiguous := LookUp(long, name, shortToo);
      if ambiguous {
        optopt := 0;
        return BADCH;
      }
      if match_ == -1 {
        if shortToo {
          optind := optind - 1;
          return -1;
        }
        optopt := 0;
        return BADCH;
      }
      var o := long[match_];
      if o.hasArg == NoArgument && hasEqual.Some? {
        optopt := if o.flag.None? then o.val else 0;
        return BadArg();
      }
      if o.hasArg != NoArgument {
        if hasEqual.Some? {
          optarg := hasEqual;
        } else if o.hasArg == RequiredArgument {
          // The element behind the last one is the null pointer.
          optarg := if optind < nargv.Length then Some(nargv[optind]) else None;
          optind := optind + 1;
        }
      }
      if o.hasArg == RequiredArgument && optarg == None {
        optopt := if o.flag.None? then o.val else 0;
        optind := optind - 1;
        return BadArg();
      }
      longIndex := match_;
      if o.flag.Some? {
        flags := flags[o.flag.value := o.val];
        return 0;
      }
      return o.val;
    }

    /**
      How a listed option is read, `rest` being what follows it in its argument, at `k`:
      without an argument; with the rest for its argument; with none, which is optional;
      with the next element of the vector, or with none where it is missing.
    */
    ghost predicate AsListed(arg: HasArg, ch: char, rest: string, k: nat, r: int)
      reads this, nargv
    {
      if arg == NoArgument then r == ch as int && place == rest && optind == k + (if rest == "" then 1 else 0)
      else if rest != "" then place == "" && r == ch as int && optind == k + 1 && optarg == Some(rest)
      else if arg == OptionalArgument then place == "" && r == ch as int && optind == k + 1 && optarg == None
      else if k + 1 < nargv.Length then
        place == "" && r == ch as int && optind == k + 2 && optarg == Some(nargv[k + 1])
      else place == "" && r == BadArg() && optind == k + 1 && optarg == None
    }

    lemma ListedReading(ch: char)
      ensures forall arg: HasArg :: ListsAs(c.options, ch, arg) ==>
        && ch != ':' && ch in c.options && (TakesArg(c.options, ch) <==> arg != NoArgument)
        && (TakesArg(c.options, ch) ==> (ArgOptional(c.options, ch) <==> arg == OptionalArgument))
    {
      hide ListsAs, TakesArg, ArgOptional;
      forall arg: HasArg | ListsAs(c.options, ch, arg)
        ensures ch != ':' && ch in c.options && (TakesArg(c.options, ch) <==> arg != NoArgument)
        ensures TakesArg(c.options, ch) ==> (ArgOptional(c.options, ch) <==> arg == OptionalArgument)
      {
        ListsAsMeans(c.options, ch, arg);
      }
    }

    /** The short-option part of `getopt_internal`. */
    method ShortOption() returns (r: int)
      requires place != "" && optind < nargv.Length
      modifies this`optind, this`place, this`atStart, this`optarg, this`optopt
      ensures var ch, rest := old(place[0]), old(place[1..]);
        var bad, takes := IsBadChar(c, ch, rest), TakesArg(c.options, ch);
        && (r == -1 <==> bad && ch == '-' && rest == "")
        && (r != -1 && (bad || !takes) ==>
          && place == rest && !atStart && optind == old(optind) + (if rest == "" then 1 else 0)
          && optarg == old(optarg) && r == if bad then BADCH else ch as int)
        && (!bad && takes ==>
          && place == ""
          && if rest != "" then optind == old(optind) + 1 && optarg == Some(rest) && r == ch as int
             else if ArgOptional(c.options, ch) then optind == old(optind) + 1 && optarg == None && r == ch as int
             else if old(optind) + 1 < nargv.Length then
               optind == old(optind) + 2 && optarg == Some(nargv[old(optind) + 1]) && r == ch as int
             else optind == old(optind) + 1 && optarg == None && r == BadArg())
      ensures var ch, rest := old(place[0]), old(place[1..]);
        forall arg: HasArg :: ListsAs(c.options, ch, arg) && ch != '-' ==> AsListed(arg, ch, rest, old(optind), r)
      ensures r != -1 && old(optarg).None? ==> IsTurn(ShortTurn(c, nargv[..], old(optind), old(place)), r)
    {
      ListedReading(place[0]);
      var ch := place[0];
      place := place[1..];
      atStart := false;
      if ch == ':' || (ch == '-' && place != "") || ch !in c.options {
        if ch == '-' && place == "" {
          return -1;
        }
        if place == "" {
          optind := optind + 1;
        }
        optopt := ch as int;
        return BADCH;
      }
      if !TakesArg(c.options, ch) {
        if place == "" {
          optind := optind + 1;
        }
      } else {
        optarg := None;
        if place != "" {
          optarg := Some(place);
        } else if !ArgOptional(c.options, ch) {
          optind := optind + 1;
          if optind >= nargv.Length {
            place := "";
            optopt := ch as int;
            return BadArg();
          }
          optarg := Some(nargv[optind]);
        }
        place := "";
        optind := optind + 1;
      }
      return ch as int;
    }

    /** Before a call: between calls of a run, or at the start of one. */
    ghost predicate Ready(orig: seq<string>, start: nat)
      reads this, nargv
    {
      if optreset || optind == 0 then
        && ValidConfig(c) && orig == nargv[..]
        && start == (if optind == 0 then 1 else optind) <= nargv.Length
        && (optind == 0 || optreset)
      else Inv(orig, start)
    }

    /** No option that a run from here on comes to stalls. */
    ghost predicate WillGo(orig: seq<string>, start: nat)
      reads this
    {
      if optreset || optind == 0 then start <= |orig| && Smooth(c, orig, start) else Goes(orig)
    }

    /** The first option behind a skipped block marks the end of that block. */
    method MarkEnd(ghost start: nat)
      requires 0 < start <= optind <= nargv.Length && Blocks(start)
      requires nonoptStart != -1 && nonoptEnd == -1
      modifies this`nonoptEnd
      ensures nonoptEnd == optind && Blocks(start) && Opts(start) == old(Opts(start)) && Nons(start) == old(Nons(start))
    {
      nonoptEnd := optind;
    }

    /** Scanning the argument at `k` is about to begin. */
    ghost predicate StartsAt(orig: seq<string>, k: nat)
      reads this
    {
      k < |orig| && orig[k] != "" && orig[k] != "--" && place == ScanStart(orig[k]) && atStart == (|orig[k]| == 1)
    }

    /** The options end at `k`. */
    ghost predicate OptionsEnd(orig: seq<string>, k: nat) {
      k <= |orig| && var n := NextOpt(c, orig, k); n == |orig| || orig[n] == "--"
    }

    /** An option starts at `optind`: `--` ends the run, any other becomes the place to scan. */
    method OptionAt(ghost orig: seq<string>, ghost start: nat) returns (stop: bool)
      requires Inv(orig, start) && place == "" && optind < nargv.Length && !IsNonOption(c, nargv[optind])
      modifies this, nargv
      ensures stop ==> Final(orig, start) && place == ""
      ensures stop <==> old(nargv[optind]) == "--"
      ensures stop && old(nonoptStart == -1) ==> nargv[old(optind)] == "--" && optind == old(optind) + 1 && nargv[..] == old(nargv[..])
      ensures !stop ==> Inv(orig, start) && place != "" && optind == old(optind) && nargv[..] == old(nargv[..])
      ensures !stop && old(Goes(orig)) ==> Goes(orig)
      ensures !stop ==> optarg == old(optarg) && StartsAt(orig, optind)
      ensures old(optind) < |orig| && old(nargv[optind]) == orig[old(optind)]
    {
      hide Takes, Split, Join, Opts, Nons, Stalls, Width;
      SameHead(nargv[..], orig, optind);
      if nargv[optind] == "--" {
        AtDashDash(orig, start);
        return true;
      }
      if nonoptStart != -1 && nonoptEnd == -1 {
        MarkEnd(start);
      }
      atStart := |nargv[optind]| == 1;
      place := if atStart then nargv[optind] else nargv[optind][1..];
      return false;
    }

    lemma InvBounds(orig: seq<string>, start: nat)
      requires Inv(orig, start)
      ensures optind <= nargv.Length == |orig|
      ensures !Permuting() ==> nonoptStart == -1
    {
    }

    /** No option is read at `k`. */
    ghost predicate Stops(k: nat)
      reads nargv
      requires k <= nargv.Length
    {
      k == nargv.Length || IsNonOption(c, nargv[k]) || nargv[k] == "--"
    }

    /**
      How a call without permuting ends at `k` when no option is read there: at the end
      of the vector, at a non-option, which may be returned as an argument, or behind `--`.
    */
    ghost predicate Stopped(k: nat, r: int)
      reads this, nargv
      requires k <= nargv.Length
    {
      if k == nargv.Length then r == -1 && optind == k
      else if IsNonOption(c, nargv[k]) then
        if c.allArgs then r == INORDER && optind == k + 1 && optarg == Some(nargv[k]) else r == -1 && optind == k
      else nargv[k] == "--" && r == -1 && optind == k + 1
    }

    /** The part of `getopt_internal` at its label: finds the next argument to read. */
    method NextElement(ghost orig: seq<string>, ghost start: nat) returns (stop: bool, r: int)
      requires Inv(orig, start) && place == ""
      modifies this, nargv
      ensures stop && Permuting() ==> r == -1 && Final(orig, start)
      ensures !Permuting() ==> nargv[..] == old(nargv[..]) && (stop <==> Stops(old(optind)))
      ensures !Permuting() && stop ==> place == "" && Stopped(old(optind), r)
      ensures !stop ==> Inv(orig, start) && place != "" && old(optind) <= optind
      ensures !stop && old(Goes(orig)) ==> Goes(orig)
      ensures old(optind) <= |orig|
      ensures stop && Permuting() ==> OptionsEnd(orig, old(optind))
      ensures !stop ==> optarg == old(optarg) && optind == NextOpt(c, orig, old(optind)) && StartsAt(orig, optind)
    {
      hide Inv, Final, IsNonOption, Goes, StartsAt;
      InvBounds(orig, start);
      while true
        invariant Inv(orig, start) && place == "" && old(optind) <= optind <= |orig| && optarg == old(optarg)
        invariant NextOpt(c, orig, optind) == NextOpt(c, orig, old(optind))
        invariant !Permuting() ==> optind == old(optind) && nargv[..] == old(nargv[..])
        invariant old(Goes(orig)) ==> Goes(orig)
        decreases nargv.Length - optind
      {
        InvBounds(orig, start);
        if optind >= nargv.Length {
          AtEnd(orig, start);
          return true, -1;
        }
        if IsNonOption(c, nargv[optind]) {
          if c.allArgs {
            optarg := Some(nargv[optind]);
            optind := optind + 1;
            return true, INORDER;
          }
          if !c.permute {
            return true, -1;
          }
          SkipNonOption(orig, start);
        } else {
          stop := OptionAt(orig, start);
          return stop, -1;
        }
      }
      assert false;
    }

    /** The state after a call that has read an option. */
    ghost predicate IsTurn(t: Turn, r: int)
      reads this
    {
      t == Turn(Event(r, optarg), optind, place) && (place != "" ==> !atStart)
    }

    /** What is read as a short option is no `-` that would end the run. */
    lemma Unstalled(p: string, start: bool)
      requires p != "" && (start ==> p == "-" && '-' in c.options)
      ensures (if c.long.Some? then !TriesLong(c, p, start) || ShortToo(c, p) else !Stalls(c, p)) ==>
        !(IsBadChar(c, p[0], p[1..]) && p[0] == '-' && p[1..] == "")
    {
      hide TakesArg;
    }

    /** What is left of the current argument is read as a long or a short option. */
    method ReadOption(ghost orig: seq<string>) returns (r: int)
      requires ValidConfig(c) && place != "" && optind < nargv.Length == |orig|
      requires atStart ==> place == "-" && '-' in c.options
      requires optarg.None? && nargv[..][optind..] == orig[optind..]
      modifies this`optind, this`place, this`atStart, this`optarg, this`optopt, this`longIndex, this`flags
      ensures c.long.Some? || !Stalls(c, old(place)) ==>
        r != -1 && IsTurn(ReadTurn(c, orig, old(optind), old(place), old(atStart)), r)
    {
      hide TakesArg, ArgOptional, FindLong, NameOf, HasEqual, Takes, ListsAs, LongTurn, ShortTurn, NotLong;
      ghost var p, k := place, optind;
      SameTurn(c, nargv[..], orig, k, p, atStart);
      Unstalled(p, atStart);
      if c.long.Some? && !atStart && (place[0] == '-' || c.longOnly) {
        var shortToo := false;
        if place[0] == '-' {
          place := place[1..];
        } else if place[0] != ':' && place[0] in c.options {
          shortToo := true;
        }
        assert place == LongPart(p) && shortToo == ShortToo(c, p);
        r := ParseLongOptions(shortToo);
        if r != -1 {
          place := "";
          return;
        }
      }
      r := ShortOption();
    }

    /** The step of `getopt_internal` that reads on in an argument keeps the account of the run. */
    method ReadOn(ghost orig: seq<string>, ghost start: nat) returns (r: int)
      requires Inv(orig, start) && place != "" && optarg.None?
      modifies this`optind, this`place, this`atStart, this`optarg, this`optopt, this`longIndex, this`flags
      ensures old(Goes(orig)) ==> r != -1 && Inv(orig, start) && Goes(orig)
      ensures old(optind) < |orig|
      ensures old(Goes(orig)) ==> IsTurn(ReadTurn(c, orig, old(optind), old(place), old(atStart)), r)
    {
      hide Takes, Split, Join, OptsIn, NonsIn, Stalls, Smooth, ReadTurn;
      ghost var k, goes := optind, Goes(orig);
      if goes {
        TurnTakes(c, orig, k, place, atStart);
      }
      r := ReadOption(orig);
      if goes && place == "" {
        assert optind == k + Width(c, orig, k);
        Account(orig, start, k);
      }
    }

    /** When the option at `k` has been read whole, the account of the run includes it. */
    lemma Account(orig: seq<string>, start: nat, k: nat)
      requires ValidConfig(c) && !optreset && place == ""
      requires 0 < start <= k < nargv.Length == |orig| && !IsNonOption(c, orig[k]) && orig[k] != "--"
      requires optind == k + Width(c, orig, k)
      requires BlocksOk(start, nonoptStart, nonoptEnd, k) && (nonoptStart != -1 ==> nonoptEnd != -1)
      requires nargv[..][..start] == orig[..start] && nargv[..][k..] == orig[k..] && (!Permuting() ==> nonoptStart == -1)
      requires var o, n := OptsIn(nargv[..], start, nonoptStart, nonoptEnd, k), NonsIn(nargv[..], nonoptStart, nonoptEnd, k);
        Join(o, n, Split(c, orig, k)) == Split(c, orig, start)
      ensures Inv(orig, start)
    {
      hide Takes, Split, Join, IsNonOption, Width, OptsIn, NonsIn;
      var v := nargv[..];
      JoinOption(c, orig, start, k, OptsIn(v, start, nonoptStart, nonoptEnd, k), NonsIn(v, nonoptStart, nonoptEnd, k));
      SameSlices(v, orig, k, optind - k);
      OptsGrow(v, start, nonoptStart, nonoptEnd, k, optind - k);
    }

    /** A call made now does not come to an option. */
    ghost predicate StopsNow(start: nat)
      reads this, nargv
    {
      if optreset || optind == 0 then start <= nargv.Length && Stops(start)
      else place == "" && optind <= nargv.Length && Stops(optind)
    }

    /** Where a call begins to read: in the vector, and in an argument. */
    ghost function Before(orig: seq<string>, start: nat): (nat, string)
      reads this
    {
      if optreset || optind == 0 then (start, "") else (optind, place)
    }

    /** The call has done the next turn of the run, or there is none. */
    ghost predicate Turned(orig: seq<string>, at: (nat, string), was: bool, r: int)
      reads this
    {
      at.0 <= |orig| && (at.1 != "" ==> at.0 < |orig|) &&
        match NextTurn(c, orig, at.0, at.1, was)
        case None => r == -1
        case Some(t) => r != -1 && IsTurn(t, r)
    }

    /** `getopt_internal` */
    method GetoptInternal(ghost orig: seq<string>, ghost start: nat) returns (r: int)
      requires Ready(orig, start)
      modifies this, nargv
      ensures !Permuting() ==> nargv[..] == old(nargv[..])
      ensures !Permuting() && old(StopsNow(start)) ==> place == "" && Stopped(old(if optreset || optind == 0 then start else optind), r)
      ensures !Permuting() && old(!StopsNow(start) && WillGo(orig, start)) ==> r != -1 && Inv(orig, start) && Goes(orig)
      ensures old(WillGo(orig, start)) && (Permuting() || old(!StopsNow(start))) ==>
        old(Before(orig, start).1 != "" ==> Before(orig, start).0 < |orig|) && Turned(orig, old(Before(orig, start)), old(atStart), r)
      ensures Permuting() && old(WillGo(orig, start)) && r == -1 ==> Final(orig, start)
      ensures Permuting() && old(WillGo(orig, start)) && r != -1 ==> Inv(orig, start) && Goes(orig)
    {
      hide Takes, Split, Opts, Nons, Join, Blocks, Smooth, Stalls, ReadTurn, NextOpt, Final, OptsIn, NonsIn, IsNonOption, Stopped, IsTurn;
      ghost var goes := WillGo(orig, start);
      if optind == 0 {
        optind, optreset := 1, true;
      }
      optarg := None;
      if optreset {
        nonoptStart, nonoptEnd := -1, -1;
      }
      if optreset || place == "" {
        if optreset {
          optreset, place := false, "";
          Begin(orig, start);
        }
        var stop;
        stop, r := NextElement(orig, start);
        if stop {
          return;
        }
      }
      r := ReadOn(orig, start);
    }

    /** At the start of a run nothing has been read or skipped. */
    lemma Begin(orig: seq<string>, start: nat)
      requires ValidConfig(c) && !optreset && place == "" && nonoptStart == nonoptEnd == -1
      requires 0 < start == optind <= nargv.Length && orig == nargv[..]
      ensures Inv(orig, start)
    {
    }
  }

  lemma SplitEnd(c: Config, args: seq<string>, start: nat, o: seq<string>, n: seq<string>)
    requires start <= |args| && Join(o, n, Split(c, args, |args|)) == Split(c, args, start)
    ensures Split(c, args, start) == Parts(o, n, [])
  {
  }

  lemma SplitDashDash(c: Config, args: seq<string>, start: nat, k: nat, o: seq<string>, n: seq<string>)
    requires start <= k < |args| && args[k] == "--" && !IsNonOption(c, "--")
    requires Join(o, n, Split(c, args, k)) == Split(c, args, start)
    ensures Split(c, args, start) == Parts(o + ["--"], n, args[k + 1..])
  {
  }

  lemma JoinSkip(c: Config, args: seq<string>, start: nat, k: nat, o: seq<string>, n: seq<string>)
    requires start <= k < |args| && IsNonOption(c, args[k])
    ensures Join(o, n, Split(c, args, k)) == Join(o, n + [args[k]], Split(c, args, k + 1))
  {
    hide Takes;
    var p := Split(c, args, k + 1);
    assert n + ([args[k]] + p.nons) == n + [args[k]] + p.nons;
  }

  lemma JoinOption(c: Config, args: seq<string>, start: nat, k: nat, o: seq<string>, n: seq<string>)
    requires start <= k < |args| && !IsNonOption(c, args[k]) && args[k] != "--"
    ensures var w := Width(c, args, k);
      Join(o, n, Split(c, args, k)) == Join(o + args[k..k + w], n, Split(c, args, k + w))
  {
    hide Takes, Width;
    var w := Width(c, args, k);
    var p := Split(c, args, k + w);
    assert o + (args[k..k + w] + p.opts) == o + args[k..k + w] + p.opts;
  }

  /**
    A whole permuting run: calls until -1 comes back. The vector ends as the program
    name, the options with their arguments in the order given, the other arguments in
    the order given, and what followed a `--`; `optind` is the first non-option. The
    calls have reported the options in the order given.
  */
  method Run(c: Config, nargv: array<string>) returns (optind: nat, events: seq<Event>)
    requires ValidConfig(c) && c.permute && !c.allArgs && nargv.Length >= 1 && Smooth(c, nargv[..], 1)
    modifies nargv
    ensures var p := Split(c, old(nargv[..]), 1);
      && nargv[..] == old(nargv[..1]) + p.opts + p.nons + p.rest
      && optind == 1 + |p.opts|
    ensures events == Events(c, old(nargv[..]), 1, "", false)
  {
    hide Split, Join, NextTurn, Events, Takes, Stalls, OptsIn, NonsIn, Smooth;
    ghost var orig := nargv[..];
    var g := new Parser(c, nargv);
    events := [];
    var r := 0;
    while r != -1
      invariant g.c == c && g.nargv == nargv && fresh(g)
      invariant if r == -1 then g.Final(orig, 1) else g.Inv(orig, 1) && g.Goes(orig)
      invariant Told(c, orig, events, if r == -1 then None else Some((g.optind, g.place, g.place != "" && g.atStart)))
      decreases r != -1, nargv.Length - g.optind, g.place == "", |g.place|
    {
      ghost var k, p, s := g.optind, g.place, g.atStart;
      TurnAhead(c, orig, k, p, s);
      r := g.GetoptInternal(orig, 1);
      ghost var was := events;
      if r != -1 {
        events := events + [Event(r, g.optarg)];
      }
      TellNext(c, orig, was, k, p, s);
    }
    optind := g.optind;
  }

  /** What has been reported is all there is to report, but for what comes from the given place on. */
  ghost predicate Told(c: Config, args: seq<string>, events: seq<Event>, at: Option<(nat, string, bool)>) {
    match at
    case None => 1 <= |args| && events == Events(c, args, 1, "", false)
    case Some((k, place, atStart)) =>
      && 1 <= |args| && k <= |args| && (place != "" ==> k < |args|)
      && events + Events(c, args, k, place, atStart) == Events(c, args, 1, "", false)
  }

  lemma TurnAhead(c: Config, args: seq<string>, k: nat, place: string, atStart: bool)
    requires k <= |args| && (place != "" ==> k < |args|)
    ensures NextTurn(c, args, k, place, atStart) == NextTurn(c, args, k, place, place != "" && atStart)
    ensures var t := NextTurn(c, args, k, place, atStart);
      t.Some? ==> k < t.value.next || (k == t.value.next && t.value.place != "" && (place == "" || |t.value.place| < |place|))
  {
  }

  lemma TellNext(c: Config, args: seq<string>, events: seq<Event>, k: nat, place: string, atStart: bool)
    requires Told(c, args, events, Some((k, place, place != "" && atStart)))
    ensures match NextTurn(c, args, k, place, atStart)
      case None => Told(c, args, events, None)
      case Some(t) => Told(c, args, events + [t.event], Some((t.next, t.place, false)))
  {
    TurnAhead(c, args, k, place, atStart);
    hide NextTurn;
    var t := NextTurn(c, args, k, place, atStart);
    if t.Some? {
      var rest := Events(c, args, t.value.next, t.value.place, false);
      assert events + ([t.value.event] + rest) == events + [t.value.event] + rest;
    }
  }

  // --------------------------------------------- what the parts are

  /** The position of each argument that counts as an option, or as an option's argument. */
  function IsOption(c: Config, args: seq<string>, k: nat): (r: seq<bool>)
    requires k <= |args|
    ensures |r| <= |args| - k
    decreases |args| - k
  {
    if k == |args| then []
    else if IsNonOption(c, args[k]) then [false] + IsOption(c, args, k + 1)
    else if args[k] == "--" then [true]
    else
      var w := Width(c, args, k);
      seq(w, _ => true) + IsOption(c, args, k + w)
  }

  /** The elements of `s` whose mark is `want`, in order. */
  function Select(s: seq<string>, marks: seq<bool>, want: bool): seq<string>
    requires |marks| <= |s|
  {
    if |marks| == 0 then []
    else (if marks[0] == want then [s[0]] else []) + Select(s[1..], marks[1..], want)
  }

  /** Each part is a subsequence of the original vector: the split is stable. */
  lemma {:induction false} SplitIsStable(c: Config, args: seq<string>, k: nat)
    requires k <= |args|
    ensures var marks, p := IsOption(c, args, k), Split(c, args, k);
      && p.opts == Select(args[k..], marks, true)
      && p.nons == Select(args[k..], marks, false)
      && p.rest == args[k + |marks|..]
    decreases |args| - k
  {
    hide Takes, Width, Select, Split;
    SplitUnfolds(c, args, k);
    if k == |args| {
      SelectNone(args[k..]);
    } else if IsNonOption(c, args[k]) {
      SplitIsStable(c, args, k + 1);
      SelectOne(args, k, IsOption(c, args, k + 1));
    } else if args[k] == "--" {
      SelectAll(args, k, 1, []);
      SelectNone(args[k + 1..]);
      assert seq(1, _ => true) + [] == [true];
    } else {
      var w := Width(c, args, k);
      SplitIsStable(c, args, k + w);
      SelectAll(args, k, w, IsOption(c, args, k + w));
    }
  }

  /** The elements of all three parts. */
  ghost function Elements(p: Parts): multiset<string> {
    multiset(p.opts) + multiset(p.nons) + multiset(p.rest)
  }

  lemma MoreOpts(a: seq<string>, p: Parts)
    ensures Elements(Parts(a + p.opts, p.nons, p.rest)) == multiset(a) + Elements(p)
  {
  }

  lemma MoreNons(a: seq<string>, p: Parts)
    ensures Elements(Parts(p.opts, a + p.nons, p.rest)) == multiset(a) + Elements(p)
  {
  }

  lemma SliceMultiset(s: seq<string>, k: nat, e: nat)
    requires k <= e <= |s|
    ensures multiset(s[k..]) == multiset(s[k..e]) + multiset(s[e..])
  {
    assert s[k..] == s[k..e] + s[e..];
  }

  /** Nothing is lost or invented. */
  lemma {:induction false} SplitPermutes(c: Config, args: seq<string>, k: nat)
    requires k <= |args|
    ensures Elements(Split(c, args, k)) == multiset(args[k..])
    decreases |args| - k
  {
    hide Takes, Width, Split, Elements;
    SplitUnfolds(c, args, k);
    if k == |args| {
      NoElements(args);
    } else if IsNonOption(c, args[k]) {
      SplitPermutes(c, args, k + 1);
      MoreNons([args[k]], Split(c, args, k + 1));
      SliceMultiset(args, k, k + 1);
      assert args[k..k + 1] == [args[k]];
    } else if args[k] == "--" {
      DashElements(args, k);
    } else {
      var w := Width(c, args, k);
      SplitPermutes(c, args, k + w);
      MoreOpts(args[k..k + w], Split(c, args, k + w));
      SliceMultiset(args, k, k + w);
    }
  }

  lemma NoElements(args: seq<string>)
    ensures Elements(Parts([], [], [])) == multiset(args[|args|..])
  {
  }

  lemma DashElements(args: seq<string>, k: nat)
    requires k < |args| && args[k] == "--"
    ensures Elements(Parts(["--"], [], args[k + 1..])) == multiset(args[k..])
  {
    SliceMultiset(args, k, k + 1);
    assert args[k..k + 1] == ["--"];
  }

  lemma SplitUnfolds(c: Config, args: seq<string>, k: nat)
    requires k <= |args|
    ensures k == |args| ==> Split(c, args, k) == Parts([], [], [])
    ensures k < |args| && IsNonOption(c, args[k]) ==>
      var p := Split(c, args, k + 1); Split(c, args, k) == Parts(p.opts, [args[k]] + p.nons, p.rest)
    ensures k < |args| && !IsNonOption(c, args[k]) ==>
      if args[k] == "--" then Split(c, args, k) == Parts(["--"], [], args[k + 1..])
      else
        var w := Width(c, args, k);
        var p := Split(c, args, k + w);
        Split(c, args, k) == Parts(args[k..k + w] + p.opts, p.nons, p.rest)
  {
    hide Takes, Width;
  }

  lemma SelectNone(s: seq<string>)
    ensures Select(s, [], true) == [] && Select(s, [], false) == []
  {
  }

  lemma SelectOne(args: seq<string>, k: nat, marks: seq<bool>)
    requires k + 1 + |marks| <= |args|
    ensures Select(args[k..], [false] + marks, true) == Select(args[k + 1..], marks, true)
    ensures Select(args[k..], [false] + marks, false) == [args[k]] + Select(args[k + 1..], marks, false)
  {
    assert args[k..][1..] == args[k + 1..] && ([false] + marks)[1..] == marks;
  }

  lemma {:induction false} SelectAll(args: seq<string>, k: nat, w: nat, marks: seq<bool>)
    requires k + w + |marks| <= |args|
    ensures var all := seq(w, _ => true) + marks;
      && Select(args[k..], all, true) == args[k..k + w] + Select(args[k + w..], marks, true)
      && Select(args[k..], all, false) == Select(args[k + w..], marks, false)
    decreases w
  {
    var all := seq(w, _ => true) + marks;
    if w == 0 {
      assert all == marks;
    } else {
      SelectAll(args, k + 1, w - 1, marks);
      assert all[1..] == seq(w - 1, _ => true) + marks;
      assert args[k..][1..] == args[k + 1..] && args[k..k + w] == [args[k]] + args[k + 1..k + w];
    }
  }
}
