/**
  Argument vectors by what is meant with them: plain arguments, groups of short options
  and long options, each with its argument glued on or standing apart. However they are
  mixed, a run sorts such a vector into its options and its plain arguments.
*/
module GetoptItems {
  import opened Basics
  import opened OptionString
  import opened Getopt

  /** How a group of short options ends: with an option whose argument is glued on, left out or the next word. */
  datatype Tail = NoTail | Glued(ch: char, text: string) | Alone(ch: char) | Apart(ch: char, text: string)

  datatype Item =
    | Plain(word: string)
    | Cluster(chars: string, tail: Tail)
    | Long(name: string)
    | LongWith(name: string, text: string)
    | LongApart(name: string, text: string)

  function TailText(t: Tail): string {
    match t
    case NoTail => ""
    case Glued(ch, text) => [ch] + text
    case Alone(ch) => [ch]
    case Apart(ch, _) => [ch]
  }

  /** The words an item is written as. */
  function Words(it: Item): (w: seq<string>)
    ensures 1 <= |w| <= 2
  {
    match it
    case Plain(word) => [word]
    case Cluster(chars, tail) => ["-" + (chars + TailText(tail))] + if tail.Apart? then [tail.text] else []
    case Long(name) => ["--" + name]
    case LongWith(name, text) => ["--" + (name + ("=" + text))]
    case LongApart(name, text) => ["--" + name, text]
  }

  function AllWords(items: seq<Item>): seq<string> {
    if |items| == 0 then [] else Words(items[0]) + AllWords(items[1..])
  }

  /** The words of the options among the items, and the plain ones. */
  function Options(items: seq<Item>): seq<string> {
    if |items| == 0 then []
    else (if items[0].Plain? then [] else Words(items[0])) + Options(items[1..])
  }

  function Plains(items: seq<Item>): seq<string> {
    if |items| == 0 then []
    else (if items[0].Plain? then [items[0].word] else []) + Plains(items[1..])
  }

  // ------------------------------------------------ what is understood

  /** What is known of short options: their entries. */
  ghost predicate Known(c: Config, silent: bool, es: seq<Entry>) {
    Distinct(es) && c.options == Written(silent, es) && (c.long.None? || !c.longOnly)
  }

  predicate Flag(es: seq<Entry>, ch: char, arg: HasArg) {
    ch != '-' && Entry(ch, arg) in es
  }

  ghost predicate TailOk(es: seq<Entry>, t: Tail) {
    match t
    case NoTail => true
    case Glued(ch, text) => text != "" && (Flag(es, ch, RequiredArgument) || Flag(es, ch, OptionalArgument))
    case Alone(ch) => Flag(es, ch, OptionalArgument)
    case Apart(ch, _) => Flag(es, ch, RequiredArgument)
  }

  /** The first long option of this name takes its argument so. */
  ghost predicate LongOk(c: Config, name: string, args: set<HasArg>) {
    && c.long.Some? && name != "" && '=' !in name
    && exists m: nat :: FirstExact(c.long.value, name, m) && c.long.value[m].hasArg in args
  }

  ghost predicate ItemOk(c: Config, es: seq<Entry>, it: Item) {
    match it
    case Plain(word) => word == "" || word[0] != '-' || (word == "-" && !Lists(es, '-'))
    case Cluster(chars, tail) =>
      && (chars != "" || tail != NoTail) && TailOk(es, tail)
      && forall k :: 0 <= k < |chars| ==> Flag(es, chars[k], NoArgument)
    case Long(name) => LongOk(c, name, {NoArgument, OptionalArgument})
    case LongWith(name, _) => LongOk(c, name, {RequiredArgument, OptionalArgument})
    case LongApart(name, _) => LongOk(c, name, {RequiredArgument})
  }

  // --------------------------------------------------- short options

  /** A listed character, as `Takes` sees it. */
  lemma FlagMeans(c: Config, silent: bool, es: seq<Entry>, ch: char, arg: HasArg, rest: string)
    requires Known(c, silent, es) && Flag(es, ch, arg)
    ensures !IsBadChar(c, ch, rest)
    ensures TakesArg(c.options, ch) <==> arg != NoArgument
    ensures TakesArg(c.options, ch) ==> (ArgOptional(c.options, ch) <==> arg == OptionalArgument)
  {
    hide TakesArg, ArgOptional, Written;
    var k :| 0 <= k < |es| && es[k] == Entry(ch, arg);
    EntryMeans(silent, es, k);
  }

  /** A group of short options uses the next word exactly if it ends with an option that asks for it. */
  lemma {:induction false} ClusterTakes(c: Config, silent: bool, es: seq<Entry>, chars: string, tail: Tail)
    requires Known(c, silent, es) && TailOk(es, tail) && forall k :: 0 <= k < |chars| ==> Flag(es, chars[k], NoArgument)
    ensures Takes(c, chars + TailText(tail), false) <==> tail.Apart?
    ensures !Stalls(c, chars + TailText(tail))
    decreases |chars|
  {
    hide TakesArg, ArgOptional, IsBadChar, Known, Flag;
    var place := chars + TailText(tail);
    if chars != "" {
      var rest := chars[1..] + TailText(tail);
      assert place[0] == chars[0] && place[1..] == rest;
      FlagMeans(c, silent, es, chars[0], NoArgument, rest);
      ClusterTakes(c, silent, es, chars[1..], tail);
      NotDash(c, silent, es, chars[0], NoArgument);
    } else {
      assert place == TailText(tail);
      TailTakes(c, silent, es, tail);
    }
  }

  lemma NotDash(c: Config, silent: bool, es: seq<Entry>, ch: char, arg: HasArg)
    requires Known(c, silent, es) && Flag(es, ch, arg)
    ensures ch != '-' && (c.long.None? || !c.longOnly)
  {
  }

  lemma TailTakes(c: Config, silent: bool, es: seq<Entry>, tail: Tail)
    requires Known(c, silent, es) && TailOk(es, tail)
    ensures Takes(c, TailText(tail), false) <==> tail.Apart?
    ensures !Stalls(c, TailText(tail))
  {
    hide TakesArg, ArgOptional, IsBadChar, Known, Flag;
    match tail {
      case NoTail =>
      case Glued(ch, text) =>
        var arg := if Flag(es, ch, RequiredArgument) then RequiredArgument else OptionalArgument;
        assert TailText(tail)[1..] == text;
        FlagMeans(c, silent, es, ch, arg, text);
        NotDash(c, silent, es, ch, arg);
      case Alone(ch) =>
        assert [ch][1..] == "";
        FlagMeans(c, silent, es, ch, OptionalArgument, "");
        NotDash(c, silent, es, ch, OptionalArgument);
      case Apart(ch, _) =>
        assert [ch][1..] == "";
        FlagMeans(c, silent, es, ch, RequiredArgument, "");
        NotDash(c, silent, es, ch, RequiredArgument);
    }
  }

  // ---------------------------------------------------- long options

  lemma NameIs(name: string, tail: string)
    requires '=' !in name && (tail == "" || tail[0] == '=')
    ensures NameOf(name + tail) == name && (HasEqual(name + tail) <==> tail != "")
  {
    FirstBehind(name, tail, '=');
    assert tail != "" ==> '=' in tail;
  }

  /** A long option uses the next word exactly if it asks for an argument and none is glued on. */
  lemma LongTakesIs(c: Config, name: string, tail: string, arg: HasArg)
    requires LongOk(c, name, {arg}) && (tail == "" || tail[0] == '=')
    ensures Takes(c, "-" + (name + tail), false) <==> arg == RequiredArgument && tail == ""
  {
    hide IsBadChar, NameOf, HasEqual, FindLong;
    var place := "-" + (name + tail);
    assert place[1..] == name + tail;
    NameIs(name, tail);
    var long := c.long.value;
    var m: nat :| FirstExact(long, name, m) && long[m].hasArg in {arg};
    FindLongIs(long, name, false);
    assert FirstExact(long, name, FindLong(long, name, false).match_.value);
  }

  // ------------------------------------------------- the whole vector

  /** The words of an item stand at `k`. */
  ghost predicate StandsAt(args: seq<string>, k: nat, it: Item) {
    k + |Words(it)| <= |args| && args[k..k + |Words(it)|] == Words(it)
  }

  /** A plain argument is skipped, and an option is as wide as its words. */
  lemma ItemReads(c: Config, silent: bool, es: seq<Entry>, args: seq<string>, k: nat, it: Item)
    requires Known(c, silent, es) && ItemOk(c, es, it) && StandsAt(args, k, it)
    ensures it.Plain? <==> IsNonOption(c, args[k])
    ensures !it.Plain? ==> args[k] != "--" && Width(c, args, k) == |Words(it)|
    ensures !it.Plain? && it.Cluster? ==> !Stalls(c, ScanStart(args[k]))
  {
    hide Takes, Stalls, Known, Flag;
    assert args[k] == Words(it)[0];
    match it {
      case Plain(word) => DashListed(c, silent, es);
      case Cluster(chars, tail) =>
        ClusterTakes(c, silent, es, chars, tail);
        ClusterWord(c, silent, es, chars, tail);
        assert args[k][1..] == chars + TailText(tail);
      case Long(name) =>
        var arg := if LongOk(c, name, {NoArgument}) then NoArgument else OptionalArgument;
        assert name + "" == name && args[k][1..] == "-" + name;
        LongTakesIs(c, name, "", arg);
      case LongWith(name, text) =>
        var arg := if LongOk(c, name, {RequiredArgument}) then RequiredArgument else OptionalArgument;
        assert args[k][1..] == "-" + (name + ("=" + text));
        LongTakesIs(c, name, "=" + text, arg);
      case LongApart(name, _) =>
        assert name + "" == name && args[k][1..] == "-" + name;
        LongTakesIs(c, name, "", RequiredArgument);
    }
  }

  lemma DashListed(c: Config, silent: bool, es: seq<Entry>)
    requires Known(c, silent, es)
    ensures '-' in c.options <==> Lists(es, '-')
  {
    ListMeans(silent, es, '-');
  }

  /** A group of short options is not empty, and starts with no second dash. */
  lemma ClusterWord(c: Config, silent: bool, es: seq<Entry>, chars: string, tail: Tail)
    requires ItemOk(c, es, Cluster(chars, tail))
    ensures var s := chars + TailText(tail); s != "" && s[0] != '-'
  {
  }

  ghost predicate AllOk(c: Config, es: seq<Entry>, items: seq<Item>) {
    forall i :: 0 <= i < |items| ==> ItemOk(c, es, items[i])
  }

  /** What ends a vector: nothing, or a `--` with anything behind it. */
  ghost predicate Ends(args: seq<string>, k: nat) {
    k == |args| || (k < |args| && args[k] == "--")
  }

  /** What comes of the end of a vector. */
  function EndParts(args: seq<string>, end: nat): Parts
    requires end <= |args|
  {
    if end < |args| then Parts(["--"], [], args[end + 1..]) else Parts([], [], [])
  }

  /** The items' options and plain arguments, with what follows them. */
  function Sorted(items: seq<Item>, end: Parts): Parts {
    Parts(Options(items) + end.opts, Plains(items) + end.nons, end.rest)
  }

  lemma SortedMore(items: seq<Item>, end: Parts)
    requires |items| > 0
    ensures var p, it := Sorted(items[1..], end), items[0];
      Sorted(items, end) == if it.Plain? then Parts(p.opts, [it.word] + p.nons, p.rest) else Parts(Words(it) + p.opts, p.nons, p.rest)
  {
    hide Words;
    var it, rest := items[0], items[1..];
    if it.Plain? {
      assert [it.word] + Plains(rest) + end.nons == [it.word] + (Plains(rest) + end.nons);
      assert Options(items) == [] + Options(rest) == Options(rest);
    } else {
      assert Words(it) + Options(rest) + end.opts == Words(it) + (Options(rest) + end.opts);
      assert Plains(items) == [] + Plains(rest) == Plains(rest);
    }
  }

  /** A vector of such items, `--` and the rest behind them, is sorted into their options and their plain arguments. */
  lemma {:induction false} ItemsSplit(c: Config, silent: bool, es: seq<Entry>, args: seq<string>, k: nat, items: seq<Item>)
    requires Known(c, silent, es) && AllOk(c, es, items)
    requires k + |AllWords(items)| <= |args| && args[k..k + |AllWords(items)|] == AllWords(items)
    requires Ends(args, k + |AllWords(items)|)
    ensures Split(c, args, k) == Sorted(items, EndParts(args, k + |AllWords(items)|))
    ensures Smooth(c, args, k)
    decreases |items|
  {
    hide Known, ItemOk, Words, Split, Smooth, IsNonOption, Width, Stalls, Sorted, Options, Plains, Takes;
    SplitUnfolds(c, args, k);
    SmoothUnfolds(c, args, k);
    if |items| == 0 {
      EndReads(c, args, k);
      NoneSorted(EndParts(args, k));
    } else {
      var it, rest := items[0], items[1..];
      var w := |Words(it)|;
      assert AllWords(items) == Words(it) + AllWords(rest);
      Prefix(args, k, Words(it), AllWords(rest));
      ItemReads(c, silent, es, args, k, it);
      ItemsSplit(c, silent, es, args, k + w, rest);
      SortedMore(items, EndParts(args, k + |AllWords(items)|));
      PlainOne(it);
      NoShort(c, it, es);
    }
  }

  lemma NoneSorted(end: Parts)
    ensures Sorted([], end) == end
  {
  }

  lemma PlainOne(it: Item)
    ensures it.Plain? ==> Words(it) == [it.word]
  {
  }

  /** Only a group of short options can stall, and only where there is no table of long ones. */
  lemma NoShort(c: Config, it: Item, es: seq<Entry>)
    requires ItemOk(c, es, it)
    ensures it.Plain? || it.Cluster? || c.long.Some?
  {
  }

  lemma Prefix(args: seq<string>, k: nat, a: seq<string>, b: seq<string>)
    requires k + |a + b| <= |args| && args[k..k + |a + b|] == a + b
    ensures args[k..k + |a|] == a && args[k + |a|..k + |a| + |b|] == b
  {
    assert args[k..k + |a|] == args[k..k + |a + b|][..|a|];
    assert args[k + |a|..k + |a| + |b|] == args[k..k + |a + b|][|a|..];
  }

  lemma EndReads(c: Config, args: seq<string>, k: nat)
    requires Ends(args, k)
    ensures k < |args| ==> !IsNonOption(c, args[k])
  {
  }

  lemma SmoothUnfolds(c: Config, args: seq<string>, k: nat)
    requires k <= |args|
    ensures Smooth(c, args, k) <==>
      || c.long.Some? || k == |args|
      || (if IsNonOption(c, args[k]) then Smooth(c, args, k + 1)
          else args[k] == "--" || (!Stalls(c, ScanStart(args[k])) && Smooth(c, args, k + Width(c, args, k))))
  {
    hide Takes, Stalls, IsNonOption;
  }

  // ------------------------------------------------- what is reported

  function Flags(chars: string): seq<Event> {
    if chars == "" then [] else [Event(chars[0] as int, None)] + Flags(chars[1..])
  }

  function TailEvents(t: Tail): seq<Event> {
    match t
    case NoTail => []
    case Glued(ch, text) => [Event(ch as int, Some(text))]
    case Alone(ch) => [Event(ch as int, None)]
    case Apart(ch, text) => [Event(ch as int, Some(text))]
  }

  /** What the long option of this name returns. */
  ghost function ReturnOf(c: Config, name: string): int
    requires c.long.Some? && exists m: nat :: FirstExact(c.long.value, name, m)
  {
    var m: nat :| FirstExact(c.long.value, name, m);
    LongReturn(c.long.value[m])
  }

  /** The options an item stands for, each with its argument. */
  ghost function Reports(c: Config, es: seq<Entry>, it: Item): seq<Event>
    requires ItemOk(c, es, it)
  {
    match it
    case Plain(_) => []
    case Cluster(chars, tail) => Flags(chars) + TailEvents(tail)
    case Long(name) => [Event(ReturnOf(c, name), None)]
    case LongWith(name, text) => [Event(ReturnOf(c, name), Some(text))]
    case LongApart(name, text) => [Event(ReturnOf(c, name), Some(text))]
  }

  ghost function AllReports(c: Config, es: seq<Entry>, items: seq<Item>): seq<Event>
    requires AllOk(c, es, items)
  {
    if |items| == 0 then [] else Reports(c, es, items[0]) + AllReports(c, es, items[1..])
  }

  /** One turn of the run. */
  lemma OneTurn(c: Config, args: seq<string>, k: nat, place: string, t: Turn)
    requires k < |args| && place != "" && t == ReadTurn(c, args, k, place, false)
    ensures Events(c, args, k, place, false) == [t.event] + Events(c, args, t.next, t.place, false)
  {
    hide ReadTurn;
  }

  lemma {:induction false} ClusterEvents(c: Config, silent: bool, es: seq<Entry>, args: seq<string>, k: nat, chars: string, tail: Tail)
    requires Known(c, silent, es) && TailOk(es, tail) && forall i :: 0 <= i < |chars| ==> Flag(es, chars[i], NoArgument)
    requires chars != "" || tail != NoTail
    requires k < |args| && (tail.Apart? ==> k + 1 < |args| && args[k + 1] == tail.text)
    ensures Events(c, args, k, chars + TailText(tail), false) ==
      Flags(chars) + TailEvents(tail) + Events(c, args, k + (if tail.Apart? then 2 else 1), "", false)
    decreases |chars|
  {
    hide Known, Flag, Events, TailOk, ReadTurn, Flags, TailEvents;
    var place := chars + TailText(tail);
    if chars != "" {
      assert place[0] == chars[0] && place[1..] == chars[1..] + TailText(tail);
      FlagTurn(c, silent, es, args, k, place);
      OneTurn(c, args, k, place, ReadTurn(c, args, k, place, false));
      MoreFlags(chars, TailEvents(tail), Events(c, args, k + (if tail.Apart? then 2 else 1), "", false));
      if chars[1..] != "" || tail != NoTail {
        ClusterEvents(c, silent, es, args, k, chars[1..], tail);
      } else {
        LastFlag(chars, Events(c, args, k + 1, "", false));
      }
    } else {
      assert place == TailText(tail);
      NoFlags(TailEvents(tail), Events(c, args, k + (if tail.Apart? then 2 else 1), "", false));
      TailReads(c, silent, es, args, k, tail);
    }
  }

  lemma FlagTurn(c: Config, silent: bool, es: seq<Entry>, args: seq<string>, k: nat, place: string)
    requires Known(c, silent, es) && place != "" && Flag(es, place[0], NoArgument) && k < |args|
    ensures ReadTurn(c, args, k, place, false) ==
      Turn(Event(place[0] as int, None), if place[1..] == "" then k + 1 else k, place[1..])
  {
    hide TakesArg, ArgOptional, IsBadChar, Known, Flag;
    FlagMeans(c, silent, es, place[0], NoArgument, place[1..]);
    NotDash(c, silent, es, place[0], NoArgument);
  }

  lemma NoFlags(t: seq<Event>, rest: seq<Event>)
    ensures Flags("") + t + rest == t + rest
  {
  }

  lemma LastFlag(chars: string, rest: seq<Event>)
    requires chars != "" && chars[1..] == ""
    ensures Flags(chars[1..]) + TailEvents(NoTail) + rest == rest
  {
  }

  lemma MoreFlags(chars: string, t: seq<Event>, rest: seq<Event>)
    requires chars != ""
    ensures Flags(chars) + t + rest == [Event(chars[0] as int, None)] + (Flags(chars[1..]) + t + rest)
  {
  }

  lemma TailReads(c: Config, silent: bool, es: seq<Entry>, args: seq<string>, k: nat, tail: Tail)
    requires Known(c, silent, es) && TailOk(es, tail) && tail != NoTail
    requires k < |args| && (tail.Apart? ==> k + 1 < |args| && args[k + 1] == tail.text)
    ensures Events(c, args, k, TailText(tail), false) == TailEvents(tail) + Events(c, args, k + (if tail.Apart? then 2 else 1), "", false)
  {
    hide TakesArg, ArgOptional, IsBadChar, Known, Flag, Events;
    var place := TailText(tail);
    var arg := match tail
      case Glued(ch, _) => if Flag(es, ch, RequiredArgument) then RequiredArgument else OptionalArgument
      case Apart(_, _) => RequiredArgument
      case _ => OptionalArgument;
    var text := if tail.Glued? then tail.text else "";
    assert place[1..] == text;
    FlagMeans(c, silent, es, tail.ch, arg, text);
    NotDash(c, silent, es, tail.ch, arg);
    OneTurn(c, args, k, place, ReadTurn(c, args, k, place, false));
  }

  /** A long option is reported with what is glued on to it, or with the next word where it asks for one. */
  lemma LongReads(c: Config, args: seq<string>, k: nat, name: string, tail: string, arg: HasArg)
    requires LongOk(c, name, {arg}) && k < |args| && (if tail == "" then true else tail[0] == '=' && arg != NoArgument)
    requires arg == RequiredArgument && tail == "" ==> k + 1 < |args|
    ensures var text := if tail != "" then Some(tail[1..]) else if arg == RequiredArgument then Some(args[k + 1]) else None;
      ReadTurn(c, args, k, "-" + (name + tail), false) ==
        Turn(Event(ReturnOf(c, name), text), k + (if arg == RequiredArgument && tail == "" then 2 else 1), "")
  {
    hide IsBadChar, NameOf, HasEqual, FindLong;
    var place := "-" + (name + tail);
    assert place[1..] == name + tail;
    NameIs(name, tail);
    FirstBehind(name, tail, '=');
    assert tail != "" ==> (name + tail)[|name| + 1..] == tail[1..];
    var long := c.long.value;
    var m: nat :| FirstExact(long, name, m) && long[m].hasArg in {arg};
    FindLongIs(long, name, false);
    assert FirstExact(long, name, FindLong(long, name, false).match_.value);
  }

  /** Where an argument is read from its start. */
  lemma FromStart(c: Config, args: seq<string>, k: nat)
    requires k < |args| && !IsNonOption(c, args[k]) && args[k] != "--" && |args[k]| > 1
    ensures Events(c, args, k, "", false) == Events(c, args, k, args[k][1..], false)
  {
    hide ReadTurn, IsNonOption;
  }

  lemma PastPlain(c: Config, args: seq<string>, k: nat)
    requires k < |args| && IsNonOption(c, args[k])
    ensures Events(c, args, k, "", false) == Events(c, args, k + 1, "", false)
  {
    hide ReadTurn, IsNonOption;
  }

  lemma NoMore(c: Config, args: seq<string>, k: nat)
    requires Ends(args, k)
    ensures Events(c, args, k, "", false) == []
  {
    hide ReadTurn;
  }

  lemma LongEvents(c: Config, args: seq<string>, k: nat, name: string, tail: string, arg: HasArg)
    requires LongOk(c, name, {arg}) && k < |args| && (if tail == "" then true else tail[0] == '=' && arg != NoArgument)
    requires arg == RequiredArgument && tail == "" ==> k + 1 < |args|
    requires args[k] == "--" + (name + tail) && !IsNonOption(c, args[k]) && args[k] != "--"
    ensures var text := if tail != "" then Some(tail[1..]) else if arg == RequiredArgument then Some(args[k + 1]) else None;
      Events(c, args, k, "", false) == [Event(ReturnOf(c, name), text)]
        + Events(c, args, k + (if arg == RequiredArgument && tail == "" then 2 else 1), "", false)
  {
    hide Events, LongOk, ReadTurn, IsNonOption;
    var place := "-" + (name + tail);
    assert args[k][1..] == place;
    FromStart(c, args, k);
    LongReads(c, args, k, name, tail, arg);
    OneTurn(c, args, k, place, ReadTurn(c, args, k, place, false));
  }

  lemma ItemEvents(c: Config, silent: bool, es: seq<Entry>, args: seq<string>, k: nat, it: Item)
    requires Known(c, silent, es) && ItemOk(c, es, it) && StandsAt(args, k, it)
    ensures Events(c, args, k, "", false) == Reports(c, es, it) + Events(c, args, k + |Words(it)|, "", false)
  {
    hide Events, Known, Flag, TailOk, ReadTurn, Takes, Stalls, IsNonOption, Width;
    ItemReads(c, silent, es, args, k, it);
    assert args[k] == Words(it)[0] && (|Words(it)| == 2 ==> args[k + 1] == Words(it)[1]);
    match it {
      case Plain(_) => PastPlain(c, args, k);
      case Cluster(chars, tail) =>
        ClusterWord(c, silent, es, chars, tail);
        assert args[k][1..] == chars + TailText(tail);
        FromStart(c, args, k);
        ClusterEvents(c, silent, es, args, k, chars, tail);
      case Long(name) =>
        var arg := if LongOk(c, name, {NoArgument}) then NoArgument else OptionalArgument;
        assert name + "" == name;
        LongEvents(c, args, k, name, "", arg);
      case LongWith(name, text) =>
        var arg := if LongOk(c, name, {RequiredArgument}) then RequiredArgument else OptionalArgument;
        assert ("=" + text)[1..] == text;
        LongEvents(c, args, k, name, "=" + text, arg);
      case LongApart(name, _) =>
        assert name + "" == name;
        LongEvents(c, args, k, name, "", RequiredArgument);
    }
  }

  /** The calls of a run report the options of the items in their order, each with its argument. */
  lemma {:induction false} ItemsReport(c: Config, silent: bool, es: seq<Entry>, args: seq<string>, k: nat, items: seq<Item>)
    requires Known(c, silent, es) && AllOk(c, es, items)
    requires k + |AllWords(items)| <= |args| && args[k..k + |AllWords(items)|] == AllWords(items)
    requires Ends(args, k + |AllWords(items)|)
    ensures Events(c, args, k, "", false) == AllReports(c, es, items)
    decreases |items|
  {
    hide Known, ItemOk, Words, Events, Reports;
    if |items| == 0 {
      NoMore(c, args, k);
    } else {
      var it, rest := items[0], items[1..];
      var w := |Words(it)|;
      assert AllWords(items) == Words(it) + AllWords(rest);
      Prefix(args, k, Words(it), AllWords(rest));
      ItemEvents(c, silent, es, args, k, it);
      ItemsReport(c, silent, es, args, k + w, rest);
    }
  }

  /**
    Running getopt on such a vector, the program's name in front: the options are reported
    in order with their arguments, and the vector ends as the options, the plain arguments,
    and what followed a `--`.
  */
  method RunItems(c: Config, ghost silent: bool, ghost es: seq<Entry>, ghost items: seq<Item>, nargv: array<string>)
    returns (optind: nat, events: seq<Event>)
    requires ValidConfig(c) && c.permute && !c.allArgs && Known(c, silent, es) && AllOk(c, es, items)
    requires nargv.Length >= 1 + |AllWords(items)| && nargv[1..1 + |AllWords(items)|] == AllWords(items)
    requires Ends(nargv[..], 1 + |AllWords(items)|)
    modifies nargv
    ensures events == AllReports(c, es, items)
    ensures var was, end := old(nargv[..]), 1 + |AllWords(items)|;
      nargv[..] == [was[0]] + Options(items) + (if end < |was| then ["--"] else []) + Plains(items) +
        (if end < |was| then was[end + 1..] else [])
    ensures optind == 1 + |Options(items)| + if 1 + |AllWords(items)| < nargv.Length then 1 else 0
  {
    hide Known, ItemOk, Words, Split, Smooth, Events, AllReports, Options, Plains;
    ghost var was := nargv[..];
    assert was[1..1 + |AllWords(items)|] == AllWords(items);
    ItemsSplit(c, silent, es, was, 1, items);
    ItemsReport(c, silent, es, was, 1, items);
    optind, events := Run(c, nargv);
    assert was[..1] == [was[0]];
    assert Plains(items) + [] == Plains(items) && Options(items) + [] == Options(items);
  }
}
