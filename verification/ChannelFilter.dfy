/**
  Choosing among channels read from a RESP file: `filter_channels`, which keeps one
  channel for each station, network, location and channel name. Times are as
  `parse_datetime` delivers them; the pattern test on the names is a parameter.
*/
module ChannelFilter {
  import opened Basics
  import opened ChannelTime

  // What `duration` returns for a channel without an ending time.
  const INDEFINITE: int := 0x7FFF_FFFF

  class Channel {
    const network: string
    const staname: string
    const locid: string
    const chaname: string
    const begin: DateTime
    /** Missing where the text says there is no ending time. */
    const end: Option<DateTime>
    ghost var freed: bool

    constructor (network: string, staname: string, locid: string, chaname: string, begin: DateTime, end: Option<DateTime>)
      ensures !freed && this.network == network && this.staname == staname && this.locid == locid && this.chaname == chaname
      ensures this.begin == begin && this.end == end
    {
      this.network, this.staname, this.locid, this.chaname := network, staname, locid, chaname;
      this.begin, this.end := begin, end;
      freed := false;
    }
  }

  /** `same_channel` */
  predicate SameChannel(a: Channel, b: Channel) {
    a.network == b.network && a.staname == b.staname && a.locid == b.locid && a.chaname == b.chaname
  }

  /** Channels are the same where all four names are. */
  lemma SameMeans(a: Channel, b: Channel)
    ensures SameChannel(a, b) <==> [a.staname, a.network, a.locid, a.chaname] == [b.staname, b.network, b.locid, b.chaname]
  {
    var s, t := [a.staname, a.network, a.locid, a.chaname], [b.staname, b.network, b.locid, b.chaname];
    if s == t {
      assert s[0] == t[0] && s[1] == t[1] && s[2] == t[2] && s[3] == t[3];
    }
  }

  /** `earlier`: not later than; without an ending time counts as latest. */
  predicate Earlier(a: Channel, b: Channel) {
    if a.end.None? || b.end.None? then
      if b.end.Some? then false
      else if a.end.Some? then true
      else TimeCmp(a.begin, b.begin) <= 0
    else TimeCmp(a.end.value, b.end.value) <= 0
  }

  /** `duration` */
  function Duration(c: Channel): int {
    if c.end.None? then INDEFINITE else Span(c.begin, c.end.value)
  }

  /** `in_epoch` */
  predicate InEpoch(date: DateTime, c: Channel) {
    TimeCmp(c.begin, date) <= 0 && (c.end.Some? ==> TimeCmp(c.end.value, date) > 0)
  }

  /** The date asked for, where its year is not zero, and the test on the names. */
  datatype Filter = Filter(date: Option<DateTime>, wanted: (string, string, string, string) -> bool)

  function DateOf(f: Option<Filter>): Option<DateTime> {
    if f.Some? && f.value.date.Some? && f.value.date.value.year != 0 then f.value.date else None
  }

  /** `channel_matches` */
  predicate Matches(f: Option<Filter>, c: Channel) {
    f.None? || ((DateOf(f).Some? ==> InEpoch(DateOf(f).value, c)) && f.value.wanted(c.network, c.staname, c.locid, c.chaname))
  }

  /** What the choice is by: the later channel without a date, the shorter one with a date. */
  predicate Yields(f: Option<Filter>, a: Channel, b: Channel) {
    if DateOf(f).None? then Earlier(a, b) else Duration(a) >= Duration(b)
  }

  /** The test in the inner loop: `other` is to be preferred to `candidate`. */
  predicate Loses(f: Option<Filter>, candidate: Channel, other: Channel) {
    if DateOf(f).None? then Earlier(candidate, other)
    else InEpoch(DateOf(f).value, other) && Duration(candidate) >= Duration(other)
  }

  // ------------------------------------------------- in terms of time

  /** The fields of a channel's times are in range. */
  predicate Timed(c: Channel) {
    InRange(c.begin) && (c.end.Some? ==> InRange(c.end.value))
  }

  /** Where there is no date to choose by: the later end, an open one being last; of two open ones, the later begin. */
  lemma EarlierMeans(a: Channel, b: Channel)
    requires Timed(a) && Timed(b)
    ensures Earlier(a, b) <==>
      match (a.end, b.end)
      case (Some(x), Some(y)) => Instant(x) <= Instant(y)
      case (None, None) => Instant(a.begin) <= Instant(b.begin)
      case (Some(_), None) => true
      case (None, Some(_)) => false
  {
    hide Instant, InRange;
    TimeCmpIs(a.begin, b.begin);
    if a.end.Some? && b.end.Some? {
      TimeCmpIs(a.end.value, b.end.value);
    }
  }

  /** An epoch reaches from its begin up to its end, which lies outside it. */
  lemma InEpochMeans(date: DateTime, c: Channel)
    requires InRange(date) && Timed(c)
    ensures InEpoch(date, c) <==>
      Instant(c.begin) <= Instant(date) && (c.end.Some? ==> Instant(date) < Instant(c.end.value))
  {
    hide Instant, InRange;
    TimeCmpIs(c.begin, date);
    if c.end.Some? {
      TimeCmpIs(c.end.value, date);
    }
  }

  /** The length of an epoch in seconds; an open one counts as the largest int. */
  function Length(c: Channel): int {
    if c.end.None? then 0x7FFF_FFFF else ToEpoch(c.end.value) - ToEpoch(c.begin)
  }

  predicate Fits(n: int) {
    -0x8000_0000 <= n < 0x8000_0000
  }

  /** `duration` is the length exactly if that fits an int: up to some 68 years. */
  lemma DurationExactly(c: Channel)
    ensures Duration(c) == Length(c) <==> Fits(Length(c))
  {
    hide ToEpoch;
  }

  /** Which of two channels is to be preferred, in terms of time. */
  lemma YieldsMeans(f: Option<Filter>, a: Channel, b: Channel)
    ensures DateOf(f).None? ==> (Yields(f, a, b) <==> Earlier(a, b))
    ensures DateOf(f).Some? && Fits(Length(a)) && Fits(Length(b)) ==> (Yields(f, a, b) <==> Length(a) >= Length(b))
  {
    hide Earlier, Duration, Length;
    DurationExactly(a);
    DurationExactly(b);
  }

  lemma Years()
    ensures YearStart(1970) == 0 && YearStart(2106) == 49673
  {
    assert Leaps(1969) == 477;
    assert Leaps(2105) == 510;
  }

  lemma Whole(d: DateTime, n: int)
    requires d.sec == n as real
    ensures ToEpoch(d) == MinuteStart(d) + n
  {
    hide MinuteStart;
  }

  lemma Dates()
    ensures ToEpoch(DateTime(1970, 1, 0, 0, 0.0)) == 0 && ToEpoch(DateTime(1970, 2, 0, 0, 0.0)) == 86400
    ensures ToEpoch(DateTime(2106, 38, 6, 28, 26.0)) == 0x1_0000_0000 + 10
  {
    Years();
    Whole(DateTime(1970, 1, 0, 0, 0.0), 0);
    Whole(DateTime(1970, 2, 0, 0, 0.0), 0);
    Whole(DateTime(2106, 38, 6, 28, 26.0), 26);
    hide YearStart, ToEpoch;
  }

  /** Where a length does not fit, the longer of two epochs can be chosen. */
  lemma LongEpochWraps(f: Option<Filter>, a: Channel, b: Channel)
    requires DateOf(f).Some? && a.begin == b.begin == DateTime(1970, 1, 0, 0, 0.0)
    requires a.end == Some(DateTime(2106, 38, 6, 28, 26.0)) && b.end == Some(DateTime(1970, 2, 0, 0, 0.0))
    ensures Length(a) > Length(b) && !Yields(f, a, b) && Yields(f, b, a)
  {
    Dates();
    hide ToEpoch, Earlier, InEpoch;
  }

  lemma TimeOrder(a: DateTime, b: DateTime, c: DateTime)
    ensures TimeCmp(a, b) <= 0 || TimeCmp(b, a) <= 0
    ensures TimeCmp(a, b) <= 0 && TimeCmp(b, c) <= 0 ==> TimeCmp(a, c) <= 0
  {
  }

  /** Both orders are total preorders. */
  lemma YieldsOrder(f: Option<Filter>, a: Channel, b: Channel, c: Channel)
    ensures Yields(f, a, b) || Yields(f, b, a)
    ensures Yields(f, a, b) && Yields(f, b, c) ==> Yields(f, a, c)
  {
    hide TimeCmp;
    TimeOrder(a.begin, b.begin, c.begin);
    if a.end.Some? && b.end.Some? {
      TimeOrder(a.end.value, b.end.value, b.end.value);
      if c.end.Some? {
        TimeOrder(a.end.value, b.end.value, c.end.value);
      }
    }
  }

  /** Which matching channels of one name lose is decided by the preorder alone. */
  lemma LosesIs(f: Option<Filter>, a: Channel, b: Channel)
    requires SameChannel(a, b) && Matches(f, a)
    ensures Loses(f, a, b) <==> Matches(f, b) && Yields(f, a, b)
  {
  }

  // ------------------------------------------------------ the tournament

  ghost predicate Candidate(f: Option<Filter>, orig: seq<Channel?>, k: nat) {
    k < |orig| && orig[k] != null && Matches(f, orig[k])
  }

  /** The channel at `b` is preferred to the one at `k`; of equals, the one listed last is. */
  ghost predicate Beats(f: Option<Filter>, orig: seq<Channel?>, b: nat, k: nat)
    requires b < |orig| && k < |orig| && orig[b] != null && orig[k] != null
  {
    SameChannel(orig[k], orig[b]) && Yields(f, orig[k], orig[b]) && (b < k ==> !Yields(f, orig[b], orig[k]))
  }

  /**
    The positions before `i` have been dealt with: of those whose channel matches, the
    ones in `won` have been moved to the output, and the others are beaten by one that
    has been or that is still to come.
  */
  ghost predicate Standing(f: Option<Filter>, orig: seq<Channel?>, cur: seq<Channel?>, won: seq<nat>, i: nat) {
    && |cur| == |orig| && i <= |orig|
    && (forall k :: 0 <= k < |orig| && cur[k] != null ==> cur[k] == orig[k] && (k < i ==> !Matches(f, orig[k])))
    && (forall a :: 0 <= a < |won| ==> won[a] < i && Candidate(f, orig, won[a]) && cur[won[a]] == null)
    && (forall a, b :: 0 <= a < b < |won| ==> won[a] < won[b])
    && (forall a, k :: 0 <= a < |won| && i <= k < |orig| && cur[k] != null ==> !SameChannel(orig[won[a]], orig[k]))
    && (forall a, b :: 0 <= a < b < |won| ==> !SameChannel(orig[won[a]], orig[won[b]]))
    && (forall k: nat :: Candidate(f, orig, k) && cur[k] == null && k !in won ==> Beaten(f, orig, cur, won, i, k))
  }

  ghost predicate Beaten(f: Option<Filter>, orig: seq<Channel?>, cur: seq<Channel?>, won: seq<nat>, i: nat, k: nat)
    requires |cur| == |orig| && Candidate(f, orig, k)
  {
    exists b: nat :: Contender(f, orig, cur, won, i, b) && Beats(f, orig, b, k)
  }

  ghost predicate Contender(f: Option<Filter>, orig: seq<Channel?>, cur: seq<Channel?>, won: seq<nat>, i: nat, b: nat)
    requires |cur| == |orig|
  {
    Candidate(f, orig, b) && (b in won || (i <= b && cur[b] != null))
  }

  lemma BeatsTrans(f: Option<Filter>, orig: seq<Channel?>, a: nat, b: nat, k: nat)
    requires a < |orig| && b < |orig| && k < |orig| && orig[a] != null && orig[b] != null && orig[k] != null
    requires Beats(f, orig, a, b) && Beats(f, orig, b, k)
    ensures Beats(f, orig, a, k)
  {
    hide Yields;
    YieldsOrder(f, orig[k], orig[b], orig[a]);
    YieldsOrder(f, orig[b], orig[a], orig[k]);
    YieldsOrder(f, orig[a], orig[k], orig[b]);
  }

  /** Removing a channel that a contender beats leaves every removed candidate beaten. */
  lemma StillBeaten(f: Option<Filter>, orig: seq<Channel?>, cur: seq<Channel?>, won: seq<nat>, i: nat, j: nat, b: nat, i': nat)
    requires Standing(f, orig, cur, won, i) && i <= j < |orig| && cur[j] != null && (i' == i || (i' == i + 1 && j == i))
    requires b != j && Contender(f, orig, cur[j := null], won, i', b) && Beats(f, orig, b, j)
    ensures forall k: nat :: Candidate(f, orig, k) && cur[j := null][k] == null && k !in won ==> Beaten(f, orig, cur[j := null], won, i', k)
  {
    hide Beats, Matches;
    var cur' := cur[j := null];
    forall k: nat | Candidate(f, orig, k) && cur'[k] == null && k !in won
      ensures Beaten(f, orig, cur', won, i', k)
    {
      if k != j {
        assert Beaten(f, orig, cur, won, i, k);
        var b' :| Contender(f, orig, cur, won, i, b') && Beats(f, orig, b', k);
        if b' == j {
          BeatsTrans(f, orig, b, j, k);
          assert Contender(f, orig, cur', won, i', b) && Beats(f, orig, b, k);
        } else {
          assert Contender(f, orig, cur', won, i', b') && Beats(f, orig, b', k);
        }
      } else {
        assert Contender(f, orig, cur', won, i', b) && Beats(f, orig, b, k);
      }
    }
  }

  /** The candidate discards a later channel it does not lose to. */
  lemma Discard(f: Option<Filter>, orig: seq<Channel?>, cur: seq<Channel?>, won: seq<nat>, i: nat, j: nat)
    requires Standing(f, orig, cur, won, i) && i < j < |orig| && cur[i] != null && cur[j] != null
    requires Matches(f, cur[i]) && SameChannel(cur[i], cur[j]) && !Loses(f, cur[i], cur[j])
    ensures Standing(f, orig, cur[j := null], won, i)
  {
    LosesIs(f, cur[i], cur[j]);
    YieldsOrder(f, cur[i], cur[j], cur[j]);
    hide Yields, Matches, Loses;
    var cur' := cur[j := null];
    if Matches(f, cur[j]) {
      assert Contender(f, orig, cur', won, i, i) && Beats(f, orig, i, j);
      StillBeaten(f, orig, cur, won, i, j, i, i);
    } else {
      forall k: nat | Candidate(f, orig, k) && cur'[k] == null && k !in won
        ensures Beaten(f, orig, cur', won, i, k)
      {
        assert Beaten(f, orig, cur, won, i, k);
        var b :| Contender(f, orig, cur, won, i, b) && Beats(f, orig, b, k);
        assert Contender(f, orig, cur', won, i, b) && Beats(f, orig, b, k);
      }
    }
  }

  /** The candidate loses to a later channel. */
  lemma Lost(f: Option<Filter>, orig: seq<Channel?>, cur: seq<Channel?>, won: seq<nat>, i: nat, j: nat)
    requires Standing(f, orig, cur, won, i) && i < j < |orig| && cur[i] != null && cur[j] != null
    requires Matches(f, cur[i]) && SameChannel(cur[i], cur[j]) && Loses(f, cur[i], cur[j])
    ensures Standing(f, orig, cur[i := null], won, i + 1)
  {
    LosesIs(f, cur[i], cur[j]);
    hide Yields, Matches, Loses;
    assert Contender(f, orig, cur[i := null], won, i + 1, j) && Beats(f, orig, j, i);
    StillBeaten(f, orig, cur, won, i, i, j, i + 1);
  }

  /** The candidate wins: no other channel of its name is left. */
  lemma Won(f: Option<Filter>, orig: seq<Channel?>, cur: seq<Channel?>, won: seq<nat>, i: nat)
    requires Standing(f, orig, cur, won, i) && i < |orig| && cur[i] != null && Matches(f, cur[i])
    requires forall k :: i < k < |orig| && cur[k] != null ==> !SameChannel(cur[i], cur[k])
    ensures Standing(f, orig, cur[i := null], won + [i], i + 1)
  {
    hide Matches, Beats;
    var cur', won' := cur[i := null], won + [i];
    forall k: nat | Candidate(f, orig, k) && cur'[k] == null && k !in won'
      ensures Beaten(f, orig, cur', won', i + 1, k)
    {
      assert k != i by { assert i in won'; }
      assert k !in won;
      assert Beaten(f, orig, cur, won, i, k);
      var b :| Contender(f, orig, cur, won, i, b) && Beats(f, orig, b, k);
      assert Contender(f, orig, cur', won', i + 1, b) && Beats(f, orig, b, k);
    }
  }

  /** A position that holds nothing, or nothing that matches, is passed over. */
  lemma Passed(f: Option<Filter>, orig: seq<Channel?>, cur: seq<Channel?>, won: seq<nat>, i: nat)
    requires Standing(f, orig, cur, won, i) && i < |orig| && (cur[i] == null || !Matches(f, cur[i]))
    ensures Standing(f, orig, cur, won, i + 1)
  {
    hide Matches, Beats;
    forall k: nat | Candidate(f, orig, k) && cur[k] == null && k !in won
      ensures Beaten(f, orig, cur, won, i + 1, k)
    {
      assert Beaten(f, orig, cur, won, i, k);
      var b :| Contender(f, orig, cur, won, i, b) && Beats(f, orig, b, k);
      assert Contender(f, orig, cur, won, i + 1, b) && Beats(f, orig, b, k);
    }
  }

  // --------------------------------------------------------- the loops

  /** The channels at the given positions */
  ghost function At(orig: seq<Channel?>, ks: seq<nat>): seq<Channel>
    requires forall a :: 0 <= a < |ks| ==> ks[a] < |orig| && orig[ks[a]] != null
  {
    seq(|ks|, a requires 0 <= a < |ks| => orig[ks[a]])
  }

  /** No two positions hold the same channel. */
  ghost predicate Unshared(orig: seq<Channel?>) {
    forall i, j :: 0 <= i < j < |orig| && orig[i] != null ==> orig[i] != orig[j]
  }

  /** All channels of a list */
  ghost function Those(orig: seq<Channel?>): set<Channel> {
    set k | 0 <= k < |orig| && orig[k] != null :: Here(orig, k)
  }

  function Here(orig: seq<Channel?>, k: int): Channel
    requires 0 <= k < |orig| && orig[k] != null
  {
    orig[k]
  }

  /** A channel has been freed exactly if it is neither in the list any more nor in the output. */
  ghost predicate Accounted(orig: seq<Channel?>, cur: seq<Channel?>, won: seq<nat>)
    requires |cur| == |orig|
    reads Those(orig)`freed
  {
    forall k: nat :: k < |orig| && orig[k] != null ==> (orig[k].freed <==> cur[k] == null && k !in won)
  }

  /** `evalresp_free_channel`, once for each channel */
  method FreeChannel(channels: array<Channel?>, k: nat, ghost c: Channel)
    requires k < channels.Length && channels[k] == c && !c.freed
    modifies channels, c`freed
    ensures channels[..] == old(channels[..])[k := null] && c.freed
  {
    c.freed := true;
    channels[k] := null;
  }

  /** The inner loop: the candidate at `i` meets the channels behind it. */
  method Contest(f: Option<Filter>, channels: array<Channel?>, i: nat, ghost orig: seq<Channel?>, ghost won: seq<nat>)
    returns (bestMatch: bool)
    requires i < channels.Length == |orig| && channels[i] != null && Matches(f, channels[i]) && Unshared(orig)
    requires Standing(f, orig, channels[..], won, i) && Accounted(orig, channels[..], won)
    modifies channels, Those(orig)`freed
    ensures Standing(f, orig, channels[..], won, i) && Accounted(orig, channels[..], won) && channels[i] == old(channels[i])
    ensures bestMatch ==> forall k :: i < k < channels.Length && channels[k] != null ==> !SameChannel(channels[i], channels[k])
    ensures !bestMatch ==> exists k: nat :: Defeated(f, channels[..], i, k)
  {
    hide Matches, Loses, Standing;
    var candidate := channels[i];
    bestMatch := true;
    var j := i + 1;
    while j < channels.Length && bestMatch
      invariant i < j <= channels.Length == |orig| && channels[i] == candidate
      invariant Standing(f, orig, channels[..], won, i) && Accounted(orig, channels[..], won)
      invariant bestMatch ==> forall k :: i < k < j && channels[k] != null ==> !SameChannel(candidate, channels[k])
      invariant !bestMatch ==> exists k: nat :: Defeated(f, channels[..], i, k)
    {
      var other := channels[j];
      if other != null {
        if SameChannel(candidate, other) {
          if DateOf(f).None? {
            if Earlier(candidate, other) {
              bestMatch := false;
            }
          } else {
            if InEpoch(DateOf(f).value, other) && Duration(candidate) >= Duration(other) {
              bestMatch := false;
            }
          }
          LosesMeans(f, candidate, other);
          if bestMatch {
            ghost var cur := channels[..];
            Discard(f, orig, cur, won, i, j);
            SameAs(f, orig, cur, won, i, j);
            FreeChannel(channels, j, other);
          } else {
            assert Defeated(f, channels[..], i, j);
          }
        }
      }
      j := j + 1;
    }
  }

  /** The channel at `i` loses to the one at `k`. */
  ghost predicate Defeated(f: Option<Filter>, cur: seq<Channel?>, i: nat, k: nat) {
    i < k < |cur| && cur[i] != null && cur[k] != null && SameChannel(cur[i], cur[k]) && Loses(f, cur[i], cur[k])
  }

  lemma LosesMeans(f: Option<Filter>, a: Channel, b: Channel)
    ensures Loses(f, a, b) <==>
      if DateOf(f).None? then Earlier(a, b) else InEpoch(DateOf(f).value, b) && Duration(a) >= Duration(b)
  {
  }

  lemma SameAs(f: Option<Filter>, orig: seq<Channel?>, cur: seq<Channel?>, won: seq<nat>, i: nat, j: nat)
    requires Standing(f, orig, cur, won, i) && j < |cur| && cur[j] != null
    ensures |cur| == |orig| && orig[j] == cur[j] && j !in won
  {
  }

  /**
    `filter_channels`: moves one channel of each name to the output. Checking the
    channel and growing the output are taken to succeed.
  */
  method FilterChannels(f: Option<Filter>, channels: array<Channel?>) returns (out: seq<Channel>, ghost won: seq<nat>)
    requires Unshared(channels[..])
    requires forall k :: 0 <= k < channels.Length && channels[k] != null ==> !channels[k].freed
    modifies channels, Those(channels[..])`freed
    ensures Chosen(f, old(channels[..]), won) && out == At(old(channels[..]), won)
    ensures Accounted(old(channels[..]), channels[..], won)
    ensures forall k :: 0 <= k < channels.Length && channels[k] != null ==>
      channels[k] == old(channels[k]) && !Matches(f, channels[k]) && k !in won
  {
    hide Matches, Loses, Standing, Chosen, Beats, Yields, Candidate, SameChannel, Duration, Earlier, InEpoch, DateOf;
    ghost var orig := channels[..];
    out, won := [], [];
    Begun(f, orig);
    var i := 0;
    while i < channels.Length
      invariant i <= channels.Length && Standing(f, orig, channels[..], won, i) && Accounted(orig, channels[..], won)
      invariant forall a :: 0 <= a < |won| ==> won[a] < |orig| && orig[won[a]] != null
      invariant out == At(orig, won)
    {
      var candidate := channels[i];
      if candidate != null && Matches(f, candidate) {
        var bestMatch := Contest(f, channels, i, orig, won);
        ghost var cur := channels[..];
        SameAs(f, orig, cur, won, i, i);
        if bestMatch {
          Won(f, orig, cur, won, i);
          out := out + [candidate];
          won := won + [i];
          channels[i] := null;
          assert channels[..] == cur[i := null];
        } else {
          ghost var k: nat :| Defeated(f, cur, i, k);
          Lost(f, orig, cur, won, i, k);
          FreeChannel(channels, i, candidate);
        }
      } else {
        Passed(f, orig, channels[..], won, i);
      }
      i := i + 1;
    }
    Decided(f, orig, channels[..], won);
  }

  lemma Begun(f: Option<Filter>, orig: seq<Channel?>)
    ensures Standing(f, orig, orig, [], 0)
  {
    hide Beats, Matches;
  }

  /**
    The channels at the positions `won` are the winners: each matches, no two have the
    same name, and every matching channel is one of them or is beaten by one of them.
  */
  ghost predicate Chosen(f: Option<Filter>, orig: seq<Channel?>, won: seq<nat>) {
    && (forall a, b :: 0 <= a < b < |won| ==> won[a] < won[b])
    && (forall a :: 0 <= a < |won| ==> Candidate(f, orig, won[a]))
    && (forall a, b :: 0 <= a < b < |won| ==> !SameChannel(orig[won[a]], orig[won[b]]))
    && (forall k: nat :: Candidate(f, orig, k) && k !in won ==> exists b: nat :: Winner(f, orig, won, b, k))
  }

  ghost predicate Winner(f: Option<Filter>, orig: seq<Channel?>, won: seq<nat>, b: nat, k: nat)
    requires Candidate(f, orig, k)
  {
    b in won && Candidate(f, orig, b) && Beats(f, orig, b, k)
  }

  lemma Decided(f: Option<Filter>, orig: seq<Channel?>, cur: seq<Channel?>, won: seq<nat>)
    requires Standing(f, orig, cur, won, |orig|)
    ensures Chosen(f, orig, won)
    ensures forall k :: 0 <= k < |orig| && cur[k] != null ==> cur[k] == orig[k] && !Matches(f, orig[k]) && k !in won
  {
    hide Beats, Matches;
    forall k: nat | Candidate(f, orig, k) && k !in won
      ensures exists b: nat :: Winner(f, orig, won, b, k)
    {
      assert Beaten(f, orig, cur, won, |orig|, k);
      var b: nat :| Contender(f, orig, cur, won, |orig|, b) && Beats(f, orig, b, k);
      assert Winner(f, orig, won, b, k);
    }
  }

  /** The winner of a name is the only one that beats all other matching channels of that name. */
  lemma WinnerUnique(f: Option<Filter>, orig: seq<Channel?>, a: nat, b: nat)
    requires Candidate(f, orig, a) && Candidate(f, orig, b) && Beats(f, orig, a, b) && Beats(f, orig, b, a)
    ensures a == b
  {
  }

  /** So the choice is unique: one list of channels only is what filtering can give. */
  lemma ChosenUnique(f: Option<Filter>, orig: seq<Channel?>, won: seq<nat>, other: seq<nat>)
    requires Chosen(f, orig, won) && Chosen(f, orig, other)
    ensures won == other
  {
    hide Chosen, Candidate;
    forall k: nat ensures k in won <==> k in other {
      if k in won { AlsoChosen(f, orig, won, other, k); }
      if k in other { AlsoChosen(f, orig, other, won, k); }
    }
    ChosenRises(f, orig, won);
    ChosenRises(f, orig, other);
    SameRising(won, other);
  }

  lemma ChosenRises(f: Option<Filter>, orig: seq<Channel?>, won: seq<nat>)
    requires Chosen(f, orig, won)
    ensures forall a, b :: 0 <= a < b < |won| ==> won[a] < won[b]
  {
  }

  /** Every matching channel is beaten by a chosen one, itself if it is chosen. */
  lemma ChosenBeats(f: Option<Filter>, orig: seq<Channel?>, won: seq<nat>, k: nat) returns (b: nat)
    requires Chosen(f, orig, won) && Candidate(f, orig, k)
    ensures b in won && Candidate(f, orig, b) && Beats(f, orig, b, k)
  {
    hide Matches, Yields;
    if k in won {
      b := k;
      YieldsOrder(f, orig[k], orig[k], orig[k]);
    } else {
      b :| Winner(f, orig, won, b, k);
    }
  }

  lemma AlsoChosen(f: Option<Filter>, orig: seq<Channel?>, won: seq<nat>, other: seq<nat>, k: nat)
    requires Chosen(f, orig, won) && Chosen(f, orig, other) && k in won
    ensures k in other
  {
    hide Matches, Yields;
    assert Candidate(f, orig, k);
    var b := ChosenBeats(f, orig, other, k);
    var c := ChosenBeats(f, orig, won, b);
    BeatsTrans(f, orig, c, b, k);
    assert c == k;
    WinnerUnique(f, orig, b, k);
  }

  lemma {:induction false} SameRising(s: seq<nat>, t: seq<nat>)
    requires forall k: nat :: k in s <==> k in t
    requires forall i, j :: 0 <= i < j < |s| ==> s[i] < s[j]
    requires forall i, j :: 0 <= i < j < |t| ==> t[i] < t[j]
    ensures s == t
  {
    assert (|s| > 0 ==> s[0] in t) && (|t| > 0 ==> t[0] in s);
    if |s| > 0 && |t| > 0 {
      var m, n := |s| - 1, |t| - 1;
      assert s[m] in t && t[n] in s;
      assert s[m] == t[n];
      var a, b := s[..m], t[..n];
      forall k: nat ensures k in a <==> k in b {
        assert k in a <==> k in s && k != s[m];
        assert k in b <==> k in t && k != t[n];
      }
      SameRising(a, b);
      assert s == a + [s[m]] && t == b + [t[n]];
    }
  }
}
