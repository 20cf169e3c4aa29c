/**
  Times as `parse_datetime` delivers them: how they are compared, and how many seconds
  since the start of 1970 they stand for.
*/
module ChannelTime {

  datatype DateTime = DateTime(year: int, jday: int, hour: int, min: int, sec: real)

  /** `timecmp` */
  function TimeCmp(a: DateTime, b: DateTime): int {
    if a.year < b.year then -1
    else if a.year > b.year then 1
    else if a.jday < b.jday then -1
    else if a.jday > b.jday then 1
    else if a.hour < b.hour then -1
    else if a.hour > b.hour then 1
    else if a.min < b.min then -1
    else if a.min > b.min then 1
    else if a.sec < b.sec then -1
    else if a.sec > b.sec then 1
    else 0
  }

  /** The fields are what a clock can show, leap years and leap seconds included. */
  predicate InRange(d: DateTime) {
    1 <= d.jday <= 366 && 0 <= d.hour < 24 && 0 <= d.min < 60 && 0.0 <= d.sec < 61.0
  }

  /** The time as one number, every year and minute being taken as long as the longest. */
  function Instant(d: DateTime): real {
    ((((d.year * 366 + d.jday - 1) * 24 + d.hour) * 60 + d.min) * 61) as real + d.sec
  }

  /** Comparing the fields one by one is comparing the times. */
  lemma TimeCmpIs(a: DateTime, b: DateTime)
    requires InRange(a) && InRange(b)
    ensures TimeCmp(a, b) < 0 <==> Instant(a) < Instant(b)
    ensures TimeCmp(a, b) == 0 <==> a == b
    ensures TimeCmp(a, b) <= 0 <==> Instant(a) <= Instant(b)
  {
  }

  // ------------------------------------------------ seconds since 1970

  predicate IsLeap(year: int) {
    year % 4 == 0 && (year % 100 != 0 || year % 400 == 0)
  }

  function DaysIn(year: int): int {
    if IsLeap(year) then 366 else 365
  }

  /** Leap years up to and including `year`, counted from the year 1. */
  function Leaps(year: int): int {
    year / 4 - year / 100 + year / 400
  }

  /** C's timegm for the start of a year, in days. */
  function YearStart(year: int): int {
    365 * (year - 1970) + Leaps(year - 1) - Leaps(1969)
  }

  lemma NextYear(year: int)
    ensures YearStart(1970) == 0 && YearStart(year + 1) == YearStart(year) + DaysIn(year)
  {
    var q, r := year / 400, year % 400;
    assert year == 400 * q + r;
    Quotients(q, r);
    Quotients(q, r - 1);
    LeapStep(r);
  }

  lemma Quotients(q: int, r: int)
    ensures Leaps(400 * q + r) == 97 * q + Leaps(r)
    ensures (400 * q + r) % 4 == r % 4 && (400 * q + r) % 100 == r % 100 && (400 * q + r) % 400 == r % 400
  {
    assert (400 * q + r) / 4 == 100 * q + r / 4;
    assert (400 * q + r) / 100 == 4 * q + r / 100;
    assert (400 * q + r) / 400 == q + r / 400;
  }

  lemma LeapStep(r: int)
    requires 0 <= r < 400
    ensures Leaps(r) - Leaps(r - 1) == if IsLeap(r) then 1 else 0
  {
    FourthStep(r);
    HundredthStep(r);
    CenturiesFour(r);
  }

  lemma FourthStep(r: int)
    ensures r / 4 - (r - 1) / 4 == if r % 4 == 0 then 1 else 0
  {
  }

  lemma HundredthStep(r: int)
    ensures r / 100 - (r - 1) / 100 == if r % 100 == 0 then 1 else 0
    ensures r % 100 == 0 ==> r % 4 == 0
  {
    var q, k := r / 100, r % 100;
    assert r - 1 == if k == 0 then 100 * (q - 1) + 99 else 100 * q + (k - 1);
    assert k == 0 ==> r == 4 * (25 * q);
  }

  lemma CenturiesFour(r: int)
    ensures r / 400 - (r - 1) / 400 == if r % 400 == 0 then 1 else 0
    ensures r % 400 == 0 ==> r % 100 == 0
  {
    var q, k := r / 400, r % 400;
    assert r - 1 == if k == 0 then 400 * (q - 1) + 399 else 400 * q + (k - 1);
    assert k == 0 ==> r == 100 * (4 * q);
  }

  lemma {:induction false} LaterYear(y: int, z: int)
    requires y < z
    ensures YearStart(y) + DaysIn(y) <= YearStart(z)
    decreases z - y
  {
    hide YearStart;
    NextYear(y);
    if y + 1 < z {
      LaterYear(y + 1, z);
    }
  }

  /** Seconds up to the start of the minute. */
  function MinuteStart(d: DateTime): int {
    (((YearStart(d.year) + d.jday - 1) * 24 + d.hour) * 60 + d.min) * 60
  }

  /** `to_epoch`: whole seconds since the start of 1970. */
  function ToEpoch(d: DateTime): int {
    MinuteStart(d) + d.sec.Floor
  }

  /** A date there is, without leap seconds. */
  predicate Dated(d: DateTime) {
    InRange(d) && d.jday <= DaysIn(d.year) && d.sec < 60.0
  }

  /** Later times come later in seconds since 1970. */
  lemma EpochOrder(a: DateTime, b: DateTime)
    requires Dated(a) && Dated(b)
    ensures TimeCmp(a, b) <= 0 ==> ToEpoch(a) <= ToEpoch(b)
    ensures ToEpoch(a) < ToEpoch(b) ==> TimeCmp(a, b) < 0
  {
    hide YearStart;
    if a.year < b.year { LaterYear(a.year, b.year); }
    if b.year < a.year { LaterYear(b.year, a.year); }
  }

  // ------------------------------------------------------------ lengths

  /** C's conversion to a 32-bit int. */
  function Int32(n: int): (r: int)
    ensures -0x8000_0000 <= r < 0x8000_0000
    ensures r == n <==> -0x8000_0000 <= n < 0x8000_0000
  {
    (n + 0x8000_0000) % 0x1_0000_0000 - 0x8000_0000
  }

  /** What `duration` returns for a closed epoch. */
  function Span(begin: DateTime, end: DateTime): int {
    Int32(ToEpoch(end) - ToEpoch(begin))
  }
}
