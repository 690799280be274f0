/**
  Civil date-time arithmetic of Python's `datetime` in UTC, as the scheduler
  uses it: proleptic Gregorian calendar, years 1..9999, one-second
  resolution. An instant is a valid civil record; `Seconds` counts the
  seconds since 0001-01-01T00:00:00 (Python's `toordinal` scaled to
  seconds), and instants are ordered by their fields, which agrees with it. Leaving the year range is an error
  (`None`), as `OverflowError` / `ValueError` are in Python.
 */
module Civil {
  import opened Wrappers

  datatype DateTime = DateTime(year: int, month: int, day: int, hour: int, minute: int, second: int)

  const MinYear: int := 1
  const MaxYear: int := 9999

  /** Ordinal of 9999-12-31, the last day Python's `datetime` can represent. */
  const MaxOrdinal: int := 3652059
  const SecondsPerDay: int := 86400
  /** One past the last representable second. */
  const MaxSeconds: int := MaxOrdinal * SecondsPerDay

  /** The Gregorian leap rule, as taskScheduler.py writes it in `_add_months`. */
  predicate IsLeap(y: int) {
    y % 4 == 0 && (y % 100 != 0 || y % 400 == 0)
  }

  /** The `dim` table of `_add_months`. */
  function DaysInMonth(y: int, m: int): (n: int)
    requires 1 <= m <= 12
    ensures 28 <= n <= 31
    ensures n == 29 <==> m == 2 && IsLeap(y)
  {
    [31, if IsLeap(y) then 29 else 28, 31, 30, 31, 30, 31, 31, 30, 31, 30, 31][m - 1]
  }

  predicate ValidDate(y: int, m: int, d: int) {
    MinYear <= y <= MaxYear && 1 <= m <= 12 && 1 <= d <= DaysInMonth(y, m)
  }

  predicate Valid(dt: DateTime) {
    && ValidDate(dt.year, dt.month, dt.day)
    && 0 <= dt.hour < 24 && 0 <= dt.minute < 60 && 0 <= dt.second < 60
  }

  /** A UTC instant Python's `datetime` can hold. */
  type Instant = dt: DateTime | Valid(dt) witness DateTime(1970, 1, 1, 0, 0, 0)

  function DaysBeforeYear(y: int): int
    requires y >= 1
  {
    var p := y - 1;
    p * 365 + p / 4 - p / 100 + p / 400
  }

  function DaysBeforeMonth(y: int, m: int): int
    requires 1 <= m <= 12
  {
    [0, 31, 59, 90, 120, 151, 181, 212, 243, 273, 304, 334][m - 1] + (if m > 2 && IsLeap(y) then 1 else 0)
  }

  /** Day number of a date; 0001-01-01 is day 1. */
  function Ordinal(y: int, m: int, d: int): int
    requires y >= 1 && 1 <= m <= 12
  {
    DaysBeforeYear(y) + DaysBeforeMonth(y, m) + d
  }

  function TimeOfDay(dt: DateTime): int {
    dt.hour * 3600 + dt.minute * 60 + dt.second
  }

  /** Seconds since 0001-01-01T00:00:00 UTC: the order in which Python compares aware datetimes. */
  function Seconds(t: Instant): int {
    (Ordinal(t.year, t.month, t.day) - 1) * SecondsPerDay + TimeOfDay(t)
  }

  /**
    Position of an instant in the lexicographic order of its fields (month,
    day, hour, minute, second). For valid instants this is the chronological
    order (`SecondsOrder`), and it is cheap to reason about.
   */
  function Rank(t: DateTime): int {
    (((MonthIndex(t.year, t.month) * 31 + t.day - 1) * 24 + t.hour) * 60 + t.minute) * 60 + t.second
  }

  /** Rank of 9999-12-31T23:59:59, the last representable instant. */
  const MaxRank: int := Rank(DateTime(MaxYear, 12, 31, 23, 59, 59))

  /**
    Chronological order of UTC readings. It is stated on any record, not
    only on instants, because a reading taken from an aware stamp may lie
    just outside years 1..9999 (`UtcReading`): Python compares aware
    datetimes without ever leaving the range.
   */
  predicate Before(a: DateTime, b: DateTime) {
    Rank(a) < Rank(b)
  }

  predicate AtOrBefore(a: DateTime, b: DateTime) {
    Rank(a) <= Rank(b)
  }

  /** Month index: year * 12 + month - 1. */
  function MonthIndex(y: int, m: int): int {
    y * 12 + m - 1
  }

  // ---------------------------------------------------------------------------
  // The calendar facts everything else rests on.

  lemma DivStep4(y: int)
    ensures y / 4 - (y - 1) / 4 == (if y % 4 == 0 then 1 else 0)
  {
  }

  lemma DivStep100(y: int)
    ensures y / 100 - (y - 1) / 100 == (if y % 100 == 0 then 1 else 0)
  {
  }

  lemma DivStep400(y: int)
    ensures y / 400 - (y - 1) / 400 == (if y % 400 == 0 then 1 else 0)
  {
  }

  lemma {:induction false} DaysBeforeNextYear(y: int)
    requires y >= 1
    ensures DaysBeforeYear(y + 1) == DaysBeforeYear(y) + (if IsLeap(y) then 366 else 365)
  {
    DivStep4(y);
    DivStep100(y);
    DivStep400(y);
  }

  /** Days before month 1 of the next year continue where the last month of this year ends. */
  lemma {:induction false} NextMonthStart(y: int, m: int)
    requires y >= 1 && 1 <= m <= 12
    ensures m < 12 ==> Ordinal(y, m + 1, 0) == Ordinal(y, m, 0) + DaysInMonth(y, m)
    ensures m == 12 ==> Ordinal(y + 1, 1, 0) == Ordinal(y, m, 0) + DaysInMonth(y, m)
  {
    if m == 12 {
      DaysBeforeNextYear(y);
    }
  }

  lemma DaysBeforeYearIncreasing(p: int, q: int)
    requires 1 <= p < q
    ensures DaysBeforeYear(p) + (if IsLeap(p) then 366 else 365) <= DaysBeforeYear(q)
  {
    DaysBeforeNextYear(p);
  }

  /** Within one year, a later month starts after an earlier month ends. */
  lemma DaysBeforeMonthIncreasing(y: int, m1: int, m2: int)
    requires 1 <= m1 < m2 <= 12
    ensures DaysBeforeMonth(y, m1) + DaysInMonth(y, m1) <= DaysBeforeMonth(y, m2)
  {
  }

  lemma {:induction false} MonthStartIncreasing(y1: int, m1: int, y2: int, m2: int)
    requires y1 >= 1 && 1 <= m1 <= 12 && 1 <= m2 <= 12
    requires MonthIndex(y1, m1) < MonthIndex(y2, m2)
    ensures y2 >= 1
    ensures Ordinal(y1, m1, 0) + DaysInMonth(y1, m1) <= Ordinal(y2, m2, 0)
  {
    if y1 == y2 {
      DaysBeforeMonthIncreasing(y1, m1, m2);
    } else {
      DaysBeforeYearIncreasing(y1, y2);
      if m1 < 12 {
        DaysBeforeMonthIncreasing(y1, m1, 12);
      }
    }
  }

  /** The field order agrees with the order of Python's aware datetimes. */
  lemma {:induction false} SecondsOrder(a: Instant, b: Instant)
    ensures Before(a, b) <==> Seconds(a) < Seconds(b)
    ensures AtOrBefore(a, b) <==> Seconds(a) <= Seconds(b)
  {
    if MonthIndex(a.year, a.month) < MonthIndex(b.year, b.month) {
      MonthStartIncreasing(a.year, a.month, b.year, b.month);
    } else if MonthIndex(b.year, b.month) < MonthIndex(a.year, a.month) {
      MonthStartIncreasing(b.year, b.month, a.year, a.month);
    } else {
      assert a.year == b.year && a.month == b.month;
    }
  }

  lemma RankBounds(t: Instant)
    ensures 0 <= Rank(t) <= MaxRank
  {
  }

  lemma OrdinalBounds(t: Instant)
    ensures 1 <= Ordinal(t.year, t.month, t.day) <= MaxOrdinal
    ensures 0 <= Seconds(t) < MaxSeconds
  {
    if MonthIndex(t.year, t.month) < MonthIndex(MaxYear, 12) {
      MonthStartIncreasing(t.year, t.month, MaxYear, 12);
    }
  }

  // ---------------------------------------------------------------------------
  // Moving by whole days (the date part of adding a `timedelta`).

  function Forward(y: int, m: int, d: int, n: nat): (r: Option<(int, int, int)>)
    requires ValidDate(y, m, d)
    ensures r.Some? <==> Ordinal(y, m, d) + n <= MaxOrdinal
    ensures r.Some? ==> ValidDate(r.value.0, r.value.1, r.value.2)
                        && Ordinal(r.value.0, r.value.1, r.value.2) == Ordinal(y, m, d) + n
    decreases n
  {
    var rest := DaysInMonth(y, m) - d + 1;
    if d + n <= DaysInMonth(y, m) then
      OrdinalBoundsOfDate(y, m, d + n);
      Some((y, m, d + n))
    else
      NextMonthStart(y, m);
      if m < 12 then Forward(y, m + 1, 1, n - rest)
      else if y < MaxYear then Forward(y + 1, 1, 1, n - rest)
      else None
  }

  function Backward(y: int, m: int, d: int, n: nat): (r: Option<(int, int, int)>)
    requires ValidDate(y, m, d)
    ensures r.Some? <==> Ordinal(y, m, d) - n >= 1
    ensures r.Some? ==> ValidDate(r.value.0, r.value.1, r.value.2)
                        && Ordinal(r.value.0, r.value.1, r.value.2) == Ordinal(y, m, d) - n
    decreases n
  {
    if d - n >= 1 then
      OrdinalBoundsOfDate(y, m, d - n);
      Some((y, m, d - n))
    else if m > 1 then
      NextMonthStart(y, m - 1);
      Backward(y, m - 1, DaysInMonth(y, m - 1), n - d)
    else if y > MinYear then
      NextMonthStart(y - 1, 12);
      Backward(y - 1, 12, 31, n - d)
    else
      None
  }

  lemma OrdinalBoundsOfDate(y: int, m: int, d: int)
    requires ValidDate(y, m, d)
    ensures 1 <= Ordinal(y, m, d) <= MaxOrdinal
  {
    OrdinalBounds(DateTime(y, m, d, 0, 0, 0));
  }

  /** The time of day `tod` (seconds since midnight) as hours, minutes and seconds. */
  function AtTimeOfDay(y: int, m: int, d: int, tod: int): (r: DateTime)
    requires 0 <= tod < SecondsPerDay
    ensures 0 <= r.hour < 24 && 0 <= r.minute < 60 && 0 <= r.second < 60
    ensures TimeOfDay(r) == tod && r.year == y && r.month == m && r.day == d
  {
    DateTime(y, m, d, tod / 3600, (tod % 3600) / 60, tod % 60)
  }

  /** `t + timedelta(seconds=delta)`; `None` is Python's OverflowError. */
  function AddSeconds(t: Instant, delta: int): (r: Option<Instant>)
    ensures r.Some? <==> 0 <= Seconds(t) + delta < MaxSeconds
    ensures r.Some? ==> Seconds(r.value) == Seconds(t) + delta
  {
    var total := TimeOfDay(t) + delta;
    var days := total / SecondsPerDay;
    var tod := total % SecondsPerDay;
    assert total == days * SecondsPerDay + tod;
    var shifted := if days >= 0 then Forward(t.year, t.month, t.day, days)
                   else Backward(t.year, t.month, t.day, -days);
    OrdinalBounds(t);
    assert shifted.Some? <==> 1 <= Ordinal(t.year, t.month, t.day) + days <= MaxOrdinal;
    match shifted
    case None => None
    case Some((y, m, d)) => Some(AtTimeOfDay(y, m, d, tod))
  }

  /** Adding no time gives the same instant back. */
  lemma AddNothing(t: Instant)
    ensures AddSeconds(t, 0) == Some(t)
  {
    var tod := TimeOfDay(t);
    assert tod / SecondsPerDay == 0 && tod % SecondsPerDay == tod;
    assert tod / 3600 == t.hour;
    assert (tod % 3600) / 60 == t.minute;
    assert tod % 60 == t.second;
  }

  /**
    The UTC reading of an aware value with local fields `t` and an offset of
    `offset` seconds east of UTC: what Python compares such a value by.
    Inside the range it is `AddSeconds(t, -offset)`. Comparing never
    overflows, so a value early on 0001-01-01 with a positive offset, or
    late on 9999-12-31 with a negative one, still has a reading: on
    0000-12-31 or 10000-01-01 at the shifted time of day, before or after
    every instant.
   */
  function UtcReading(t: Instant, offset: int): (v: DateTime)
    ensures AddSeconds(t, -offset).Some? ==> v == AddSeconds(t, -offset).value
    ensures Seconds(t) - offset < 0 ==> forall c: Instant :: Before(v, c)
    ensures Seconds(t) - offset >= MaxSeconds ==> forall c: Instant :: Before(c, v)
  {
    match AddSeconds(t, -offset)
    case Some(u) => u
    case None =>
      var tod := (TimeOfDay(t) - offset) % SecondsPerDay;
      if Seconds(t) - offset < 0 then AtTimeOfDay(MinYear - 1, 12, 31, tod)
      else AtTimeOfDay(MaxYear + 1, 1, 1, tod)
  }

  /**
    `_add_months` (taskScheduler.py:126-132): move `months` calendar months,
    clamping the day to the target month's length; `None` is the ValueError
    `replace` raises when the target year leaves 1..9999.
   */
  function AddMonths(t: Instant, months: int): (r: Option<Instant>)
    ensures var i := MonthIndex(t.year, t.month) + months;
            r.Some? <==> MinYear <= i / 12 <= MaxYear
    ensures r.Some? ==> MonthIndex(r.value.year, r.value.month) == MonthIndex(t.year, t.month) + months
    ensures r.Some? ==> r.value.day <= t.day
    ensures r.Some? ==> r.value.day == t.day || r.value.day == DaysInMonth(r.value.year, r.value.month)
    ensures r.Some? ==> TimeOfDay(r.value) == TimeOfDay(t) && r.value.hour == t.hour
                        && r.value.minute == t.minute && r.value.second == t.second
  {
    var y := t.year + (t.month - 1 + months) / 12;
    var m := (t.month - 1 + months) % 12 + 1;
    var d := if t.day < DaysInMonth(y, m) then t.day else DaysInMonth(y, m);
    if MinYear <= y <= MaxYear then Some(t.(year := y, month := m, day := d)) else None
  }

  /**
    `candidate.replace(year=candidate.year + interval)` (taskScheduler.py:160);
    `None` is the ValueError for a year outside 1..9999 or for February 29
    landing in a common year.
   */
  function ReplaceYear(t: Instant, y: int): (r: Option<Instant>)
    ensures r.Some? <==> MinYear <= y <= MaxYear && !(t.month == 2 && t.day == 29 && !IsLeap(y))
    ensures r.Some? ==> r.value == t.(year := y)
  {
    if MinYear <= y <= MaxYear && t.day <= DaysInMonth(y, t.month) then Some(t.(year := y)) else None
  }
}
