/** Go's `time` package as the core uses it, in one fixed time zone without
    daylight-saving transitions. A Time is a normalised proleptic Gregorian
    date with a clock reading; its instant is counted in nanoseconds from
    January 1 of year 1, 00:00:00, which is Go's zero Time. */
module GoTime {

  const NanosPerSecond: int := 1_000_000_000
  const NanosPerMinute: int := 60_000_000_000
  const NanosPerHour: int := 3_600_000_000_000
  const NanosPerDay: int := 86_400_000_000_000
  /** Days in one 400-year cycle of the Gregorian calendar. */
  const DaysPer400Years: int := 146097

  predicate IsLeap(year: int) {
    year % 4 == 0 && (year % 100 != 0 || year % 400 == 0)
  }

  function YearLength(year: int): int {
    if IsLeap(year) then 366 else 365
  }

  function DaysIn(year: int, month: int): int
    requires 1 <= month <= 12
  {
    if month == 2 then (if IsLeap(year) then 29 else 28)
    else if month == 4 || month == 6 || month == 9 || month == 11 then 30
    else 31
  }

  /** Days from January 1 of year 1 to January 1 of `year` (negative before year 1). */
  function DaysBeforeYear(year: int): int {
    var y := year - 1;
    365 * y + y / 4 - y / 100 + y / 400
  }

  /** Days from January 1 of `year` to the first day of `month`; month 13 is the next January 1. */
  function DaysBeforeMonth(year: int, month: int): int
    requires 1 <= month <= 13
  {
    [0, 31, 59, 90, 120, 151, 181, 212, 243, 273, 304, 334, 365][month - 1]
      + (if IsLeap(year) && month > 2 then 1 else 0)
  }

  datatype CivilTime = CivilTime(year: int, month: int, day: int,
                                 hour: int, minute: int, second: int, nanosecond: int)
  {
    predicate Valid() {
      && 1 <= month <= 12 && 1 <= day <= DaysIn(year, month)
      && 0 <= hour < 24 && 0 <= minute < 60 && 0 <= second < 60
      && 0 <= nanosecond < NanosPerSecond
    }
  }

  /** A time.Time: its fields are always normalised. */
  type Time = t: CivilTime | t.Valid() witness CivilTime(1, 1, 1, 0, 0, 0, 0)

  /** The day number of `t`: days since January 1 of year 1. */
  function Ordinal(t: Time): int {
    DaysBeforeYear(t.year) + DaysBeforeMonth(t.year, t.month) + t.day - 1
  }

  /** Nanoseconds since midnight. */
  function ClockNanos(t: Time): int {
    t.hour * NanosPerHour + t.minute * NanosPerMinute + t.second * NanosPerSecond + t.nanosecond
  }

  /** The instant of `t`: nanoseconds since Go's zero Time. */
  function Nanos(t: Time): int {
    Ordinal(t) * NanosPerDay + ClockNanos(t)
  }

  /** `a` falls on an earlier calendar day than `b`, ordering by (year, month, day). */
  predicate DayBefore(a: Time, b: Time) {
    || a.year < b.year
    || (a.year == b.year && a.month < b.month)
    || (a.year == b.year && a.month == b.month && a.day < b.day)
  }

  predicate SameDay(a: Time, b: Time) {
    a.year == b.year && a.month == b.month && a.day == b.day
  }

  // ---------------------------------------------------------------------
  // Calendar arithmetic

  lemma DaysBeforeYearStep(year: int)
    ensures DaysBeforeYear(year + 1) == DaysBeforeYear(year) + YearLength(year)
  {
    var y := year - 1;
    assert year / 4 - y / 4 == (if year % 4 == 0 then 1 else 0);
    assert year / 100 - y / 100 == (if year % 100 == 0 then 1 else 0);
    assert year / 400 - y / 400 == (if year % 400 == 0 then 1 else 0);
    if year % 400 == 0 {
      assert year == 400 * (year / 400);
      assert year % 100 == 0 && year % 4 == 0;
    } else if year % 100 == 0 {
      assert year == 100 * (year / 100);
      assert year % 4 == 0;
    }
  }

  lemma {:induction false} DaysBeforeYearMonotone(a: int, b: int)
    requires a < b
    ensures DaysBeforeYear(a) + YearLength(a) <= DaysBeforeYear(b)
    decreases b - a
  {
    DaysBeforeYearStep(a);
    if a + 1 < b {
      DaysBeforeYearMonotone(a + 1, b);
      DaysBeforeYearStep(a + 1);
    }
  }

  lemma DaysBeforeMonthStep(year: int, month: int)
    requires 1 <= month <= 12
    ensures DaysBeforeMonth(year, month + 1) == DaysBeforeMonth(year, month) + DaysIn(year, month)
    ensures DaysBeforeMonth(year, 13) == YearLength(year)
  {
  }

  lemma {:induction false} DaysBeforeMonthMonotone(year: int, a: int, b: int)
    requires 1 <= a < b <= 13
    ensures DaysBeforeMonth(year, a) + DaysIn(year, a) <= DaysBeforeMonth(year, b)
    decreases b - a
  {
    DaysBeforeMonthStep(year, a);
    if a + 1 < b {
      DaysBeforeMonthMonotone(year, a + 1, b);
      DaysBeforeMonthStep(year, a + 1);
    }
  }

  lemma CycleStart(q: int)
    ensures DaysBeforeYear(400 * q + 1) == DaysPer400Years * q
  {
    assert (400 * q) / 4 == 100 * q;
    assert (400 * q) / 100 == 4 * q;
    assert (400 * q) / 400 == q;
  }

  /** Walks forward from January 1 of `year`, `rem` days on, to the year that
      holds that day and the day's offset in it. */
  function YearSearch(year: int, rem: int): (r: (int, int))
    requires rem >= 0
    ensures year <= r.0 && 0 <= r.1 < YearLength(r.0)
    ensures DaysBeforeYear(r.0) + r.1 == DaysBeforeYear(year) + rem
    decreases rem
  {
    DaysBeforeYearStep(year);
    if rem < YearLength(year) then (year, rem)
    else YearSearch(year + 1, rem - YearLength(year))
  }

  /** Walks forward from the first of `month`, `rem` days on, to the month
      that holds that day and its day of the month. */
  function MonthSearch(year: int, month: int, rem: int): (r: (int, int))
    requires 1 <= month <= 12
    requires 0 <= rem < YearLength(year) - DaysBeforeMonth(year, month)
    ensures month <= r.0 <= 12 && 1 <= r.1 <= DaysIn(year, r.0)
    ensures DaysBeforeMonth(year, r.0) + r.1 - 1 == DaysBeforeMonth(year, month) + rem
    decreases 12 - month
  {
    DaysBeforeMonthStep(year, month);
    if rem < DaysIn(year, month) then (month, rem + 1)
    else MonthSearch(year, month + 1, rem - DaysIn(year, month))
  }

  /** The calendar day with day number `days`, as (year, month, day). */
  function FromDays(days: int): (r: (int, int, int))
    ensures 1 <= r.1 <= 12 && 1 <= r.2 <= DaysIn(r.0, r.1)
    ensures DaysBeforeYear(r.0) + DaysBeforeMonth(r.0, r.1) + r.2 - 1 == days
  {
    var q := days / DaysPer400Years;
    CycleStart(q);
    var yd := YearSearch(400 * q + 1, days - DaysPer400Years * q);
    DaysBeforeMonthStep(yd.0, 1);
    var md := MonthSearch(yd.0, 1, yd.1);
    (yd.0, md.0, md.1)
  }

  /** A clock reading split into hours, minutes, seconds and nanoseconds adds back up. */
  lemma ClockSplit(clock: int)
    requires 0 <= clock < NanosPerDay
    ensures 0 <= clock / NanosPerHour < 24
    ensures var r1 := clock % NanosPerHour; var r2 := r1 % NanosPerMinute;
      && 0 <= r1 / NanosPerMinute < 60 && 0 <= r2 / NanosPerSecond < 60
      && clock == clock / NanosPerHour * NanosPerHour + r1 / NanosPerMinute * NanosPerMinute
                  + r2 / NanosPerSecond * NanosPerSecond + r2 % NanosPerSecond
  {
    var r1 := clock % NanosPerHour;
    assert clock == clock / NanosPerHour * NanosPerHour + r1;
    var r2 := r1 % NanosPerMinute;
    assert r1 == r1 / NanosPerMinute * NanosPerMinute + r2;
    assert r2 == r2 / NanosPerSecond * NanosPerSecond + r2 % NanosPerSecond;
  }

  /** The Time at instant `n`; every instant has one. */
  function FromNanos(n: int): (t: Time)
    ensures Nanos(t) == n
  {
    var ymd := FromDays(n / NanosPerDay);
    var clock := n % NanosPerDay;
    ClockSplit(clock);
    var r1 := clock % NanosPerHour;
    var r2 := r1 % NanosPerMinute;
    var t := CivilTime(ymd.0, ymd.1, ymd.2, clock / NanosPerHour, r1 / NanosPerMinute,
                       r2 / NanosPerSecond, r2 % NanosPerSecond);
    assert n == n / NanosPerDay * NanosPerDay + clock;
    assert ClockNanos(t) == clock;
    t
  }

  // ---------------------------------------------------------------------
  // The calendar order and the instant order agree

  lemma OrdinalMonotone(a: Time, b: Time)
    requires DayBefore(a, b)
    ensures Ordinal(a) < Ordinal(b)
  {
    if a.year < b.year {
      DaysBeforeMonthMonotone(a.year, a.month, 13);
      DaysBeforeYearMonotone(a.year, b.year);
    } else if a.month < b.month {
      DaysBeforeMonthMonotone(a.year, a.month, b.month);
    }
  }

  /** Day numbers order times exactly as (year, month, day) does. */
  lemma OrdinalOrder(a: Time, b: Time)
    ensures Ordinal(a) < Ordinal(b) <==> DayBefore(a, b)
    ensures Ordinal(a) == Ordinal(b) <==> SameDay(a, b)
  {
    if DayBefore(a, b) {
      OrdinalMonotone(a, b);
    } else if DayBefore(b, a) {
      OrdinalMonotone(b, a);
    }
  }

  lemma NanosSplit(t: Time)
    ensures Nanos(t) / NanosPerDay == Ordinal(t)
    ensures Nanos(t) % NanosPerDay == ClockNanos(t)
    ensures ClockNanos(t) / NanosPerHour == t.hour
    ensures ClockNanos(t) % NanosPerHour / NanosPerMinute == t.minute
    ensures ClockNanos(t) % NanosPerHour % NanosPerMinute / NanosPerSecond == t.second
    ensures ClockNanos(t) % NanosPerHour % NanosPerMinute % NanosPerSecond == t.nanosecond
  {
  }

  /** Distinct times are distinct instants. */
  lemma NanosInjective(a: Time, b: Time)
    requires Nanos(a) == Nanos(b)
    ensures a == b
  {
    NanosSplit(a);
    NanosSplit(b);
    OrdinalOrder(a, b);
  }

  /** Reading a Time back from its own instant gives the Time itself. */
  lemma FromNanosOfNanos(t: Time)
    ensures FromNanos(Nanos(t)) == t
  {
    NanosInjective(FromNanos(Nanos(t)), t);
  }

  // ---------------------------------------------------------------------
  // The operations of package time that the core calls

  /** time.Date's instant for the given fields, which may be out of range:
      months carry into years and clock fields into days. */
  function DateNanos(year: int, month: int, day: int,
                     hour: int, minute: int, second: int, nanosecond: int): int
  {
    var y := year + (month - 1) / 12;
    var m := (month - 1) % 12 + 1;
    (DaysBeforeYear(y) + DaysBeforeMonth(y, m) + day - 1) * NanosPerDay
      + hour * NanosPerHour + minute * NanosPerMinute + second * NanosPerSecond + nanosecond
  }

  /** time.Date: the normalised time at the given fields. */
  function Date(year: int, month: int, day: int,
                hour: int, minute: int, second: int, nanosecond: int): Time
  {
    FromNanos(DateNanos(year, month, day, hour, minute, second, nanosecond))
  }

  /** time.Date given the fields of a normalised Time returns that Time. */
  lemma DateOfFields(t: Time)
    ensures Date(t.year, t.month, t.day, t.hour, t.minute, t.second, t.nanosecond) == t
  {
    assert (t.month - 1) / 12 == 0 && (t.month - 1) % 12 + 1 == t.month;
    assert DateNanos(t.year, t.month, t.day, t.hour, t.minute, t.second, t.nanosecond) == Nanos(t);
    FromNanosOfNanos(t);
  }

  /** Time.Add: `t` moved by `d` nanoseconds. */
  function Add(t: Time, d: int): Time {
    FromNanos(Nanos(t) + d)
  }

  /** Time.Equal: the same instant. In one fixed zone a normalised Time is
      determined by its instant, so this is equality of the fields
      (InstantOrder). */
  predicate Equal(a: Time, b: Time) {
    a == b
  }

  /** Time.Before: an earlier instant, here ordering by day and then by clock
      (InstantOrder). */
  predicate Before(a: Time, b: Time) {
    DayBefore(a, b) || (SameDay(a, b) && ClockNanos(a) < ClockNanos(b))
  }

  /** Time.After: a later instant. */
  predicate After(a: Time, b: Time) {
    Before(b, a)
  }

  /** Equal, Before and After are the order of instants. */
  lemma InstantOrder(a: Time, b: Time)
    ensures Equal(a, b) <==> Nanos(a) == Nanos(b)
    ensures Before(a, b) <==> Nanos(a) < Nanos(b)
    ensures After(a, b) <==> Nanos(a) > Nanos(b)
  {
    OrdinalOrder(a, b);
    NanosSplit(a);
    NanosSplit(b);
    if Nanos(a) == Nanos(b) {
      NanosInjective(a, b);
    }
  }
}
