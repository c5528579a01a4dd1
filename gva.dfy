/** The calendar Date of package gva: a time.Time of which only the calendar
    day matters. Comparisons drop the clock and then compare instants, as
    gva/gva.go does; the lemmas show that this is the (year, month, day)
    order. */
module Gva {
  import GoTime

  /** Midnight of the day of `t` (gva's withoutClock). */
  function WithoutClock(t: GoTime.Time): GoTime.Time {
    GoTime.CivilTime(t.year, t.month, t.day, 0, 0, 0, 0)
  }

  /** withoutClock keeps the year, month and day and zeroes hour, minute,
      second and nanosecond: it is time.Date(t.Year(), t.Month(), t.Day(),
      0, 0, 0, 0) in the zone of `t`. */
  lemma WithoutClockIsMidnight(t: GoTime.Time)
    ensures WithoutClock(t) == GoTime.Date(t.year, t.month, t.day, 0, 0, 0, 0)
    ensures GoTime.SameDay(WithoutClock(t), t)
    ensures GoTime.ClockNanos(WithoutClock(t)) == 0
  {
    GoTime.DateOfFields(WithoutClock(t));
  }

  /** A date type with no time; `t` may still carry a clock, which every
      operation drops. */
  datatype Date = Date(t: GoTime.Time)
  {
    /** d + duration, with the clock dropped. */
    function Add(duration: int): Date {
      Date(WithoutClock(GoTime.Add(t, duration)))
    }

    predicate Eq(other: Date) {
      GoTime.Equal(WithoutClock(t), WithoutClock(other.t))
    }

    predicate Before(other: Date) {
      GoTime.Before(WithoutClock(t), WithoutClock(other.t))
    }

    predicate After(other: Date) {
      GoTime.After(WithoutClock(t), WithoutClock(other.t))
    }
  }

  /** The day number of a date: days since January 1 of year 1. */
  function Day(d: Date): int {
    GoTime.Ordinal(d.t)
  }

  /** Comparing dates is comparing their day numbers. */
  lemma CompareByDay(a: Date, b: Date)
    ensures a.Eq(b) <==> Day(a) == Day(b)
    ensures a.Before(b) <==> Day(a) < Day(b)
    ensures a.After(b) <==> Day(a) > Day(b)
  {
    GoTime.OrdinalOrder(a.t, b.t);
  }

  /** As in gva/gva.go, the comparisons are those of the instants of the two
      midnights. */
  lemma CompareMidnights(a: Date, b: Date)
    ensures a.Eq(b) <==> GoTime.Nanos(WithoutClock(a.t)) == GoTime.Nanos(WithoutClock(b.t))
    ensures a.Before(b) <==> GoTime.Nanos(WithoutClock(a.t)) < GoTime.Nanos(WithoutClock(b.t))
    ensures a.After(b) <==> GoTime.Nanos(WithoutClock(a.t)) > GoTime.Nanos(WithoutClock(b.t))
  {
    GoTime.InstantOrder(WithoutClock(a.t), WithoutClock(b.t));
  }

  /** Two dates are Eq exactly when they fall on the same year, month and
      day, whatever their clocks say. */
  lemma EqIffSameDay(a: Date, b: Date)
    ensures a.Eq(b) <==> GoTime.SameDay(a.t, b.t)
  {
  }

  /** Before is the lexicographic order on (year, month, day). */
  lemma BeforeIffEarlierDay(a: Date, b: Date)
    ensures a.Before(b) <==> GoTime.DayBefore(a.t, b.t)
  {
  }

  /** Eq is an equivalence; Before is a strict order with After as its
      converse; any two dates compare in exactly one of the three ways. */
  lemma DateOrder(a: Date, b: Date, c: Date)
    ensures a.Eq(a)
    ensures a.Eq(b) <==> b.Eq(a)
    ensures a.Eq(b) && b.Eq(c) ==> a.Eq(c)
    ensures a.Before(b) <==> b.After(a)
    ensures !a.Before(a)
    ensures a.Before(b) && b.Before(c) ==> a.Before(c)
    ensures a.Eq(b) && a.Before(c) ==> b.Before(c)
    ensures (if a.Before(b) then 1 else 0) + (if a.Eq(b) then 1 else 0)
            + (if a.After(b) then 1 else 0) == 1
  {
  }

  /** Dropping the clock twice is dropping it once. */
  lemma WithoutClockIdempotent(t: GoTime.Time)
    ensures WithoutClock(WithoutClock(t)) == WithoutClock(t)
  {
  }

  /** Add always yields a date at midnight. */
  lemma AddDropsClock(d: Date, duration: int)
    ensures var r := d.Add(duration).t;
      r.hour == 0 && r.minute == 0 && r.second == 0 && r.nanosecond == 0
  {
  }

  /** Adding nothing keeps the day (and drops the clock). */
  lemma AddZero(d: Date)
    ensures d.Add(0).t == WithoutClock(d.t)
    ensures d.Add(0).Eq(d)
  {
    GoTime.FromNanosOfNanos(d.t);
    EqIffSameDay(d.Add(0), d);
  }

  /** Adding k whole days moves the date by k days, in the fixed zone. */
  lemma AddDays(d: Date, k: int)
    ensures Day(d.Add(k * GoTime.NanosPerDay)) == Day(d) + k
  {
    var n := GoTime.Nanos(d.t) + k * GoTime.NanosPerDay;
    var moved := GoTime.FromNanos(n);
    GoTime.NanosSplit(d.t);
    GoTime.NanosSplit(moved);
    assert n == (Day(d) + k) * GoTime.NanosPerDay + GoTime.ClockNanos(d.t);
  }
}
