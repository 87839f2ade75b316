/**
 Instants as the browser's `Date` holds them: a calendar date plus the
 milliseconds elapsed since that date's midnight. Every day is exactly
 86 400 000 ms long (no time zones, no daylight-saving shifts).
 */
module Clock {
  import opened Calendar

  const MsPerHour: int := 1000 * 60 * 60
  const MsPerDay: int := 1000 * 60 * 60 * 24

  /** What `new Date()` returns: today's date and the time of day in milliseconds. */
  datatype Instant = Instant(date: Date, msOfDay: int)

  predicate ValidInstant(t: Instant) {
    ValidDate(t.date) && 0 <= t.msOfDay < MsPerDay
  }

  /** `getTime()`: milliseconds since 1970-01-01T00:00. */
  function EpochMs(t: Instant): (ms: int)
    requires 1 <= t.date.month <= 12
    ensures ValidInstant(t) ==> Midnight(t.date) <= ms < Midnight(t.date) + MsPerDay
  {
    DayNumber(t.date) * MsPerDay + t.msOfDay
  }

  /** `getTime()` of a `Date` built from a year, month and day: that day's midnight. */
  function Midnight(d: Date): int
    requires 1 <= d.month <= 12
  {
    DayNumber(d) * MsPerDay
  }

  /** `Math.floor(x / k)` on an integer `x` and a positive integer `k`. */
  function FloorDiv(x: int, k: int): (q: int)
    requires 0 < k
    ensures k * q <= x < k * q + k
  {
    x / k
  }

  /** `Math.ceil(x / k)` on an integer `x` and a positive integer `k`. */
  function CeilDiv(x: int, k: int): (q: int)
    requires 0 < k
    ensures k * q - k < x <= k * q
  {
    -((-x) / k)
  }

  /** Whole days between a midnight and an instant do not depend on the instant's time of day: floored one way, ceiled the other. */
  lemma WholeDaysIgnoreTimeOfDay(d: Date, t: Instant)
    requires 1 <= d.month <= 12 && ValidInstant(t)
    ensures FloorDiv(EpochMs(t) - Midnight(d), MsPerDay) == DayNumber(t.date) - DayNumber(d)
    ensures CeilDiv(Midnight(d) - EpochMs(t), MsPerDay) == DayNumber(d) - DayNumber(t.date)
  {
    var x := DayNumber(t.date) - DayNumber(d);
    assert EpochMs(t) - Midnight(d) == x * MsPerDay + t.msOfDay;
  }

  /** Midnight of a later day is a later instant than any time on an earlier day, and the midnight of the day itself is the earliest instant of it. */
  lemma MidnightOrder(d: Date, t: Instant)
    requires ValidDate(d) && ValidInstant(t)
    ensures Midnight(d) < EpochMs(t) <==> Before(d, t.date) || (d == t.date && t.msOfDay > 0)
    ensures Midnight(d) == EpochMs(t) <==> d == t.date && t.msOfDay == 0
  {
    DayNumberOrder(d, t.date);
  }

  /** `getTime()` orders instants chronologically: by date first, then by time of day. */
  lemma EpochMsOrder(a: Instant, b: Instant)
    requires ValidInstant(a) && ValidInstant(b)
    ensures EpochMs(a) < EpochMs(b) <==> Before(a.date, b.date) || (a.date == b.date && a.msOfDay < b.msOfDay)
    ensures EpochMs(a) == EpochMs(b) <==> a == b
  {
    DayNumberOrder(a.date, b.date);
    var x := DayNumber(b.date) - DayNumber(a.date);
    assert EpochMs(b) - EpochMs(a) == x * MsPerDay + b.msOfDay - a.msOfDay;
  }
}
