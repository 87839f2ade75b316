/**
 The proleptic Gregorian calendar as the browser's `Date` object sees it:
 month lengths, the leap rule, day numbers counted from 1970-01-01, and the
 `new Date(year, monthIndex, day)` constructor, which rolls an out-of-range
 month index into the year and an out-of-range day into the neighbouring
 months.
 */
module Calendar {

  /** A calendar date; `month` is 1-based (January is 1), unlike `Date.getMonth()`. */
  datatype Date = Date(year: int, month: int, day: int)

  /** Divisible by 4, except centuries that are not divisible by 400. */
  predicate IsLeapYear(y: int) {
    y % 4 == 0 && (y % 100 != 0 || y % 400 == 0)
  }

  function DaysInMonth(y: int, m: int): (n: int)
    requires 1 <= m <= 12
    ensures 28 <= n <= 31
    ensures m == 2 ==> (n == 29 <==> IsLeapYear(y))
  {
    if m == 2 then (if IsLeapYear(y) then 29 else 28)
    else if m == 4 || m == 6 || m == 9 || m == 11 then 30
    else 31
  }

  function DaysInYear(y: int): int {
    if IsLeapYear(y) then 366 else 365
  }

  /** The leap rule repeats every 400 years, and 1900 is not a leap year while 2000 is. */
  lemma LeapYearRule(y: int)
    ensures IsLeapYear(y + 400) <==> IsLeapYear(y)
    ensures !IsLeapYear(1900) && IsLeapYear(2000) && IsLeapYear(2024) && !IsLeapYear(2023)
  {
  }

  /** A date that exists: a month 1..12 and a day within that month's length. */
  predicate ValidDate(d: Date) {
    1 <= d.month <= 12 && 1 <= d.day <= DaysInMonth(d.year, d.month)
  }

  /** Strict chronological order of two dates, compared field by field. */
  predicate Before(a: Date, b: Date) {
    a.year < b.year
    || (a.year == b.year && (a.month < b.month || (a.month == b.month && a.day < b.day)))
  }

  /** Months counted continuously across years: January of year 0 is 0. */
  function MonthIndex(y: int, m: int): int {
    12 * y + m - 1
  }

  /** Within months 1..12 the month index determines the year and the month. */
  lemma MonthIndexInjective(y1: int, m1: int, y2: int, m2: int)
    requires 1 <= m1 <= 12 && 1 <= m2 <= 12
    ensures MonthIndex(y1, m1) == MonthIndex(y2, m2) <==> y1 == y2 && m1 == m2
  {
  }

  function PrevMonth(y: int, m: int): (p: (int, int))
    requires 1 <= m <= 12
    ensures 1 <= p.1 <= 12
    ensures MonthIndex(p.0, p.1) == MonthIndex(y, m) - 1
  {
    if m == 1 then (y - 1, 12) else (y, m - 1)
  }

  function NextMonth(y: int, m: int): (n: (int, int))
    requires 1 <= m <= 12
    ensures 1 <= n.1 <= 12
    ensures MonthIndex(n.0, n.1) == MonthIndex(y, m) + 1
  {
    if m == 12 then (y + 1, 1) else (y, m + 1)
  }

  /** Day number (days since 1970-01-01) of the first of January of year `y`, counted year by year. */
  function YearStart(y: int): int
    decreases if y < 1970 then 1970 - y else y - 1970
  {
    if y == 1970 then 0
    else if y > 1970 then YearStart(y - 1) + DaysInYear(y - 1)
    else YearStart(y + 1) - DaysInYear(y)
  }

  /** Days from the first of January of `y` to the first of month `m`. */
  function DaysBeforeMonth(y: int, m: int): int
    requires 1 <= m <= 12
  {
    var common :=
      if m == 1 then 0 else if m == 2 then 31 else if m == 3 then 59
      else if m == 4 then 90 else if m == 5 then 120 else if m == 6 then 151
      else if m == 7 then 181 else if m == 8 then 212 else if m == 9 then 243
      else if m == 10 then 273 else if m == 11 then 304 else 334;
    if m > 2 && IsLeapYear(y) then common + 1 else common
  }

  /** Day number (days since 1970-01-01) of the first of month `m` of year `y`. */
  function FirstDay(y: int, m: int): int
    requires 1 <= m <= 12
  {
    YearStart(y) + DaysBeforeMonth(y, m)
  }

  /** Days since 1970-01-01; negative before it. */
  function DayNumber(d: Date): int
    requires 1 <= d.month <= 12
  {
    FirstDay(d.year, d.month) + d.day - 1
  }

  lemma UnixEpochIsDayZero()
    ensures DayNumber(Date(1970, 1, 1)) == 0
  {
  }

  /** Consecutive years are as far apart as the earlier year is long. */
  lemma YearStartStep(y: int)
    ensures YearStart(y + 1) == YearStart(y) + DaysInYear(y)
  {
  }

  /** The first of the next month comes exactly one month length after the first of this one. */
  lemma FirstDayStep(y: int, m: int)
    requires 1 <= m <= 12
    ensures FirstDay(NextMonth(y, m).0, NextMonth(y, m).1) == FirstDay(y, m) + DaysInMonth(y, m)
  {
    if m == 12 {
      YearStartStep(y);
    }
  }

  /** First days of months grow with the month index, by at least the earlier month's length. */
  lemma {:induction false} FirstDayMonotone(y1: int, m1: int, y2: int, m2: int)
    requires 1 <= m1 <= 12 && 1 <= m2 <= 12
    requires MonthIndex(y1, m1) < MonthIndex(y2, m2)
    ensures FirstDay(y1, m1) + DaysInMonth(y1, m1) <= FirstDay(y2, m2)
    decreases MonthIndex(y2, m2) - MonthIndex(y1, m1)
  {
    var n := NextMonth(y1, m1);
    FirstDayStep(y1, m1);
    if MonthIndex(n.0, n.1) < MonthIndex(y2, m2) {
      FirstDayMonotone(n.0, n.1, y2, m2);
    } else {
      assert n.0 == y2 && n.1 == m2;
    }
  }

  /** On existing dates, day numbers order dates chronologically and identify them uniquely. */
  lemma DayNumberOrder(a: Date, b: Date)
    requires ValidDate(a) && ValidDate(b)
    ensures DayNumber(a) < DayNumber(b) <==> Before(a, b)
    ensures DayNumber(a) == DayNumber(b) <==> a == b
  {
    if MonthIndex(a.year, a.month) < MonthIndex(b.year, b.month) {
      FirstDayMonotone(a.year, a.month, b.year, b.month);
    } else if MonthIndex(b.year, b.month) < MonthIndex(a.year, a.month) {
      FirstDayMonotone(b.year, b.month, a.year, a.month);
    } else {
      assert a.year == b.year && a.month == b.month;
    }
  }

  /**
   Rolls a day that lies outside month `m` of year `y` into the previous or
   the next months until it lands on an existing date: day 0 is the last day
   of the previous month, day 32 of a 31-day month is the first of the next.
   */
  function Normalize(y: int, m: int, d: int): (r: Date)
    requires 1 <= m <= 12
    ensures ValidDate(r)
    ensures DayNumber(r) == FirstDay(y, m) + d - 1
    decreases if d < 1 then 1 else 0, if d < 1 then -d else d
  {
    if d < 1 then
      var p := PrevMonth(y, m);
      FirstDayStep(p.0, p.1);
      Normalize(p.0, p.1, d + DaysInMonth(p.0, p.1))
    else if d > DaysInMonth(y, m) then
      var n := NextMonth(y, m);
      FirstDayStep(y, m);
      Normalize(n.0, n.1, d - DaysInMonth(y, m))
    else
      Date(y, m, d)
  }

  /**
   `new Date(year, monthIndex, day)` with a 0-based month index that may lie
   outside 0..11: the index is floored into the year first, then the day is
   rolled as `Normalize` does.
   */
  function MakeDate(year: int, monthIndex: int, day: int): (r: Date)
    ensures ValidDate(r)
    ensures DayNumber(r) == FirstDay(year + monthIndex / 12, monthIndex % 12 + 1) + day - 1
  {
    Normalize(year + monthIndex / 12, monthIndex % 12 + 1, day)
  }

  /** A date built in a month index that names month `m` of year `y` lies `d - 1` days after that month's first. */
  lemma MakeDateInMonth(year: int, monthIndex: int, d: int, y: int, m: int)
    requires 1 <= m <= 12
    requires 12 * year + monthIndex == MonthIndex(y, m)
    ensures DayNumber(MakeDate(year, monthIndex, d)) == FirstDay(y, m) + d - 1
  {
    MonthIndexInjective(year + monthIndex / 12, monthIndex % 12 + 1, y, m);
  }

  /** A date built in the month of `c` at `c`'s day is `c`. */
  lemma MakeDateInSameMonth(c: Date, year: int, monthIndex: int)
    requires ValidDate(c)
    requires 12 * year + monthIndex == MonthIndex(c.year, c.month)
    ensures MakeDate(year, monthIndex, c.day) == c
  {
    MakeDateInMonth(year, monthIndex, c.day, c.year, c.month);
    DayNumberOrder(MakeDate(year, monthIndex, c.day), c);
  }

  /** A date built in the month before `c`'s, at `c`'s day plus that month's length, is `c`. */
  lemma MakeDateFromPreviousMonth(c: Date, year: int, monthIndex: int)
    requires ValidDate(c)
    requires 12 * year + monthIndex == MonthIndex(c.year, c.month) - 1
    ensures var p := PrevMonth(c.year, c.month);
            MakeDate(year, monthIndex, c.day + DaysInMonth(p.0, p.1)) == c
  {
    var p := PrevMonth(c.year, c.month);
    var d := c.day + DaysInMonth(p.0, p.1);
    MakeDateInMonth(year, monthIndex, d, p.0, p.1);
    FirstDayStep(p.0, p.1);
    assert NextMonth(p.0, p.1) == (c.year, c.month);
    DayNumberOrder(MakeDate(year, monthIndex, d), c);
  }

  /** Building a date from a triple and reading it back gives the triple exactly when it exists. */
  lemma MakeDateReadsBack(y: int, m: int, d: int)
    ensures MakeDate(y, m - 1, d) == Date(y, m, d) <==> ValidDate(Date(y, m, d))
  {
    if ValidDate(Date(y, m, d)) {
      assert (m - 1) / 12 == 0 && (m - 1) % 12 == m - 1;
    }
  }

  /** Day 0 of a month is the last day of the month before it; January's is December 31st of the year before. */
  lemma LastDayOfPreviousMonth(y: int, m: int)
    requires 1 <= m <= 12
    ensures MakeDate(y, m - 1, 0) == Date(PrevMonth(y, m).0, PrevMonth(y, m).1, DaysInMonth(PrevMonth(y, m).0, PrevMonth(y, m).1))
  {
    assert (m - 1) / 12 == 0 && (m - 1) % 12 == m - 1;
  }

  /** A day count beyond the month's end lands on the matching day of the next month. */
  lemma DayOverflowRollsForward(y: int, m: int, d: int)
    requires 1 <= m <= 12
    requires DaysInMonth(y, m) < d <= DaysInMonth(y, m) + DaysInMonth(NextMonth(y, m).0, NextMonth(y, m).1)
    ensures Normalize(y, m, d) == Date(NextMonth(y, m).0, NextMonth(y, m).1, d - DaysInMonth(y, m))
  {
  }
}
