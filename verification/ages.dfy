/**
 The years / months / days breakdown of the time between a birth date and a
 reference date, by borrowing from the next-larger unit: a negative day count
 borrows the length of the month before the reference month, a negative
 month count borrows twelve months from the years.
 */
module Ages {
  import opened Calendar

  datatype Age = Breakdown(years: int, months: int, days: int)

  /** Length of the month a negative day count borrows: the one before the reference date's month, in the reference's calendar. */
  function BorrowedMonthLength(current: Date): (n: int)
    requires 1 <= current.month <= 12
    ensures 28 <= n <= 31
  {
    var p := PrevMonth(current.year, current.month);
    DaysInMonth(p.0, p.1)
  }

  /**
   The age breakdown exactly as the page computes it. The borrowed length is
   read from the date `new Date(year, monthIndex, 0)`, which is the last day
   of the previous month. When the birth day exceeds that length the day count
   stays negative: as low as -2 (a 31st against the 1st of March in a common
   year).
   */
  function PreciseAge(birth: Date, current: Date): (a: Age)
    requires ValidDate(birth) && ValidDate(current)
    ensures 0 <= a.months <= 11
    ensures 12 * a.years + a.months
         == MonthIndex(current.year, current.month) - MonthIndex(birth.year, birth.month)
            - (if current.day < birth.day then 1 else 0)
    ensures current.day >= birth.day ==> a.days == current.day - birth.day
    ensures current.day < birth.day ==> a.days == current.day - birth.day + BorrowedMonthLength(current)
    ensures -2 <= a.days <= 30
    ensures a.days < 0 <==> birth.day - current.day > BorrowedMonthLength(current)
  {
    LastDayOfPreviousMonth(current.year, current.month);
    var years := current.year - birth.year;
    var months := current.month - birth.month;
    var days := current.day - birth.day;
    var lastMonth := MakeDate(current.year, current.month - 1, 0);
    var months' := if days < 0 then months - 1 else months;
    var days' := if days < 0 then days + lastMonth.day else days;
    if months' < 0 then Breakdown(years - 1, months' + 12, days')
    else Breakdown(years, months', days')
  }

  /** Years come out non-negative exactly when the reference date is not before the birth date. */
  lemma YearsNonNegativeIffNotBefore(birth: Date, current: Date)
    requires ValidDate(birth) && ValidDate(current)
    ensures PreciseAge(birth, current).years >= 0 <==> !Before(current, birth)
  {
  }

  /** `new Date(year + years, monthIndex + months, day + days)`: a breakdown added back onto a date. */
  function AddAge(d: Date, a: Age): Date {
    MakeDate(d.year + a.years, d.month - 1 + a.months, d.day + a.days)
  }

  /**
   Whatever breakdown satisfies the borrow equations, adding it back onto the
   birth date with the `Date` constructor (years and months to the month index,
   days to the day) lands exactly on the reference date.
   */
  lemma BorrowEquationsReconstruct(birth: Date, current: Date, a: Age)
    requires ValidDate(birth) && ValidDate(current)
    requires 12 * a.years + a.months
          == MonthIndex(current.year, current.month) - MonthIndex(birth.year, birth.month)
             - (if current.day < birth.day then 1 else 0)
    requires current.day >= birth.day ==> a.days == current.day - birth.day
    requires current.day < birth.day ==> a.days == current.day - birth.day + BorrowedMonthLength(current)
    ensures AddAge(birth, a) == current
  {
    var y, mi := birth.year + a.years, birth.month - 1 + a.months;
    if current.day < birth.day {
      MakeDateFromPreviousMonth(current, y, mi);
    } else {
      MakeDateInSameMonth(current, y, mi);
    }
  }

  /**
   Adding the page's breakdown back onto the birth date with the `Date`
   constructor lands exactly on the reference date, negative day counts
   included.
   */
  lemma PreciseAgeReconstructs(birth: Date, current: Date)
    requires ValidDate(birth) && ValidDate(current)
    ensures AddAge(birth, PreciseAge(birth, current)) == current
  {
    BorrowEquationsReconstruct(birth, current, PreciseAge(birth, current));
  }

  /** The breakdown is all zeroes exactly when the two dates are the same day. */
  lemma PreciseAgeZeroIffSameDate(birth: Date, current: Date)
    requires ValidDate(birth) && ValidDate(current)
    ensures PreciseAge(birth, current) == Breakdown(0, 0, 0) <==> birth == current
  {
    if PreciseAge(birth, current) == Breakdown(0, 0, 0) {
      PreciseAgeReconstructs(birth, current);
      MakeDateReadsBack(birth.year, birth.month, birth.day);
    }
  }

  /** Born on a leap day, one day past it 24 years later; born June 15th, on June 15th 34 years later. */
  lemma WorkedExamples()
    ensures PreciseAge(Date(2000, 2, 29), Date(2024, 3, 1)) == Breakdown(24, 0, 1)
    ensures PreciseAge(Date(1990, 6, 15), Date(2024, 6, 15)) == Breakdown(34, 0, 0)
  {
  }

  /** A 31st of January against the 1st of March of a common year: one month and minus two days. */
  lemma NegativeDaysExample()
    ensures PreciseAge(Date(2023, 1, 31), Date(2023, 3, 1)) == Breakdown(0, 1, -2)
  {
  }

  /** Month index `k` months after the given date, with the day clamped to the length of the month reached. */
  function AddMonthsClamped(d: Date, k: int): (r: Date)
    requires 1 <= d.day
    ensures ValidDate(r)
    ensures MonthIndex(r.year, r.month) == MonthIndex(d.year, d.month) + k
    ensures r.day == d.day || (r.day < d.day && r.day == DaysInMonth(r.year, r.month))
  {
    var mi := MonthIndex(d.year, d.month) + k;
    var y := mi / 12;
    var m := mi % 12 + 1;
    var len := DaysInMonth(y, m);
    Date(y, m, if d.day <= len then d.day else len)
  }

  /**
   The breakdown with the birth day clamped to the length of the borrowed
   month before borrowing, so that the day count never goes negative.
   */
  function ClampedAge(birth: Date, current: Date): (a: Age)
    requires ValidDate(birth) && ValidDate(current)
    ensures 0 <= a.months <= 11
    ensures 0 <= a.days <= 30
    ensures 12 * a.years + a.months
         == MonthIndex(current.year, current.month) - MonthIndex(birth.year, birth.month)
            - (if current.day < birth.day then 1 else 0)
    ensures a.years >= 0 <==> !Before(current, birth)
  {
    var years := current.year - birth.year;
    var months := current.month - birth.month;
    var borrowed := BorrowedMonthLength(current);
    var anchor := if birth.day <= borrowed then birth.day else borrowed;
    var months' := if current.day < birth.day then months - 1 else months;
    var days' := if current.day < birth.day then current.day + borrowed - anchor else current.day - birth.day;
    if months' < 0 then Breakdown(years - 1, months' + 12, days')
    else Breakdown(years, months', days')
  }

  /** Adding the clamped breakdown's months to the birth date (clamping the day) and then its days reaches the reference date. */
  lemma {:induction false} ClampedAgeReconstructs(birth: Date, current: Date)
    requires ValidDate(birth) && ValidDate(current)
    ensures var a := ClampedAge(birth, current);
            DayNumber(AddMonthsClamped(birth, 12 * a.years + a.months)) + a.days == DayNumber(current)
  {
    var a := ClampedAge(birth, current);
    var r := AddMonthsClamped(birth, 12 * a.years + a.months);
    if current.day < birth.day {
      var p := PrevMonth(current.year, current.month);
      assert r.year == p.0 && r.month == p.1;
      FirstDayStep(p.0, p.1);
    } else {
      assert r.year == current.year && r.month == current.month;
    }
  }

  /** The clamped breakdown differs from the page's only where the borrowed month is shorter than the birth day. */
  lemma ClampedAgeAgreesIffBirthDayFits(birth: Date, current: Date)
    requires ValidDate(birth) && ValidDate(current)
    ensures ClampedAge(birth, current) == PreciseAge(birth, current)
            <==> current.day >= birth.day || birth.day <= BorrowedMonthLength(current)
  {
  }
}
