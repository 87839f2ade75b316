/**
 The derived facts shown under the age: total days lived and the next
 birthday, measured from the birth date's midnight to the current instant.
 */
module Birthdays {
  import opened Calendar
  import opened Clock

  datatype Facts = Facts(totalDaysLived: int, daysUntilBirthday: int, nextBirthday: Date)

  /** What the page shows for the next birthday. */
  datatype BirthdayText = Today | InDays(days: int, date: Date)

  /** `new Date(year, birthMonthIndex, birthDay)`: a February 29th in a common year rolls over to March 1st. */
  function BirthdayIn(birth: Date, year: int): (r: Date)
    requires ValidDate(birth)
    ensures ValidDate(r)
    ensures DayNumber(r) == FirstDay(year, birth.month) + birth.day - 1
  {
    MakeDateInMonth(year, birth.month - 1, birth.day, year, birth.month);
    MakeDate(year, birth.month - 1, birth.day)
  }

  /** A birthday that exists in the year is kept as it is. */
  lemma BirthdayInKeepsExistingDates(birth: Date, year: int)
    requires ValidDate(birth) && ValidDate(Date(year, birth.month, birth.day))
    ensures BirthdayIn(birth, year) == Date(year, birth.month, birth.day)
  {
    MakeDateReadsBack(year, birth.month, birth.day);
  }

  /** A February 29th birthday is observed on March 1st in a common year. */
  lemma LeapDayBirthdayFallsOnMarchFirst(birth: Date, year: int)
    requires birth.month == 2 && birth.day == 29 && ValidDate(birth)
    requires !IsLeapYear(year)
    ensures BirthdayIn(birth, year) == Date(year, 3, 1)
  {
    FirstDayStep(year, 2);
    DayNumberOrder(BirthdayIn(birth, year), Date(year, 3, 1));
  }

  /** Any date of year `y` comes before the birthday in year `y + 1`. */
  lemma NextYearBirthdayIsLater(birth: Date, today: Date)
    requires ValidDate(birth) && ValidDate(today)
    ensures DayNumber(today) < DayNumber(BirthdayIn(birth, today.year + 1))
  {
    FirstDayMonotone(today.year, today.month, today.year + 1, 1);
    if birth.month > 1 {
      FirstDayMonotone(today.year + 1, 1, today.year + 1, birth.month);
    }
  }

  /**
   Total days lived and the next birthday exactly as the page computes them:
   millisecond differences against the current instant, floored for the days
   lived and ceiled for the days until the birthday. This year's birthday
   counts only if its midnight is not earlier than the current instant.
   */
  function AdditionalInfo(birth: Date, now: Instant): (f: Facts)
    requires ValidDate(birth) && ValidInstant(now)
    ensures f.totalDaysLived == DayNumber(now.date) - DayNumber(birth)
    ensures f.nextBirthday == BirthdayIn(birth, now.date.year)
         || f.nextBirthday == BirthdayIn(birth, now.date.year + 1)
    ensures EpochMs(now) <= Midnight(f.nextBirthday)
    ensures f.daysUntilBirthday == DayNumber(f.nextBirthday) - DayNumber(now.date)
    ensures f.daysUntilBirthday >= 0
  {
    NextYearBirthdayIsLater(birth, now.date);
    var timeDifference := EpochMs(now) - Midnight(birth);
    var totalDaysLived := FloorDiv(timeDifference, MsPerDay);
    var year := now.date.year;
    var candidate := BirthdayIn(birth, year);
    var next := if Midnight(candidate) < EpochMs(now) then BirthdayIn(birth, year + 1) else candidate;
    WholeDaysIgnoreTimeOfDay(birth, now);
    WholeDaysIgnoreTimeOfDay(next, now);
    MidnightOrder(next, now);
    DayNumberOrder(next, now.date);
    Facts(totalDaysLived, CeilDiv(Midnight(next) - EpochMs(now), MsPerDay), next)
  }

  /** This year's birthday is chosen exactly when it is later than today, or is today and the clock shows exactly midnight. */
  lemma NextBirthdayChoice(birth: Date, now: Instant)
    requires ValidDate(birth) && ValidInstant(now)
    ensures var candidate := BirthdayIn(birth, now.date.year);
            AdditionalInfo(birth, now).nextBirthday == candidate
            <==> Before(now.date, candidate) || (candidate == now.date && now.msOfDay == 0)
  {
    var candidate := BirthdayIn(birth, now.date.year);
    MidnightOrder(candidate, now);
    DayNumberOrder(candidate, now.date);
    NextYearBirthdayIsLater(birth, now.date);
    DayNumberOrder(candidate, BirthdayIn(birth, now.date.year + 1));
  }

  /** Days lived are non-negative exactly when the birth date is not after today. */
  lemma TotalDaysLivedNonNegative(birth: Date, now: Instant)
    requires ValidDate(birth) && ValidInstant(now)
    ensures AdditionalInfo(birth, now).totalDaysLived >= 0 <==> !Before(now.date, birth)
  {
    DayNumberOrder(now.date, birth);
  }

  /** The "Today!" text, shown when the days until the birthday come out as 0. */
  function NextBirthdayText(f: Facts): (t: BirthdayText)
    ensures t.Today? <==> f.daysUntilBirthday == 0
    ensures t.InDays? ==> t.days == f.daysUntilBirthday && t.date == f.nextBirthday
  {
    if f.daysUntilBirthday == 0 then Today else InDays(f.daysUntilBirthday, f.nextBirthday)
  }

  /** "Today!" is shown exactly when the current instant is the very midnight that starts this year's birthday. */
  lemma TodayShownIffMidnightOfBirthday(birth: Date, now: Instant)
    requires ValidDate(birth) && ValidInstant(now)
    ensures NextBirthdayText(AdditionalInfo(birth, now)) == Today
            <==> now.msOfDay == 0 && now.date == BirthdayIn(birth, now.date.year)
  {
    var f := AdditionalInfo(birth, now);
    MidnightOrder(f.nextBirthday, now);
    DayNumberOrder(f.nextBirthday, now.date);
    NextBirthdayChoice(birth, now);
  }

  /** On the birthday at any time after midnight, the next birthday is already next year's. */
  lemma LaterOnBirthdayRollsOver(birth: Date, now: Instant)
    requires ValidDate(birth) && ValidInstant(now)
    requires now.date == BirthdayIn(birth, now.date.year) && now.msOfDay > 0
    ensures AdditionalInfo(birth, now).nextBirthday == BirthdayIn(birth, now.date.year + 1)
    ensures AdditionalInfo(birth, now).daysUntilBirthday > 0
  {
    NextBirthdayChoice(birth, now);
    NextYearBirthdayIsLater(birth, now.date);
  }

  /** Born on June 15th; at 10:00 on a later June 15th the page reports 365 days rather than "Today!". */
  lemma TodayMissedExample()
    ensures var f := AdditionalInfo(Date(1990, 6, 15), Instant(Date(2024, 6, 15), 10 * MsPerHour));
            f.daysUntilBirthday == 365 && NextBirthdayText(f) != Today
  {
    LaterOnBirthdayRollsOver(Date(1990, 6, 15), Instant(Date(2024, 6, 15), 10 * MsPerHour));
  }

  /**
   The next birthday decided by calendar day rather than by instant: this
   year's birthday counts for the whole of the day it falls on.
   */
  function AdditionalInfoByDay(birth: Date, now: Instant): (f: Facts)
    requires ValidDate(birth) && ValidInstant(now)
    ensures f.totalDaysLived == DayNumber(now.date) - DayNumber(birth)
    ensures f.nextBirthday == BirthdayIn(birth, now.date.year)
            <==> !Before(BirthdayIn(birth, now.date.year), now.date)
    ensures f.nextBirthday == BirthdayIn(birth, now.date.year)
         || f.nextBirthday == BirthdayIn(birth, now.date.year + 1)
    ensures f.daysUntilBirthday == DayNumber(f.nextBirthday) - DayNumber(now.date)
    ensures f.daysUntilBirthday >= 0
    ensures f.daysUntilBirthday == 0 <==> now.date == BirthdayIn(birth, now.date.year)
  {
    var year := now.date.year;
    var candidate := BirthdayIn(birth, year);
    NextYearBirthdayIsLater(birth, now.date);
    DayNumberOrder(candidate, now.date);
    DayNumberOrder(candidate, BirthdayIn(birth, year + 1));
    var next := if DayNumber(candidate) < DayNumber(now.date) then BirthdayIn(birth, year + 1) else candidate;
    Facts(DayNumber(now.date) - DayNumber(birth), DayNumber(next) - DayNumber(now.date), next)
  }

  /** Decided by day, the birthday at 10:00 shows "Today!". */
  lemma TodayShownByDayExample()
    ensures NextBirthdayText(AdditionalInfoByDay(Date(1990, 6, 15), Instant(Date(2024, 6, 15), 10 * MsPerHour))) == Today
  {
    BirthdayInKeepsExistingDates(Date(1990, 6, 15), 2024);
  }
}
