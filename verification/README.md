# Age calculator — a Dafny model of its calendar and history logic

The age calculator is a single web page. A user types a birth date as a day,
a month and a year. The page checks the fields and shows the age in years,
months and days, the total days lived, and the days until the next birthday.
Calculations can be saved under a name into a newest-first history list, then
re-used, deleted one by one or cleared.

This project models the logic of `script.js` as pure Dafny functions and
proves properties about them:

- `calendar.dfy` (`Calendar`): the proleptic Gregorian calendar, day numbers
  counted from 1970-01-01, and the `new Date(year, monthIndex, day)`
  constructor. The constructor rolls a month index outside 0..11 into the year
  and a day outside the month into the neighbouring months. It is proved to
  agree with the day-number arithmetic of the ECMAScript `MakeDay` operation.
- `clock.dfy` (`Clock`): the current instant `new Date()` as a date plus
  milliseconds since midnight, `getTime()`, and `Math.floor` / `Math.ceil` of
  integer quotients.
- `validation.dfy` (`Validation`): the three field checks and the whole-date
  check, run before a submitted form is calculated; re-using a saved record
  recalculates without them.
- `ages.dfy` (`Ages`): the borrow-from-the-previous-unit age breakdown.
- `birthdays.dfy` (`Birthdays`): total days lived, the next birthday, and the
  "Today!" text.
- `page.dfy` (`Page`): the session (history list plus the calculation on
  screen) and what a form submission does to it.
- `history.dfy` (`History`): `trim`, save, find, delete, clear and use.
- `relative_times.dfy` (`RelativeTimes`): the "Just now / N hours ago / N days ago"
  text shown under each saved record.
- `options.dfy` (`Options`): an optional value.

Things the page takes from the browser are parameters here:

- the parsed field values, as `Option<int>`, with `None` for `NaN`;
- the current instant;
- the prompt's answer, as `Option<string>`, with `None` for a cancelled prompt;
- the confirmation answers;
- the record id and the save time.

Some behaviours of the page worth knowing:

- The page produces day counts from -2 to 30.
- The page observes a February 29th birthday on March 1st in common years, because the `Date` constructor rolls the day over.
- Deleting removes every record with the id and reports nothing.
- The next birthday is compared with the current instant, time of day included, not with a calendar date.

## Model

| member | source | states |
|---|---|---|
| Calendar.Normalize | script.js:168 | a day outside the month rolls into neighbouring months; the result is a real date whose day number is the month's first day number plus `day - 1` |
| Calendar.MakeDate | script.js:168 | `new Date(y, monthIndex, d)` always gives a real date; its day number is the first day of the floored month index plus `d - 1` |
| Calendar.MakeDateInMonth | script.js:168 | a date built at a month index naming a given year and month lies `d - 1` days after that month's first day |
| Calendar.MakeDateInSameMonth | script.js:214-221 | building a date in an existing date's own month at its own day gives that date back |
| Calendar.MakeDateFromPreviousMonth | script.js:214-221 | building a date in the month before an existing date, at its day plus that earlier month's length, gives the date back: the borrowed month is undone by rolling forward |
| Calendar.MakeDateReadsBack | script.js:167-178 | building a date and reading back year, month and day gives the triple exactly when `1 <= month <= 12` and `1 <= day <= DaysInMonth(year, month)` |
| Calendar.LastDayOfPreviousMonth | script.js:216-220 | `new Date(y, m, 0)` is the last day of the previous month; January gives December 31st of the year before |
| Calendar.DayOverflowRollsForward | script.js:240-244 | a day beyond the month's end, within the next month's length, lands on that day of the next month |
| Calendar.LeapYearRule | script.js:168 | `IsLeapYear` (the Gregorian rule the `Date` object follows: divisible by 4, except centuries not divisible by 400) repeats every 400 years, and excludes 1900 and 2023 while including 2000 and 2024 |
| Calendar.PrevMonth | script.js:216-220 | the month before a given one: its month index is one less, so January steps back to December of the previous year, as day 0 of `new Date(y, m, 0)` does |
| Calendar.DaysInMonth | script.js:168 | month lengths are 28 to 31 days; February has 29 days exactly in leap years (divisible by 4, except centuries not divisible by 400) |
| Calendar.YearStartStep | script.js:235 | consecutive years' first days are one year length apart (366 days in leap years, 365 otherwise) |
| Calendar.FirstDayStep | script.js:168 | the next month starts one month length after this month starts, across the year end too |
| Calendar.FirstDayMonotone | script.js:182 | later months start at least one month length later |
| Calendar.DayNumberOrder | script.js:182 | on real dates, day numbers order dates chronologically and equal day numbers mean equal dates |
| Calendar.UnixEpochIsDayZero | script.js:235 | day numbers count from 1970-01-01, the `getTime()` epoch |
| Clock.FloorDiv | script.js:236 | `Math.floor(x / k)` is the unique `q` with `k*q <= x < k*q + k` |
| Clock.CeilDiv | script.js:254-256 | `Math.ceil(x / k)` is the unique `q` with `k*q - k < x <= k*q` |
| Clock.WholeDaysIgnoreTimeOfDay | script.js:235-236 | floored days from a midnight to an instant, and ceiled days from an instant to a midnight, equal the day-number difference whatever the time of day |
| Clock.EpochMs | script.js:235 | `getTime()` of a valid instant lies within its day: at least that day's midnight (`Midnight`, the `getTime()` of a date built with the constructor, as for `birthDate` and `nextBirthday`) and less than the next midnight |
| Clock.EpochMsOrder | script.js:235 | `getTime()` orders instants as the calendar does, by date and then by time of day, and is equal only for the same instant |
| Clock.MidnightOrder | script.js:182 | a date's midnight is before an instant iff the date is an earlier day, or the same day after midnight; they are equal only at that exact midnight |
| Validation.ValidateDay | script.js:122-132 | the day field passes iff it parses to a number from 1 to 31 (`NaN` and 0 fail) |
| Validation.ValidateMonth | script.js:134-144 | the month field passes iff it parses to a number from 1 to 12 |
| Validation.ValidateYear | script.js:146-160 | the year field passes iff it parses to a number from 1900 to the current year |
| Validation.ValidateDateCombination | script.js:162-191 | "does not exist" iff the triple is not a real Gregorian date; "in the future" iff it is real and after today; accepted otherwise |
| Validation.ValidateAllInputs | script.js:108-120 | accepted iff all three fields parse, the year is at least 1900, the date is real and not after today; when rejected, each field reports its own error, and the whole-date error appears only when all fields pass |
| Ages.BorrowedMonthLength | script.js:216-221 | the borrowed length is a month length, 28 to 31 days |
| Ages.PreciseAge | script.js:208-231 | months are in 0..11; `12*years + months` is the month distance less one when a borrow happens; with no borrow, days is the day difference, otherwise the day difference plus the previous month's length; days is in -2..30 and negative iff the birth day exceeds the reference day by more than the borrowed length |
| Ages.YearsNonNegativeIffNotBefore | script.js:208-231 | years come out non-negative iff the reference date is not before the birth date |
| Ages.BorrowEquationsReconstruct | script.js:209-228 | any breakdown satisfying the borrow equations, added back onto the birth date with the `Date` constructor, gives the reference date |
| Ages.PreciseAgeReconstructs | script.js:208-231 | adding the page's breakdown back onto the birth date with the `Date` constructor gives exactly the reference date, negative day counts included |
| Ages.PreciseAgeZeroIffSameDate | script.js:208-231 | the breakdown is (0, 0, 0) iff birth and reference are the same date |
| Ages.WorkedExamples | script.js:208-231 | 2000-02-29 to 2024-03-01 gives (24, 0, 1); 1990-06-15 to 2024-06-15 gives (34, 0, 0) |
| Ages.NegativeDaysExample | script.js:213-222 | 2023-01-31 to 2023-03-01 gives 1 month and -2 days |
| Ages.AddMonthsClamped | script.js:213-222 | adding months moves the month index by that amount and clamps the day to the new month's length |
| Ages.ClampedAge | script.js:213-222 | corrected breakdown: months in 0..11, days in 0..30, same month distance, years non-negative iff the reference is not before the birth date |
| Ages.ClampedAgeReconstructs | script.js:213-222 | adding the corrected months to the birth date (day clamped) and then its days reaches the reference date's day number |
| Ages.ClampedAgeAgreesIffBirthDayFits | script.js:213-222 | the corrected breakdown equals the page's iff no borrow happens or the birth day fits in the borrowed month |
| Birthdays.BirthdayIn | script.js:240-244 | the candidate birthday is a real date, `birth.day - 1` days after the first of the birth month in the given year |
| Birthdays.BirthdayInKeepsExistingDates | script.js:240-244 | a birthday that exists in the year is kept unchanged |
| Birthdays.LeapDayBirthdayFallsOnMarchFirst | script.js:240-244 | a February 29th birthday falls on March 1st in a common year |
| Birthdays.NextYearBirthdayIsLater | script.js:246-252 | the birthday in the following year is after any day of the current year |
| Birthdays.AdditionalInfo | script.js:233-263 | total days lived is the day-number difference; the next birthday is this year's or next year's, never earlier than now; days until it is the day-number difference from today and is non-negative |
| Birthdays.NextBirthdayChoice | script.js:239-252 | this year's birthday is chosen iff it is after today, or is today and the time is exactly midnight |
| Birthdays.TotalDaysLivedNonNegative | script.js:235-236 | total days lived is non-negative iff the birth date is not after today |
| Birthdays.NextBirthdayText | script.js:289-296 | "Today!" iff the days until the birthday are 0; otherwise the count and the date |
| Birthdays.TodayShownIffMidnightOfBirthday | script.js:239-256 | "Today!" is shown iff now is exactly the midnight that starts this year's birthday |
| Birthdays.LaterOnBirthdayRollsOver | script.js:246-252 | on the birthday after midnight, the next birthday is next year's and the days until it are positive |
| Birthdays.TodayMissedExample | script.js:246-256 | born 1990-06-15: at 10:00 on 2024-06-15 the page reports 365 days instead of "Today!" |
| Birthdays.AdditionalInfoByDay | script.js:239-256 | corrected next birthday, decided by calendar day: this year's iff it is not before today; days until it are the day-number difference from today to it, never negative, and 0 iff today is the birthday |
| Birthdays.TodayShownByDayExample | script.js:289-291 | decided by day, 10:00 on the birthday shows "Today!" |
| Page.PerformAgeCalculation | script.js:194-206 | the stored birth date is the typed triple; for a real date, age and facts are those of that date against now |
| Page.SubmitForm | script.js:99-105 | a rejected form changes nothing; an accepted one replaces the current calculation with that date's age and facts; history untouched |
| History.LeadingSpace | script.js:367 | counts the white space `s` starts with: every counted character is white space and the first uncounted one is not |
| History.TrailingSpace | script.js:367 | counts the white space `s` ends with: every counted character is white space and the last uncounted one is not |
| History.Trim | script.js:367 | over `IsSpace`, exactly the ECMAScript WhiteSpace and LineTerminator characters (tab, line feed, vertical tab, form feed, carriage return, space, no-break space, the Unicode space separators, line and paragraph separators, byte order mark): the result is the slice of the input after its leading white space, everything after the slice is white space, and the result has no white space at either end; it is empty iff the input is all white space |
| History.TrimSlice | script.js:367 | trailing white space counted on the rest after the leading white space is trailing white space of the whole input, and the two counts meet exactly when the input is all white space |
| History.TrimIdempotent | script.js:367-368 | trimming twice is trimming once |
| History.SaveToHistory | script.js:372-391 | without a current calculation nothing changes; otherwise exactly one record, built from the current calculation, goes to index 0, every old record moves up one place unchanged, and the current calculation is cleared |
| History.ShowSaveModal | script.js:363-370 | the list grows by one iff there is a current calculation and the prompt's answer trims to a non-empty name; the result is then exactly `SaveToHistory` with the trimmed name, so the new record carries the current calculation's birth date, age and facts and the current calculation is cleared; the rest of the list is kept; otherwise nothing changes |
| History.SaveKeepsIdsDistinct | script.js:375-384 | saving with an id not in the list keeps ids distinct |
| History.Find | script.js:460-461 | finds a record iff some record has the id; the one found is the first with it |
| History.RemoveId | script.js:479 | keeps exactly the records whose id differs; an absent id leaves the list unchanged |
| History.RemoveIdDistributes | script.js:479 | filtering distributes over concatenation, so kept records stay in their original order |
| History.RemoveIdRemovesOne | script.js:479 | with distinct ids, filtering out an id that is present shortens the list by exactly one |
| History.RemoveIdKeepsIdsDistinct | script.js:479 | filtering keeps ids distinct |
| History.DeleteHistoryItem | script.js:477-484 | without confirmation nothing changes; with it the list is filtered by id; an unknown id changes nothing |
| History.ClearAllHistory | script.js:486-498 | an empty list, or no confirmation, changes nothing; with confirmation the list becomes empty |
| History.UseHistoryItem | script.js:459-469 | an unknown id changes nothing; otherwise the first record with the id becomes the current calculation's birth date; the list is untouched |
| RelativeTimes.RelativeTime | script.js:529-542 | under an hour (future saves included) is "just now"; 1 to 23 whole hours is hours; 1 to 6 whole days is days; from 7 days on it is the absolute date; the counts are the floored hours and days |
| RelativeTimes.NumberText | script.js:538 | a non-empty string of decimal digits with no leading zero |
| RelativeTimes.NumberTextRoundTrip | script.js:538 | reading the numeral back gives the number |
| RelativeTimes.Unit | script.js:538 | the unit word takes the plural "s" iff the count is above one |
| RelativeTimes.RelativeText | script.js:536-541 | "Just now" for the first bucket; no text for the absolute-date bucket |
| RelativeTimes.HoursText | script.js:537-538 | from one hour up to one day, the text is the floored hours, with "hour" singular only for exactly one |
| RelativeTimes.DaysText | script.js:539 | from one day up to one week, the text is the floored days, with "day" singular only for exactly one |

## Findings

| source | as written | input that shows it | evidently intended | confidence | as-written member | corrected member |
|---|---|---|---|---|---|---|
| script.js:246-256 | this year's birthday counts only if its midnight is not earlier than the current instant, time of day included | born 1990-06-15, now 2024-06-15 at 10:00: 365 days, no "Today!" | "Today!" for the whole birthday, deciding by calendar day | high; not executed | Birthdays.TodayMissedExample | Birthdays.AdditionalInfoByDay |
| script.js:213-222 | the borrowed month's length is added even when the birth day exceeds it | born 2023-01-31, reference 2023-03-01: 1 month and -2 days | a day count in 0..30, clamping the birth day to the borrowed month | high; not executed | Ages.NegativeDaysExample | Ages.ClampedAge |

The session model (`Page.PerformAgeCalculation`) stores what the page
computes, so it uses `Ages.PreciseAge` and `Birthdays.AdditionalInfo` as
written. The corrected members stand beside them with their own proofs.

## Left out

- DOM lookups, event listeners, `showError` / `clearError` / form-error slots, result reveal timing, `showTemporaryMessage`, the ripple effect, feather icons and key handlers: presentation only. The error slots are the `InputError` tags.
- `animateNumber`: floating-point easing driven by animation frames.
- `loadHistoryDisplay` / `createHistoryElement`: rendering of the list. Only the relative-time text it shows is modelled.
- `localStorage` persistence and `JSON.parse` / `JSON.stringify`: browser I/O. The history is an in-memory sequence.
- `prompt`, `confirm`, `Date.now()` ids and `new Date()`: these are parameters.
- Time zones and daylight-saving shifts: every day is 86 400 000 ms.
- The ISO-8601 text of `toISOString`: save times are milliseconds. The `calculatedDate` field of the current calculation is never read and is not modelled.
- `formatDate`, `toLocaleString`, `toLocaleDateString`: locale formatting.
- `toggleTheme` / `setTheme`: a two-value flip of a DOM attribute and a storage key.
- `parseInt` text parsing: fields arrive already parsed, as `Option<int>`.
- `clearInputFields`: modelled only through its effect on the current calculation. Emptying the form is presentation.
- The `Date` constructor's mapping of years 0..99 to 1900..1999: every year reaching it is at least 1900: a validated year, a saved record's (validated) year, or the current year or the next.
- RelativeTimes.RelativeText: gives no text for the week-or-older bucket, because that text is a locale-formatted date.
- RelativeTimes.RelativeText: prints 0 for a negative count. This never happens, because the hours and days buckets only hold counts of 1 or more.
