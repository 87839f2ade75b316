/**
 The checks run on the three form fields before an age is computed: each
 field's range, then whether the date exists and is not in the future.
 */
module Validation {
  import opened Options
  import opened Calendar
  import opened Clock

  /** Outcome of the whole-date check. */
  datatype DateCheck = DateOk | DoesNotExist | InFuture

  /** Each message slot the form can show. */
  datatype InputError = DayError | MonthError | YearError | FormError(check: DateCheck)

  datatype Verdict = Accepted(date: Date) | Rejected(errors: set<InputError>)

  /** `!value`: `NaN` and 0 are both falsy. */
  predicate Falsy(v: Option<int>) {
    v.None? || v.value == 0
  }

  /** A day field is accepted when it parses to a number from 1 to 31. */
  function ValidateDay(v: Option<int>): (ok: bool)
    ensures ok <==> v.Some? && 1 <= v.value <= 31
  {
    !(Falsy(v) || v.value < 1 || v.value > 31)
  }

  /** A month field is accepted when it parses to a number from 1 to 12. */
  function ValidateMonth(v: Option<int>): (ok: bool)
    ensures ok <==> v.Some? && 1 <= v.value <= 12
  {
    !(Falsy(v) || v.value < 1 || v.value > 12)
  }

  /** A year field is accepted when it parses to a number from 1900 to the current year. */
  function ValidateYear(v: Option<int>, currentYear: int): (ok: bool)
    ensures ok <==> v.Some? && 1900 <= v.value <= currentYear
  {
    !(Falsy(v) || v.value < 1900 || v.value > currentYear)
  }

  /**
   The whole-date check: build the date with the `Date` constructor and read
   its fields back (a non-existent day rolls into the next month and so reads
   back differently), then compare its midnight with the current instant.
   */
  function ValidateDateCombination(day: int, month: int, year: int, now: Instant): (r: DateCheck)
    requires ValidInstant(now)
    ensures r == DoesNotExist <==> !ValidDate(Date(year, month, day))
    ensures r == InFuture <==> ValidDate(Date(year, month, day)) && Before(now.date, Date(year, month, day))
    ensures r == DateOk <==> ValidDate(Date(year, month, day)) && !Before(now.date, Date(year, month, day))
  {
    MakeDateReadsBack(year, month, day);
    var testDate := MakeDate(year, month - 1, day);
    MidnightOrder(testDate, now);
    if testDate.day != day || testDate.month != month || testDate.year != year then DoesNotExist
    else if Midnight(testDate) > EpochMs(now) then InFuture
    else DateOk
  }

  /**
   All checks of a form submission. Every field is checked and reports its own
   error; the whole-date check runs only once all three fields pass.
   */
  function ValidateAllInputs(day: Option<int>, month: Option<int>, year: Option<int>, now: Instant): (v: Verdict)
    requires ValidInstant(now)
    ensures v.Accepted?
            <==> day.Some? && month.Some? && year.Some? && 1900 <= year.value
                 && ValidDate(Date(year.value, month.value, day.value))
                 && !Before(now.date, Date(year.value, month.value, day.value))
    ensures v.Accepted? ==> v.date == Date(year.value, month.value, day.value)
    ensures v.Rejected? ==> (DayError in v.errors <==> !ValidateDay(day))
    ensures v.Rejected? ==> (MonthError in v.errors <==> !ValidateMonth(month))
    ensures v.Rejected? ==> (YearError in v.errors <==> !ValidateYear(year, now.date.year))
    ensures v.Rejected? && ValidateDay(day) && ValidateMonth(month) && ValidateYear(year, now.date.year)
            ==> v.errors == {FormError(ValidateDateCombination(day.value, month.value, year.value, now))}
    ensures v.Rejected? && !(ValidateDay(day) && ValidateMonth(month) && ValidateYear(year, now.date.year))
            ==> v.errors <= {DayError, MonthError, YearError}
  {
    var fieldErrors :=
      (if ValidateDay(day) then {} else {DayError})
      + (if ValidateMonth(month) then {} else {MonthError})
      + (if ValidateYear(year, now.date.year) then {} else {YearError});
    if fieldErrors != {} then Rejected(fieldErrors)
    else
      var check := ValidateDateCombination(day.value, month.value, year.value, now);
      if check == DateOk then Accepted(Date(year.value, month.value, day.value))
      else Rejected({FormError(check)})
  }
}
