/**
 The page's session state and the form: the calculation currently on
 screen, the saved records, and what submitting the form does to them.
 */
module Page {
  import opened Options
  import opened Calendar
  import opened Clock
  import opened Ages
  import opened Birthdays
  import opened Validation

  /** The calculation on screen: the birth date as typed, its age breakdown and derived facts. */
  datatype Calculation = Calculation(birth: Date, age: Age, facts: Facts)

  /** A saved calculation; `savedAt` is the save instant in milliseconds since 1970-01-01. */
  datatype Record = Record(id: int, name: string, birth: Date, age: Age, facts: Facts, savedAt: int)

  /** The page's state: the history list (newest first) and the current calculation, if any. */
  datatype Session = Session(history: seq<Record>, current: Option<Calculation>)

  /**
   The age calculation for the typed fields: the birth `Date` is built with
   the constructor, while the typed triple is what gets stored.
   */
  function PerformAgeCalculation(day: int, month: int, year: int, now: Instant): (c: Calculation)
    requires ValidInstant(now)
    ensures c.birth == Date(year, month, day)
    ensures ValidDate(Date(year, month, day))
            ==> c.age == PreciseAge(Date(year, month, day), now.date)
                && c.facts == AdditionalInfo(Date(year, month, day), now)
  {
    MakeDateReadsBack(year, month, day);
    var birthDate := MakeDate(year, month - 1, day);
    Calculation(Date(year, month, day), PreciseAge(birthDate, now.date), AdditionalInfo(birthDate, now))
  }

  /** Submitting the form: the calculation replaces the current one only when every check passes. */
  function SubmitForm(s: Session, day: Option<int>, month: Option<int>, year: Option<int>, now: Instant): (t: Session)
    requires ValidInstant(now)
    ensures t.history == s.history
    ensures ValidateAllInputs(day, month, year, now).Rejected? ==> t == s
    ensures ValidateAllInputs(day, month, year, now).Accepted? ==>
              var b := Date(year.value, month.value, day.value);
              t.current == Some(Calculation(b, PreciseAge(b, now.date), AdditionalInfo(b, now)))
  {
    match ValidateAllInputs(day, month, year, now)
    case Accepted(d) => s.(current := Some(PerformAgeCalculation(d.day, d.month, d.year, now)))
    case Rejected(_) => s
  }
}
