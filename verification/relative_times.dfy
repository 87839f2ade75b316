/**
 How long ago a history record was saved, as shown under its name: "Just
 now", whole hours, whole days, or (a week or more ago) the save date itself.
 */
module RelativeTimes {
  import opened Options
  import opened Clock

  /** The bucket a save time falls into; the last carries the save instant, shown as a locale date. */
  datatype Relative = JustNow | HoursAgo(hours: int) | DaysAgo(days: int) | SavedOn(savedAt: int)

  /**
   Bucketing of the millisecond difference between now and the save time:
   whole hours floored, whole days floored from the whole hours. A save time
   in the future counts as "Just now".
   */
  function RelativeTime(savedAt: int, now: int): (r: Relative)
    ensures r.JustNow? <==> now - savedAt < MsPerHour
    ensures r.HoursAgo? <==> MsPerHour <= now - savedAt < MsPerDay
    ensures r.DaysAgo? <==> MsPerDay <= now - savedAt < 7 * MsPerDay
    ensures r.SavedOn? <==> 7 * MsPerDay <= now - savedAt
    ensures r.HoursAgo? ==> 1 <= r.hours <= 23
                            && r.hours * MsPerHour <= now - savedAt < (r.hours + 1) * MsPerHour
    ensures r.DaysAgo? ==> 1 <= r.days <= 6
                           && r.days * MsPerDay <= now - savedAt < (r.days + 1) * MsPerDay
    ensures r.SavedOn? ==> r.savedAt == savedAt
  {
    var diffMs := now - savedAt;
    var diffHours := FloorDiv(diffMs, MsPerHour);
    var diffDays := FloorDiv(diffHours, 24);
    if diffHours < 1 then JustNow
    else if diffHours < 24 then HoursAgo(diffHours)
    else if diffDays < 7 then DaysAgo(diffDays)
    else SavedOn(savedAt)
  }

  function DigitChar(d: int): (c: char)
    requires 0 <= d <= 9
    ensures '0' <= c <= '9' && c as int - '0' as int == d
  {
    ('0' as int + d) as char
  }

  /** Decimal numeral of a natural number, as a template literal prints it. */
  function NumberText(n: nat): (s: string)
    ensures s != []
    ensures forall k :: 0 <= k < |s| ==> '0' <= s[k] <= '9'
    ensures |s| > 1 ==> s[0] != '0'
    decreases n
  {
    if n < 10 then [DigitChar(n)] else NumberText(n / 10) + [DigitChar(n % 10)]
  }

  /** The number a string of decimal digits denotes. */
  function DecimalValue(s: string): int
    requires forall k :: 0 <= k < |s| ==> '0' <= s[k] <= '9'
  {
    if s == [] then 0 else DecimalValue(s[..|s| - 1]) * 10 + (s[|s| - 1] as int - '0' as int)
  }

  /** Reading the numeral back gives the number. */
  lemma {:induction false} NumberTextRoundTrip(n: nat)
    ensures DecimalValue(NumberText(n)) == n
    decreases n
  {
    var s := NumberText(n);
    if n >= 10 {
      NumberTextRoundTrip(n / 10);
      assert s[..|s| - 1] == NumberText(n / 10);
    }
  }

  /** "hour" or "hours": the plural ending is added for counts above one. */
  function Unit(n: int, singular: string): (w: string)
    ensures w == singular || w == singular + "s"
    ensures w == singular <==> n <= 1
  {
    if n > 1 then singular + "s" else singular
  }

  /** The text shown for a bucket; the locale date of a week-old save is not modelled, hence `None`. */
  function RelativeText(r: Relative): (t: Option<string>)
    ensures t.None? <==> r.SavedOn?
    ensures r.JustNow? ==> t == Some("Just now")
  {
    match r
    case JustNow => Some("Just now")
    case HoursAgo(n) => Some(NumberText(if n < 0 then 0 else n) + " " + Unit(n, "hour") + " ago")
    case DaysAgo(n) => Some(NumberText(if n < 0 then 0 else n) + " " + Unit(n, "day") + " ago")
    case SavedOn(_) => None
  }

  /** Between one hour and one day ago, the text is the whole hours with "hour" singular only for exactly one. */
  lemma HoursText(savedAt: int, now: int)
    requires MsPerHour <= now - savedAt < MsPerDay
    ensures var n := (now - savedAt) / MsPerHour;
            RelativeText(RelativeTime(savedAt, now))
            == Some(NumberText(n) + (if n == 1 then " hour ago" else " hours ago"))
  {
    var n := (now - savedAt) / MsPerHour;
    assert RelativeTime(savedAt, now) == HoursAgo(n);
    var num := NumberText(n);
    if n == 1 {
      assert num + " " + "hour" + " ago" == num + " hour ago";
    } else {
      assert Unit(n, "hour") == "hours";
      assert num + " " + "hours" + " ago" == num + " hours ago";
    }
  }

  /** Between one day and one week ago, the text is the whole days with "day" singular only for exactly one. */
  lemma DaysText(savedAt: int, now: int)
    requires MsPerDay <= now - savedAt < 7 * MsPerDay
    ensures var n := (now - savedAt) / MsPerDay;
            RelativeText(RelativeTime(savedAt, now))
            == Some(NumberText(n) + (if n == 1 then " day ago" else " days ago"))
  {
    var n := (now - savedAt) / MsPerDay;
    assert RelativeTime(savedAt, now) == DaysAgo(n);
    var num := NumberText(n);
    if n == 1 {
      assert num + " " + "day" + " ago" == num + " day ago";
    } else {
      assert Unit(n, "day") == "days";
      assert num + " " + "days" + " ago" == num + " days ago";
    }
  }
}
