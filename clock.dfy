/** Calendar dates and wall-clock timestamps as the check-in service uses them:
    java.time.LocalDate and java.time.LocalDateTime, to the second. */
module Clock {

  /** A LocalDate. */
  datatype Date = Date(year: int, month: nat, day: nat)

  /** A LocalDateTime, without sub-second precision. */
  datatype DateTime = DateTime(year: int, month: nat, day: nat, hour: nat, minute: nat, second: nat)
  {
    /** LocalDateTime.toLocalDate(): the calendar date of this timestamp. */
    function ToLocalDate(): Date
    {
      Date(year, month, day)
    }
  }

  /** The time-of-day fields lie on a 24-hour clock, as every LocalDateTime's do. */
  predicate IsClockTime(t: DateTime)
  {
    t.hour < 24 && t.minute < 60 && t.second < 60
  }

  /** LocalDateTime.of(date, LocalTime.of(hour, minute, second)). */
  function At(d: Date, hour: nat, minute: nat, second: nat): DateTime
  {
    DateTime(d.year, d.month, d.day, hour, minute, second)
  }

  /** Midnight at the start of `d` (the lower bound of the day query). */
  function StartOfDay(d: Date): DateTime
  {
    At(d, 0, 0, 0)
  }

  /** 23:59:59 on `d` (the upper bound of the day query). */
  function EndOfDay(d: Date): DateTime
  {
    At(d, 23, 59, 59)
  }

  /** Chronological order of timestamps: `a` is not after `b`.
      LocalDateTime compares field by field, most significant first. */
  predicate NotAfter(a: DateTime, b: DateTime)
  {
    if a.year != b.year then a.year < b.year
    else if a.month != b.month then a.month < b.month
    else if a.day != b.day then a.day < b.day
    else if a.hour != b.hour then a.hour < b.hour
    else if a.minute != b.minute then a.minute < b.minute
    else a.second <= b.second
  }

  /** A repository `Between` condition: inclusive at both ends. */
  predicate Between(t: DateTime, lo: DateTime, hi: DateTime)
  {
    NotAfter(lo, t) && NotAfter(t, hi)
  }

  /** NotAfter is a total order on timestamps. */
  lemma NotAfterIsTotalOrder(a: DateTime, b: DateTime, c: DateTime)
    ensures NotAfter(a, a)
    ensures NotAfter(a, b) && NotAfter(b, a) ==> a == b
    ensures NotAfter(a, b) && NotAfter(b, c) ==> NotAfter(a, c)
    ensures NotAfter(a, b) || NotAfter(b, a)
  {
  }

  /** For any real clock reading, the range [d 00:00:00, d 23:59:59] is
      exactly the calendar day `d`. */
  lemma DayRangeIsCalendarDay(t: DateTime, d: Date)
    requires IsClockTime(t)
    ensures Between(t, StartOfDay(d), EndOfDay(d)) <==> t.ToLocalDate() == d
  {
  }
}
