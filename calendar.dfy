/**
 * The part of .NET's System.DateTime the lifecycle code relies on: the
 * range 0001-01-01 .. 9999-12-31, comparison, and the Gregorian-calendar
 * arithmetic of AddDays, AddMonths and AddYears. A result outside the range
 * is `None`, where .NET throws ArgumentOutOfRangeException.
 *
 * A time of day is kept as the tick within its day (100 ns units), so two
 * values compare exactly as their .NET tick counts do.
 */
module Calendar {
  import opened Errors

  const TicksPerDay: int := 864_000_000_000
  const MinYear: int := 1
  const MaxYear: int := 9999

  predicate IsLeapYear(year: int) {
    year % 4 == 0 && (year % 100 != 0 || year % 400 == 0)
  }

  function DaysInMonth(year: int, month: int): (n: int)
    ensures 28 <= n <= 31
  {
    if month == 2 then (if IsLeapYear(year) then 29 else 28)
    else if month == 4 || month == 6 || month == 9 || month == 11 then 30
    else 31
  }

  datatype DateTimeParts = DateTimeParts(year: int, month: int, day: int, tick: int)

  predicate InRange(d: DateTimeParts) {
    && MinYear <= d.year <= MaxYear
    && 1 <= d.month <= 12
    && 1 <= d.day <= DaysInMonth(d.year, d.month)
    && 0 <= d.tick < TicksPerDay
  }

  /** A representable .NET DateTime. */
  type DateTime = d: DateTimeParts | InRange(d) witness DateTimeParts(1, 1, 1, 0)

  /** Months since 0001-01, the quantity AddMonths advances. */
  function MonthIndex(d: DateTimeParts): int {
    d.year * 12 + d.month - 1
  }

  /** A number that orders DateTime values as their tick counts do (not the tick count itself). */
  function Rank(d: DateTimeParts): int {
    (MonthIndex(d) * 31 + d.day - 1) * TicksPerDay + d.tick
  }

  /** `a < b` on DateTime. */
  predicate Before(a: DateTime, b: DateTime) {
    Rank(a) < Rank(b)
  }

  function Min(a: int, b: int): int {
    if a <= b then a else b
  }

  /** The same time of day on the following calendar day. */
  function NextDay(d: DateTime): (r: Option<DateTime>)
    ensures r.Some? ==> Before(d, r.value) && r.value.tick == d.tick
  {
    if d.day < DaysInMonth(d.year, d.month) then Some(d.(day := d.day + 1))
    else if d.month < 12 then Some(DateTimeParts(d.year, d.month + 1, 1, d.tick))
    else if d.year < MaxYear then Some(DateTimeParts(d.year + 1, 1, 1, d.tick))
    else None
  }

  /** The same time of day on the preceding calendar day. */
  function PrevDay(d: DateTime): (r: Option<DateTime>)
    ensures r.Some? ==> Before(r.value, d) && r.value.tick == d.tick
  {
    if d.day > 1 then Some(d.(day := d.day - 1))
    else if d.month > 1 then Some(DateTimeParts(d.year, d.month - 1, DaysInMonth(d.year, d.month - 1), d.tick))
    else if d.year > MinYear then Some(DateTimeParts(d.year - 1, 12, 31, d.tick))
    else None
  }

  /** DateTime.AddDays with a whole number of days. */
  function AddDays(d: DateTime, days: int): Option<DateTime>
    decreases if days < 0 then -days else days
  {
    if days == 0 then Some(d)
    else if days > 0 then
      match NextDay(d)
      case None => None
      case Some(e) => AddDays(e, days - 1)
    else
      match PrevDay(d)
      case None => None
      case Some(e) => AddDays(e, days + 1)
  }

  /**
   * DateTime.AddMonths: move the month by `months`, keep the time of day, and
   * clamp the day to the length of the target month.
   */
  function AddMonths(d: DateTime, months: int): (r: Option<DateTime>)
    ensures r.Some? <==> (-120000 <= months <= 120000 && MinYear * 12 <= MonthIndex(d) + months < (MaxYear + 1) * 12)
    ensures r.Some? ==> MonthIndex(r.value) == MonthIndex(d) + months
    ensures r.Some? ==> r.value.day == Min(d.day, DaysInMonth(r.value.year, r.value.month))
    ensures r.Some? ==> r.value.tick == d.tick
  {
    if months < -120000 || months > 120000 then None
    else
      var total := MonthIndex(d) + months;
      var year := total / 12;
      var month := total % 12 + 1;
      if year < MinYear || year > MaxYear then None
      else Some(DateTimeParts(year, month, Min(d.day, DaysInMonth(year, month)), d.tick))
  }

  /**
   * DateTime.AddYears: move the year by `years`; 29 February becomes
   * 28 February in a year that is not a leap year.
   */
  function AddYears(d: DateTime, years: int): (r: Option<DateTime>)
    ensures r.Some? <==> (-10000 <= years <= 10000 && MinYear <= d.year + years <= MaxYear)
    ensures r.Some? ==> r.value.year == d.year + years && r.value.month == d.month && r.value.tick == d.tick
    ensures r.Some? ==> r.value.day == Min(d.day, DaysInMonth(r.value.year, d.month))
  {
    if years < -10000 || years > 10000 then None
    else
      var year := d.year + years;
      if year < MinYear || year > MaxYear then None
      else Some(DateTimeParts(year, d.month, Min(d.day, DaysInMonth(year, d.month)), d.tick))
  }

  /** Going back a positive number of days lands strictly earlier (the renewal-reminder rule relies on it). */
  lemma {:induction false} AddDaysBackwardIsEarlier(d: DateTime, days: int)
    requires days < 0 && AddDays(d, days).Some?
    ensures Before(AddDays(d, days).value, d)
    decreases -days
  {
    var e := PrevDay(d).value;
    if days < -1 {
      AddDaysBackwardIsEarlier(e, days + 1);
    }
  }

  /**
   * Going back up to 31 days from a date in year 2 or later, or from late
   * enough in December of year 1, stays in range.
   */
  lemma {:induction false} AddDaysBackInRange(d: DateTime, n: int)
    requires 0 <= n <= 31 && (d.year >= 2 || (d.month == 12 && d.day > n))
    ensures AddDays(d, -n).Some?
    decreases n
  {
    if n > 0 {
      var e := PrevDay(d).value;
      AddDaysBackInRange(e, n - 1);
    }
  }

  /** Adding one or more calendar months lands strictly later, whatever the clamping of the day. */
  lemma AddMonthsIsLater(d: DateTime, months: int)
    requires months >= 1 && AddMonths(d, months).Some?
    ensures Before(d, AddMonths(d, months).value)
  {
    var e := AddMonths(d, months).value;
    assert MonthIndex(e) - MonthIndex(d) >= 1;
    assert Rank(e) - Rank(d) == ((MonthIndex(e) - MonthIndex(d)) * 31 + e.day - d.day) * TicksPerDay;
  }

  /** Adding one or more years lands strictly later, 29 February included. */
  lemma AddYearsIsLater(d: DateTime, years: int)
    requires years >= 1 && AddYears(d, years).Some?
    ensures Before(d, AddYears(d, years).value)
  {
    var e := AddYears(d, years).value;
    assert MonthIndex(e) - MonthIndex(d) == 12 * years;
    assert Rank(e) - Rank(d) == (12 * years * 31 + e.day - d.day) * TicksPerDay;
  }

  /** Calendar-month arithmetic, not a fixed number of days: 2025-01-01 plus twelve months is 2026-01-01. */
  lemma TwelveMonthsFromNewYear()
    ensures AddMonths(DateTimeParts(2025, 1, 1, 0), 12) == Some(DateTimeParts(2026, 1, 1, 0))
  {
  }

  /** The day is clamped to the end of a shorter month: 2024-01-31 plus one month is 2024-02-29. */
  lemma MonthEndIsClamped()
    ensures AddMonths(DateTimeParts(2024, 1, 31, 0), 1) == Some(DateTimeParts(2024, 2, 29, 0))
    ensures AddMonths(DateTimeParts(2025, 1, 31, 0), 1) == Some(DateTimeParts(2025, 2, 28, 0))
  {
  }
}
