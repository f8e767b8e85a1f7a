/**
 * java.time.LocalDateTime as the shop uses it: a date and a time of day,
 * compared chronologically, and `minusYears`, which keeps month and day and
 * moves 29 February to the 28th in a year that is not a leap year. The clock
 * (`LocalDateTime.now()`) is not modelled; callers pass `now` in.
 */
module Time {

  const NanosPerDay: int := 86_400_000_000_000

  /** A local date-time; the time of day is counted in nanoseconds. */
  datatype DateTime = DateTime(year: int, month: int, day: int, nanoOfDay: int)

  /** The proleptic Gregorian leap-year rule. */
  predicate IsLeap(year: int)
  {
    year % 4 == 0 && (year % 100 != 0 || year % 400 == 0)
  }

  function MonthLength(year: int, month: int): (n: int)
    requires 1 <= month <= 12
    ensures 28 <= n <= 31
    ensures n == 29 <==> month == 2 && IsLeap(year)
  {
    if month == 2 then (if IsLeap(year) then 29 else 28)
    else if month == 4 || month == 6 || month == 9 || month == 11 then 30
    else 31
  }

  /** A date-time that exists on the calendar. */
  predicate IsValid(d: DateTime)
  {
    && 1 <= d.month <= 12
    && 1 <= d.day <= MonthLength(d.year, d.month)
    && 0 <= d.nanoOfDay < NanosPerDay
  }

  /** The values a LocalDateTime can take. */
  type LocalDateTime = d: DateTime | IsValid(d) witness DateTime(1970, 1, 1, 0)

  /** `compareTo`: year, then month, then day, then time of day; -1, 0 or 1. */
  function Compare(a: DateTime, b: DateTime): (c: int)
    ensures -1 <= c <= 1
    ensures c == 0 <==> a == b
  {
    if a.year != b.year then (if a.year < b.year then -1 else 1)
    else if a.month != b.month then (if a.month < b.month then -1 else 1)
    else if a.day != b.day then (if a.day < b.day then -1 else 1)
    else if a.nanoOfDay != b.nanoOfDay then (if a.nanoOfDay < b.nanoOfDay then -1 else 1)
    else 0
  }

  predicate IsBefore(a: DateTime, b: DateTime)
  {
    Compare(a, b) < 0
  }

  predicate IsAfter(a: DateTime, b: DateTime)
  {
    Compare(a, b) > 0
  }

  /** The comparison is a strict total order, and isAfter is isBefore reversed. */
  lemma OrderFacts(a: DateTime, b: DateTime, c: DateTime)
    ensures IsAfter(a, b) <==> IsBefore(b, a)
    ensures !IsBefore(a, a)
    ensures IsBefore(a, b) || a == b || IsBefore(b, a)
    ensures IsBefore(a, b) && IsBefore(b, c) ==> IsBefore(a, c)
  {
  }

  /** `minusYears(n)`: n years earlier, the day clamped to the month's length. */
  function MinusYears(d: LocalDateTime, n: int): (r: LocalDateTime)
    ensures r.year == d.year - n && r.month == d.month && r.nanoOfDay == d.nanoOfDay
    ensures r.day == d.day || (d.month == 2 && d.day == 29 && !IsLeap(r.year) && r.day == 28)
  {
    var year := d.year - n;
    var length := MonthLength(year, d.month);
    DateTime(year, d.month, if d.day <= length then d.day else length, d.nanoOfDay)
  }

  /** Going back a positive number of years lands strictly earlier. */
  lemma MinusYearsIsEarlier(d: LocalDateTime, n: int)
    requires n > 0
    ensures IsBefore(MinusYears(d, n), d)
  {
  }

  /** checkBirthday: born strictly before the moment 18 years before now. */
  predicate IsAdult(birthday: LocalDateTime, now: LocalDateTime)
  {
    IsBefore(birthday, MinusYears(now, 18))
  }

  /** An accepted birthday lies in the past. */
  lemma AdultBornBeforeNow(birthday: LocalDateTime, now: LocalDateTime)
    requires IsAdult(birthday, now)
    ensures IsBefore(birthday, now)
  {
    MinusYearsIsEarlier(now, 18);
    OrderFacts(birthday, MinusYears(now, 18), now);
  }

  /**
   * Passing the age check is not kept as time goes on: a customer born at
   * noon on 28 February 2006 passes at 23:00 on 28 February 2024 and fails
   * at 01:00 on 29 February 2024, because 18 years before both moments is
   * 28 February 2006.
   */
  lemma AdulthoodCanLapse()
    ensures var born := DateTime(2006, 2, 28, 12 * 3_600_000_000_000);
      var earlier := DateTime(2024, 2, 28, 23 * 3_600_000_000_000);
      var later := DateTime(2024, 2, 29, 1 * 3_600_000_000_000);
      && IsValid(born) && IsValid(earlier) && IsValid(later) && IsBefore(earlier, later)
      && IsAdult(born, earlier) && !IsAdult(born, later)
  {
    assert IsLeap(2024) && !IsLeap(2006);
  }
}
