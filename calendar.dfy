/**
 * The one fixed calendar of the model: the proleptic Gregorian calendar with
 * no time zone and no daylight-saving shifts, so that every day has exactly
 * 86400 seconds. An instant (Foundation's `Date`) is a civil date plus the
 * second of that day; `Seconds` places it on one timeline.
 */
module CivilCalendar {

  const SecondsPerDay: int := 86400

  predicate IsLeapYear(year: int) {
    year % 4 == 0 && (year % 100 != 0 || year % 400 == 0)
  }

  function DaysInMonth(year: int, month: int): (n: int)
    requires 1 <= month <= 12
    ensures 28 <= n <= 31
  {
    if month == 2 then (if IsLeapYear(year) then 29 else 28)
    else if month == 4 || month == 6 || month == 9 || month == 11 then 30
    else 31
  }

  function DaysInYear(year: int): int {
    if IsLeapYear(year) then 366 else 365
  }

  /** Year, month and day components, not necessarily a real date. */
  datatype Ymd = Ymd(year: int, month: int, day: int)

  predicate IsValidDate(d: Ymd) {
    1 <= d.month <= 12 && 1 <= d.day <= DaysInMonth(d.year, d.month)
  }

  /** A date that exists in the calendar. */
  type CivilDate = d: Ymd | IsValidDate(d) witness Ymd(1970, 1, 1)

  type SecondOfDay = s: int | 0 <= s < 86400

  /** A point in time: a calendar day and the second within it. */
  datatype Instant = Instant(date: CivilDate, second: SecondOfDay)

  /** Number of multiples of 4, 100 and 400 (leap years) up to `n`, shifted by a constant for negative `n`. */
  function LeapYearsThrough(n: int): int {
    n / 4 - n / 100 + n / 400
  }

  /** Days from 1970-01-01 to January 1 of `year`. */
  function DaysBeforeYear(year: int): int {
    365 * (year - 1970) + LeapYearsThrough(year - 1) - LeapYearsThrough(1969)
  }

  /** Days from January 1 to the first of `month` in `year`. */
  function DaysBeforeMonth(year: int, month: int): int
    requires 1 <= month <= 12
  {
    var base :=
      if month == 1 then 0 else if month == 2 then 31 else if month == 3 then 59
      else if month == 4 then 90 else if month == 5 then 120 else if month == 6 then 151
      else if month == 7 then 181 else if month == 8 then 212 else if month == 9 then 243
      else if month == 10 then 273 else if month == 11 then 304 else 334;
    base + (if month > 2 && IsLeapYear(year) then 1 else 0)
  }

  /**
   * Day number of the components `d` counted from 1970-01-01. It is defined for
   * an out-of-range day too: then it counts on into the next month, which is how
   * a lenient calendar reads such components.
   */
  function DaysFromCivil(d: Ymd): int
    requires 1 <= d.month <= 12
  {
    DaysBeforeYear(d.year) + DaysBeforeMonth(d.year, d.month) + d.day - 1
  }

  /** Seconds from 1970-01-01T00:00:00 to `t`. */
  function Seconds(t: Instant): int {
    DaysFromCivil(t.date) * SecondsPerDay + t.second
  }

  /** Midnight at the start of `d`. */
  function StartOfDay(d: CivilDate): (t: Instant)
    ensures t.date == d && Seconds(t) == DaysFromCivil(d) * SecondsPerDay
  {
    Instant(d, 0)
  }

  /** Instants on earlier days come first; an instant not after another lies on the same day or an earlier one. */
  lemma SecondsByDay(a: Instant, b: Instant)
    ensures DaysFromCivil(a.date) < DaysFromCivil(b.date) ==> Seconds(a) < Seconds(b)
    ensures Seconds(a) <= Seconds(b) ==> DaysFromCivil(a.date) <= DaysFromCivil(b.date)
  {
  }

  /** `a` comes before `b` in the calendar: by year, then month, then day, then second. */
  predicate CalendarBefore(a: Instant, b: Instant) {
    a.date.year < b.date.year
    || (a.date.year == b.date.year && a.date.month < b.date.month)
    || (a.date.year == b.date.year && a.date.month == b.date.month && a.date.day < b.date.day)
    || (a.date == b.date && a.second < b.second)
  }

  lemma DivStep(y: int)
    ensures y / 4 - (y - 1) / 4 == (if y % 4 == 0 then 1 else 0)
    ensures y / 100 - (y - 1) / 100 == (if y % 100 == 0 then 1 else 0)
    ensures y / 400 - (y - 1) / 400 == (if y % 400 == 0 then 1 else 0)
  {
  }

  /** A multiple of 400 is a multiple of 100, and a multiple of 100 a multiple of 4. */
  lemma DivisorsNest(year: int)
    ensures year % 400 == 0 ==> year % 100 == 0
    ensures year % 100 == 0 ==> year % 4 == 0
  {
    if year % 400 == 0 {
      assert year % 100 == 100 * (4 * (year / 400) - year / 100);
    }
    if year % 100 == 0 {
      assert year % 4 == 4 * (25 * (year / 100) - year / 4);
    }
  }

  /** Consecutive years start 365 or 366 days apart, as the leap rule says. */
  lemma YearLength(year: int)
    ensures DaysBeforeYear(year + 1) - DaysBeforeYear(year) == DaysInYear(year)
  {
    assert DaysBeforeYear(year + 1) - DaysBeforeYear(year) == 365 + LeapYearsThrough(year) - LeapYearsThrough(year - 1);
    DivStep(year);
    DivisorsNest(year);
  }

  /** A later year starts at least 365 days per year later. */
  lemma {:induction false} DaysBeforeYearMonotone(a: int, b: int)
    requires a <= b
    ensures DaysBeforeYear(a) + 365 * (b - a) <= DaysBeforeYear(b)
    decreases b - a
  {
    if a < b {
      DaysBeforeYearMonotone(a, b - 1);
      YearLength(b - 1);
    }
  }

  /** The months of a year follow each other without gaps and fill the year. */
  lemma MonthLayout(year: int, month: int)
    requires 1 <= month <= 12
    ensures month < 12 ==> DaysBeforeMonth(year, month + 1) == DaysBeforeMonth(year, month) + DaysInMonth(year, month)
    ensures month == 12 ==> DaysBeforeMonth(year, month) + DaysInMonth(year, month) == DaysInYear(year)
  {
  }

  /** A real date lies within its own year. */
  lemma DayWithinYear(d: CivilDate)
    ensures DaysBeforeYear(d.year) <= DaysFromCivil(d) < DaysBeforeYear(d.year + 1)
  {
    YearLength(d.year);
  }

  /** The same month and day one year later are 365 days ahead, or 366 when a February 29 lies between. */
  lemma SameDayNextYear(year: int, month: int, day: int)
    requires 1 <= month <= 12
    ensures DaysFromCivil(Ymd(year + 1, month, day)) - DaysFromCivil(Ymd(year, month, day))
            == 365 + (if (month <= 2 && IsLeapYear(year)) || (month > 2 && IsLeapYear(year + 1)) then 1 else 0)
  {
    YearLength(year);
  }

  /** An earlier month of the same year starts before every day of a later one. */
  lemma {:induction false} MonthsInOrder(year: int, m1: int, m2: int, day: int)
    requires 1 <= m1 < m2 <= 12 && 1 <= day <= DaysInMonth(year, m1)
    ensures DaysBeforeMonth(year, m1) + day - 1 < DaysBeforeMonth(year, m2)
    decreases m2 - m1
  {
    MonthLayout(year, m1);
    if m1 + 1 < m2 {
      MonthLayout(year, m1 + 1);
      MonthsInOrder(year, m1 + 1, m2, 1);
    }
  }

  /** Days are numbered in calendar order. */
  lemma DaysInCalendarOrder(a: CivilDate, b: CivilDate)
    requires a.year < b.year || (a.year == b.year && a.month < b.month) || (a.year == b.year && a.month == b.month && a.day < b.day)
    ensures DaysFromCivil(a) < DaysFromCivil(b)
  {
    if a.year < b.year {
      DayWithinYear(a);
      DayWithinYear(b);
      DaysBeforeYearMonotone(a.year + 1, b.year);
    } else if a.month < b.month {
      MonthsInOrder(a.year, a.month, b.month, a.day);
    }
  }

  /** Comparing instants on the timeline is comparing them in the calendar. */
  lemma SecondsFollowCalendar(a: Instant, b: Instant)
    ensures Seconds(a) < Seconds(b) <==> CalendarBefore(a, b)
  {
    if CalendarBefore(a, b) {
      if a.date != b.date {
        DaysInCalendarOrder(a.date, b.date);
      }
    } else if CalendarBefore(b, a) {
      if a.date != b.date {
        DaysInCalendarOrder(b.date, a.date);
      }
    } else {
      assert a == b;
    }
  }
}
