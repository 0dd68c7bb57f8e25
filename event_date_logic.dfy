/**
 * EventDateLogic: the day count between two instants and the next yearly
 * occurrence of an anniversary.
 */
module EventDateLogic {
  import opened CivilCalendar

  /** Seconds from `from` to `to`; negative when `to` is earlier. */
  function Elapsed(from: Instant, to: Instant): int {
    Seconds(to) - Seconds(from)
  }

  /**
   * `daysBetween(from:to:)`: the number of whole days elapsed from `from` to
   * `to`, truncated toward zero, so signed like the elapsed time.
   */
  function DaysBetween(from: Instant, to: Instant): (days: int)
    ensures Elapsed(from, to) >= 0 ==>
      days >= 0 && days * SecondsPerDay <= Elapsed(from, to) < (days + 1) * SecondsPerDay
    ensures Elapsed(from, to) < 0 ==>
      days <= 0 && -days * SecondsPerDay <= -Elapsed(from, to) < (-days + 1) * SecondsPerDay
  {
    var e := Elapsed(from, to);
    if e >= 0 then e / SecondsPerDay else -((-e) / SecondsPerDay)
  }

  lemma DaysBetweenSelf(d: Instant)
    ensures DaysBetween(d, d) == 0
  {
  }

  lemma DaysBetweenAntisymmetric(a: Instant, b: Instant)
    ensures DaysBetween(a, b) == -DaysBetween(b, a)
  {
  }

  /** The count is positive exactly when a whole day has passed, and negative exactly when a whole day is still to come. */
  lemma DaysBetweenSign(a: Instant, b: Instant)
    ensures DaysBetween(a, b) > 0 <==> Seconds(b) >= Seconds(a) + SecondsPerDay
    ensures DaysBetween(a, b) < 0 <==> Seconds(b) <= Seconds(a) - SecondsPerDay
    ensures DaysBetween(a, b) == 0 <==> Seconds(a) - SecondsPerDay < Seconds(b) < Seconds(a) + SecondsPerDay
  {
  }

  predicate IsLeapDay(d: Ymd) {
    d.month == 2 && d.day == 29
  }

  /**
   * The anniversary of `origin` in `year`: the same month and day. February 29
   * falls on March 1 in a year without one. That is also what the calendar's
   * lenient construction makes of the components (year, 2, 29) in such a year.
   */
  function Occurrence(origin: CivilDate, year: int): (d: CivilDate)
    ensures d.year == year
    ensures !IsLeapDay(origin) ==> d.month == origin.month && d.day == origin.day
    ensures IsLeapDay(origin) && IsLeapYear(year) ==> d.month == 2 && d.day == 29
    ensures IsLeapDay(origin) && !IsLeapYear(year) ==> d.month == 3 && d.day == 1
    ensures DaysFromCivil(d) == DaysFromCivil(Ymd(year, origin.month, origin.day))
  {
    if IsLeapDay(origin) && !IsLeapYear(year) then Ymd(year, 3, 1)
    else Ymd(year, origin.month, origin.day)
  }

  /** The anniversary in the year of `now`, at the start of its day (`thisYear` in the source). */
  function ThisYearCandidate(origin: Instant, now: Instant): Instant {
    StartOfDay(Occurrence(origin.date, now.date.year))
  }

  /** Anniversaries of later years come later. */
  lemma {:induction false} OccurrencesInOrder(origin: CivilDate, y1: int, y2: int)
    requires y1 <= y2
    ensures DaysFromCivil(Occurrence(origin, y1)) + 365 * (y2 - y1) <= DaysFromCivil(Occurrence(origin, y2))
    decreases y2 - y1
  {
    if y1 < y2 {
      var y := y2 - 1;
      OccurrencesInOrder(origin, y1, y);
      SameDayNextYear(y, origin.month, origin.day);
      assert DaysFromCivil(Occurrence(origin, y)) == DaysFromCivil(Ymd(y, origin.month, origin.day));
      assert DaysFromCivil(Occurrence(origin, y2)) == DaysFromCivil(Ymd(y + 1, origin.month, origin.day));
    }
  }

  /** Every day of next year lies after every instant of this year. */
  lemma NextYearDateAfter(d: CivilDate, now: Instant)
    requires d.year == now.date.year + 1
    ensures Seconds(StartOfDay(d)) > Seconds(now)
  {
    DayWithinYear(now.date);
    DayWithinYear(d);
    SecondsByDay(now, StartOfDay(d));
  }

  /** Next year's anniversary lies after every instant of this year. */
  lemma NextYearOccurrenceAfter(origin: CivilDate, now: Instant)
    ensures Seconds(StartOfDay(Occurrence(origin, now.date.year + 1))) > Seconds(now)
  {
    DayWithinYear(now.date);
    DayWithinYear(Occurrence(origin, now.date.year + 1));
  }

  /**
   * `nextAnniversaryDate(originalDate:now:)`: this year's anniversary if it has
   * not passed yet (it may equal `now`), otherwise next year's. The source
   * obtains next year's by adding one year to this year's; see
   * `NextAnniversaryAsWritten` for why this model builds it afresh.
   */
  function NextAnniversaryDate(origin: Instant, now: Instant): (r: Instant)
    ensures Seconds(r) >= Seconds(now)
    ensures r.second == 0 && r.date == Occurrence(origin.date, r.date.year)
    ensures !IsLeapDay(origin.date) ==> r.date.month == origin.date.month && r.date.day == origin.date.day
    ensures r.date.year == now.date.year <==> Seconds(ThisYearCandidate(origin, now)) >= Seconds(now)
    ensures r.date.year == now.date.year + 1 <==> Seconds(ThisYearCandidate(origin, now)) < Seconds(now)
  {
    var thisYear := ThisYearCandidate(origin, now);
    if Seconds(thisYear) >= Seconds(now) then thisYear
    else
      NextYearOccurrenceAfter(origin.date, now);
      StartOfDay(Occurrence(origin.date, now.date.year + 1))
  }

  /** Anniversaries in years before the year of `now` have passed. */
  lemma EarlierYearOccurrencePassed(origin: CivilDate, now: Instant, year: int)
    requires year < now.date.year
    ensures Seconds(StartOfDay(Occurrence(origin, year))) < Seconds(now)
  {
    SecondsByDay(StartOfDay(Occurrence(origin, year)), now);
    OccurrencesInOrder(origin, year, now.date.year - 1);
    DayWithinYear(Occurrence(origin, now.date.year - 1));
    DayWithinYear(now.date);
  }

  /** An anniversary that has not passed yet lies in the year of `now` or later. */
  lemma NotPassedYear(origin: CivilDate, now: Instant, year: int)
    requires Seconds(StartOfDay(Occurrence(origin, year))) >= Seconds(now)
    ensures year >= now.date.year
  {
    if year < now.date.year {
      EarlierYearOccurrencePassed(origin, now, year);
    }
  }

  lemma LaterYearNotEarlier(origin: CivilDate, y1: int, y2: int)
    requires y1 <= y2
    ensures Seconds(StartOfDay(Occurrence(origin, y1))) <= Seconds(StartOfDay(Occurrence(origin, y2)))
  {
    OccurrencesInOrder(origin, y1, y2);
  }

  /** The result is the earliest anniversary, in any year, that is not before `now`. */
  lemma NextAnniversaryIsEarliest(origin: Instant, now: Instant, year: int)
    requires Seconds(StartOfDay(Occurrence(origin.date, year))) >= Seconds(now)
    ensures Seconds(NextAnniversaryDate(origin, now)) <= Seconds(StartOfDay(Occurrence(origin.date, year)))
  {
    var r := NextAnniversaryDate(origin, now);
    NotPassedYear(origin.date, now, year);
    if year == now.date.year {
      assert StartOfDay(Occurrence(origin.date, year)) == ThisYearCandidate(origin, now);
    }
    assert r.date.year <= year;
    LaterYearNotEarlier(origin.date, r.date.year, year);
    assert r == StartOfDay(Occurrence(origin.date, r.date.year));
  }

  /** Asking again at the instant found gives the same instant. */
  lemma NextAnniversaryFixedPoint(origin: Instant, now: Instant)
    ensures NextAnniversaryDate(origin, NextAnniversaryDate(origin, now)) == NextAnniversaryDate(origin, now)
  {
    var r := NextAnniversaryDate(origin, now);
    assert ThisYearCandidate(origin, r) == r;
  }

  /** This year's anniversary is at most 365 days after any day of this year. */
  lemma ThisYearOccurrenceSoon(origin: CivilDate, now: CivilDate)
    ensures DaysFromCivil(Occurrence(origin, now.year)) - DaysFromCivil(now) <= 365
  {
    DayWithinYear(now);
    DayWithinYear(Occurrence(origin, now.year));
    YearLength(now.year);
  }

  /** Once this year's anniversary has passed, next year's is at most 366 days ahead, and 365 when it passed on an earlier day. */
  lemma NextYearGap(origin: CivilDate, now: Instant)
    requires Seconds(StartOfDay(Occurrence(origin, now.date.year))) < Seconds(now)
    ensures var gap := DaysFromCivil(Occurrence(origin, now.date.year + 1)) - DaysFromCivil(now.date);
      gap <= 366 && (now.second == 0 ==> gap <= 365)
  {
    SameDayNextYear(now.date.year, origin.month, origin.day);
    SecondsByDay(StartOfDay(Occurrence(origin, now.date.year)), now);
  }

  /** Whole days from an instant to a later midnight: at most the difference of day numbers, less when the start is past midnight. */
  lemma DaysToMidnight(from: Instant, to: Instant, bound: int)
    requires to.second == 0 && Seconds(to) >= Seconds(from)
    requires DaysFromCivil(to.date) - DaysFromCivil(from.date) <= bound + 1
    requires from.second == 0 ==> DaysFromCivil(to.date) - DaysFromCivil(from.date) <= bound
    ensures 0 <= DaysBetween(from, to) <= bound
  {
    var k := DaysFromCivil(to.date) - DaysFromCivil(from.date);
    assert Elapsed(from, to) == k * SecondsPerDay - from.second;
  }

  /** The next anniversary is at most 365 whole days away. */
  lemma DaysUntilNextAnniversary(origin: Instant, now: Instant)
    ensures 0 <= DaysBetween(now, NextAnniversaryDate(origin, now)) <= 365
  {
    var thisYear := ThisYearCandidate(origin, now);
    var r := NextAnniversaryDate(origin, now);
    if Seconds(thisYear) >= Seconds(now) {
      assert r == StartOfDay(Occurrence(origin.date, now.date.year));
      ThisYearOccurrenceSoon(origin.date, now.date);
    } else {
      assert r == StartOfDay(Occurrence(origin.date, now.date.year + 1));
      NextYearGap(origin.date, now);
    }
    DaysToMidnight(now, r, 365);
  }

  /**
   * Foundation's `date(byAdding: .year, value: 1, to:)`: the same month and day
   * a year later, clamped to the last day of the month (2024-02-29 becomes 2025-02-28).
   */
  function AddOneYear(d: CivilDate): (r: CivilDate)
    ensures r.year == d.year + 1 && r.month == d.month
    ensures d.day <= DaysInMonth(d.year + 1, d.month) ==> r.day == d.day
    ensures d.day > DaysInMonth(d.year + 1, d.month) ==> r.day == DaysInMonth(d.year + 1, d.month)
  {
    var last := DaysInMonth(d.year + 1, d.month);
    Ymd(d.year + 1, d.month, if d.day <= last then d.day else last)
  }

  /** `nextAnniversaryDate` as the source writes it: next year's date is this year's plus one year. */
  function NextAnniversaryAsWritten(origin: Instant, now: Instant): (r: Instant)
    ensures Seconds(r) >= Seconds(now)
    ensures r.second == 0
    ensures r.date.year == now.date.year <==> Seconds(ThisYearCandidate(origin, now)) >= Seconds(now)
  {
    var thisYear := ThisYearCandidate(origin, now);
    if Seconds(thisYear) >= Seconds(now) then thisYear
    else
      var next := AddOneYear(thisYear.date);
      NextYearDateAfter(next, now);
      StartOfDay(next)
  }

  /** Away from February 29 the source and the model agree. */
  lemma AsWrittenAgreesOffLeapDay(origin: Instant, now: Instant)
    requires !IsLeapDay(origin.date)
    ensures NextAnniversaryAsWritten(origin, now) == NextAnniversaryDate(origin, now)
  {
    var thisYear := ThisYearCandidate(origin, now);
    assert AddOneYear(thisYear.date) == Occurrence(origin.date, now.date.year + 1);
  }

  /**
   * For a February 29 origin the source's result is not stable: from
   * 2024-03-05 the source finds 2025-02-28, and asked again at 2025-02-28 it
   * finds 2025-03-01.
   */
  lemma AsWrittenLeapDayNotFixedPoint()
    ensures Instant(Ymd(2025, 2, 28), 0) == NextAnniversaryAsWritten(Instant(Ymd(2020, 2, 29), 0), Instant(Ymd(2024, 3, 5), 0))
    ensures Instant(Ymd(2025, 3, 1), 0) == NextAnniversaryAsWritten(Instant(Ymd(2020, 2, 29), 0), Instant(Ymd(2025, 2, 28), 0))
    ensures var origin := Instant(Ymd(2020, 2, 29), 0);
            var r := NextAnniversaryAsWritten(origin, Instant(Ymd(2024, 3, 5), 0));
            NextAnniversaryAsWritten(origin, r) != r
  {
    var origin := Instant(Ymd(2020, 2, 29), 0);
    var now := Instant(Ymd(2024, 3, 5), 0);
    assert Seconds(ThisYearCandidate(origin, now)) < Seconds(now);
    var r := Instant(Ymd(2025, 2, 28), 0);
    assert Seconds(ThisYearCandidate(origin, r)) >= Seconds(r);
  }

  /**
   * The other way round: from 2023-06-01 the source finds 2024-03-01 although
   * 2024 has a February 29, and from 2024-01-01 on it finds 2024-02-29.
   */
  lemma AsWrittenSkipsLeapDay()
    ensures Instant(Ymd(2024, 3, 1), 0) == NextAnniversaryAsWritten(Instant(Ymd(2020, 2, 29), 0), Instant(Ymd(2023, 6, 1), 0))
    ensures Instant(Ymd(2024, 2, 29), 0) == NextAnniversaryAsWritten(Instant(Ymd(2020, 2, 29), 0), Instant(Ymd(2024, 1, 1), 0))
  {
    var origin := Instant(Ymd(2020, 2, 29), 0);
    var june := Instant(Ymd(2023, 6, 1), 0);
    assert Seconds(ThisYearCandidate(origin, june)) < Seconds(june);
    var newYear := Instant(Ymd(2024, 1, 1), 0);
    assert Seconds(ThisYearCandidate(origin, newYear)) >= Seconds(newYear);
  }

  /** Boundary examples: the anniversary at exactly midnight counts, one second after it does not. */
  lemma MidnightBoundaryExamples()
    ensures Instant(Ymd(2024, 6, 15), 0) == NextAnniversaryDate(Instant(Ymd(2020, 6, 15), 0), Instant(Ymd(2024, 6, 15), 0))
    ensures Instant(Ymd(2025, 6, 15), 0) == NextAnniversaryDate(Instant(Ymd(2020, 6, 15), 0), Instant(Ymd(2024, 6, 15), 1))
    ensures Instant(Ymd(2025, 6, 15), 0) == NextAnniversaryDate(Instant(Ymd(2020, 6, 15), 0), Instant(Ymd(2024, 6, 16), 0))
  {
  }
}
