/**
 * EventRowView's `subTitle`: the caption under an event's title, which counts
 * the days to or from the event.
 */
module EventRowView {
  import opened CivilCalendar
  import opened EventDateLogic
  import opened EventModel

  /** The five captions the row can show. */
  datatype Label =
    | Today                                 // 本日
    | InDays(days: nat)                     // あと N 日
    | DaysAgo(days: nat)                    // N 日前
    | NextIn(next: nat)                     // 次は N 日後
    | PassedAndNext(passed: nat, next: nat) // N 日経過 ・ 次は M 日後

  /**
   * `subTitle`. A one-off event counts the days from `now` to it; an
   * anniversary counts the days since its origin and the days to its next
   * occurrence.
   */
  function SubTitle(event: Event, now: Instant): (caption: Label)
    // a one-off event: today, or the days to go, or the days gone
    ensures event.eventType == PlainEvent ==> (caption.Today? || caption.InDays? || caption.DaysAgo?)
    ensures event.eventType == PlainEvent ==>
      (caption.Today? <==> DaysBetween(now, event.eventDate) == 0)
    ensures caption.InDays? ==> caption.days > 0 && caption.days == DaysBetween(now, event.eventDate)
    ensures caption.DaysAgo? ==> caption.days > 0 && caption.days == -DaysBetween(now, event.eventDate)
    // an anniversary: today, or only the next occurrence while the origin is ahead, or both counts
    ensures event.eventType == Anniversary ==> (caption.Today? || caption.NextIn? || caption.PassedAndNext?)
    ensures event.eventType == Anniversary ==>
      (caption.Today? <==> DaysBetween(event.eventDate, now) == 0)
    ensures caption.NextIn? ==>
      DaysBetween(event.eventDate, now) < 0
      && caption.next == DaysBetween(now, NextAnniversaryDate(event.eventDate, now)) <= 365
    ensures caption.PassedAndNext? ==>
      caption.passed > 0 && caption.passed == DaysBetween(event.eventDate, now)
      && caption.next == DaysBetween(now, NextAnniversaryDate(event.eventDate, now)) <= 365
  {
    match event.eventType
    case PlainEvent =>
      var days := DaysBetween(now, event.eventDate);
      if days == 0 then Today
      else if days > 0 then InDays(days)
      else DaysAgo(-days)
    case Anniversary =>
      var passed := DaysBetween(event.eventDate, now);
      DaysUntilNextAnniversary(event.eventDate, now);
      var next := DaysBetween(now, NextAnniversaryDate(event.eventDate, now));
      if passed == 0 then Today
      else if passed < 0 then NextIn(next)
      else PassedAndNext(passed, next)
  }

  /** A one-off event is "today" exactly when it is less than a day away either way. */
  lemma PlainEventToday(event: Event, now: Instant)
    requires event.eventType == PlainEvent
    ensures SubTitle(event, now) == Today <==> -SecondsPerDay < Elapsed(now, event.eventDate) < SecondsPerDay
    ensures SubTitle(event, now).InDays? <==> Elapsed(now, event.eventDate) >= SecondsPerDay
    ensures SubTitle(event, now).DaysAgo? <==> Elapsed(now, event.eventDate) <= -SecondsPerDay
  {
    DaysBetweenSign(now, event.eventDate);
  }

  /** An anniversary whose origin is still at least a day ahead shows only the days to the next occurrence. */
  lemma AnniversaryAhead(event: Event, now: Instant)
    requires event.eventType == Anniversary
    ensures SubTitle(event, now).NextIn? <==> Elapsed(event.eventDate, now) <= -SecondsPerDay
    ensures SubTitle(event, now).PassedAndNext? <==> Elapsed(event.eventDate, now) >= SecondsPerDay
  {
    DaysBetweenSign(event.eventDate, now);
  }

  function DigitChar(d: nat): (c: char)
    requires d < 10
    ensures '0' <= c <= '9'
  {
    "0123456789"[d]
  }

  /** Base-ten digits of `n`, as Swift's string interpolation writes a non-negative Int. */
  function Decimal(n: nat): (s: string)
    ensures |s| > 0 && forall i :: 0 <= i < |s| ==> '0' <= s[i] <= '9'
  {
    if n < 10 then [DigitChar(n)] else Decimal(n / 10) + [DigitChar(n % 10)]
  }

  /** Reads base-ten digits back into a number. */
  function DecimalValue(s: string): nat
    requires forall i :: 0 <= i < |s| ==> '0' <= s[i] <= '9'
  {
    if s == [] then 0 else DecimalValue(s[..|s| - 1]) * 10 + ((s[|s| - 1] as int) - ('0' as int))
  }

  lemma {:induction false} DecimalRoundTrip(n: nat)
    ensures DecimalValue(Decimal(n)) == n
  {
    if n >= 10 {
      DecimalRoundTrip(n / 10);
      var s := Decimal(n);
      assert s[..|s| - 1] == Decimal(n / 10);
    }
  }

  lemma DecimalInjective(a: nat, b: nat)
    requires Decimal(a) == Decimal(b)
    ensures a == b
  {
    DecimalRoundTrip(a);
    DecimalRoundTrip(b);
  }

  /** The text the row shows for `caption`. */
  function LabelText(caption: Label): string {
    match caption
    case Today => "本日"
    case InDays(n) => "あと " + Decimal(n) + " 日"
    case DaysAgo(n) => Decimal(n) + " 日前"
    case NextIn(n) => "次は " + Decimal(n) + " 日後"
    case PassedAndNext(p, n) => Decimal(p) + " 日経過 ・ 次は " + Decimal(n) + " 日後"
  }

  predicate AllDigits(s: string) {
    forall i :: 0 <= i < |s| ==> '0' <= s[i] <= '9'
  }

  /** Number of digits at the start of `s`. */
  function LeadingDigits(s: string): (n: nat)
    ensures n <= |s|
  {
    if s == [] || !('0' <= s[0] <= '9') then 0 else 1 + LeadingDigits(s[1..])
  }

  lemma {:induction false} LeadingDigitsOf(x: string, y: string)
    requires AllDigits(x)
    requires |y| > 0 && !('0' <= y[0] <= '9')
    ensures LeadingDigits(x + y) == |x|
  {
    if x != [] {
      assert (x + y)[1..] == x[1..] + y;
      LeadingDigitsOf(x[1..], y);
    }
  }

  /** A run of digits followed by a non-digit is split the same way in two equal strings. */
  lemma SplitAfterDigits(x: string, y: string, u: string, v: string)
    requires AllDigits(x) && AllDigits(u)
    requires |y| > 0 && !('0' <= y[0] <= '9') && |v| > 0 && !('0' <= v[0] <= '9')
    requires x + y == u + v
    ensures x == u && y == v
  {
    LeadingDigitsOf(x, y);
    LeadingDigitsOf(u, v);
    assert x == (x + y)[..|x|] && u == (u + v)[..|u|];
    assert y == (x + y)[|x|..] && v == (u + v)[|u|..];
  }

  lemma Regroup3(a: string, b: string, c: string)
    ensures a + b + c == a + (b + c)
  {
  }

  lemma DropPrefix(p: string, x: string)
    ensures (p + x)[|p|..] == x
  {
  }

  /** Two numbers that read the same behind the same prefix and before a non-digit are equal. */
  lemma NumberBetween(prefix: string, a: nat, b: nat, y: string, v: string)
    requires |y| > 0 && !('0' <= y[0] <= '9') && |v| > 0 && !('0' <= v[0] <= '9')
    requires prefix + Decimal(a) + y == prefix + Decimal(b) + v
    ensures a == b && y == v
  {
    var x, u := Decimal(a) + y, Decimal(b) + v;
    Regroup3(prefix, Decimal(a), y);
    Regroup3(prefix, Decimal(b), v);
    DropPrefix(prefix, x);
    DropPrefix(prefix, u);
    SplitAfterDigits(Decimal(a), y, Decimal(b), v);
    DecimalInjective(a, b);
  }

  /** How each caption starts: its first character, and for the two that start with a number, the word after it. */
  lemma LabelTextShape(caption: Label)
    ensures var s := LabelText(caption);
      |s| > 0
      && (caption.Today? ==> s[0] == '本')
      && (caption.InDays? ==> s[0] == 'あ')
      && (caption.NextIn? ==> s[0] == '次')
      && (caption.DaysAgo? || caption.PassedAndNext? ==> '0' <= s[0] <= '9')
      && (caption.DaysAgo? ==> LeadingDigits(s) + 2 < |s| && s[LeadingDigits(s) + 2] == '前')
      && (caption.PassedAndNext? ==> LeadingDigits(s) + 2 < |s| && s[LeadingDigits(s) + 2] == '経')
  {
    match caption
    case DaysAgo(n) => DaysAgoShape(n);
    case PassedAndNext(p, n) => PassedAndNextShape(p, n);
    case _ =>
  }

  lemma DaysAgoShape(n: nat)
    ensures var s := LabelText(DaysAgo(n));
      '0' <= s[0] <= '9' && LeadingDigits(s) + 2 < |s| && s[LeadingDigits(s) + 2] == '前'
  {
    LeadingDigitsOf(Decimal(n), " 日前");
  }

  lemma PassedAndNextShape(p: nat, n: nat)
    ensures var s := LabelText(PassedAndNext(p, n));
      '0' <= s[0] <= '9' && LeadingDigits(s) + 2 < |s| && s[LeadingDigits(s) + 2] == '経'
  {
    var tail := " 日経過 ・ 次は " + Decimal(n) + " 日後";
    Regroup(Decimal(p), " 日経過 ・ 次は ", Decimal(n), " 日後");
    LeadingDigitsOf(Decimal(p), tail);
    assert (Decimal(p) + tail)[|Decimal(p)| + 2] == tail[2];
  }

  /** Captions of different kinds read differently. */
  lemma KindsReadDifferently(a: Label, b: Label)
    requires LabelText(a) == LabelText(b)
    ensures a.Today? == b.Today? && a.InDays? == b.InDays? && a.NextIn? == b.NextIn?
    ensures a.DaysAgo? == b.DaysAgo? && a.PassedAndNext? == b.PassedAndNext?
  {
    LabelTextShape(a);
    LabelTextShape(b);
  }

  lemma Regroup(a: string, b: string, c: string, d: string)
    ensures a + b + c + d == a + (b + c + d)
  {
  }

  lemma PassedAndNextInjective(p1: nat, n1: nat, p2: nat, n2: nat)
    requires LabelText(PassedAndNext(p1, n1)) == LabelText(PassedAndNext(p2, n2))
    ensures p1 == p2 && n1 == n2
  {
    var tail1 := " 日経過 ・ 次は " + Decimal(n1) + " 日後";
    var tail2 := " 日経過 ・ 次は " + Decimal(n2) + " 日後";
    Regroup(Decimal(p1), " 日経過 ・ 次は ", Decimal(n1), " 日後");
    Regroup(Decimal(p2), " 日経過 ・ 次は ", Decimal(n2), " 日後");
    SplitAfterDigits(Decimal(p1), tail1, Decimal(p2), tail2);
    DecimalInjective(p1, p2);
    NumberBetween(" 日経過 ・ 次は ", n1, n2, " 日後", " 日後");
  }

  /** No two different captions read the same. */
  lemma LabelTextInjective(a: Label, b: Label)
    requires LabelText(a) == LabelText(b)
    ensures a == b
  {
    KindsReadDifferently(a, b);
    match a
    case Today =>
    case InDays(n) =>
      NumberBetween("あと ", n, b.days, " 日", " 日");
    case NextIn(n) =>
      NumberBetween("次は ", n, b.next, " 日後", " 日後");
    case DaysAgo(n) =>
      SplitAfterDigits(Decimal(n), " 日前", Decimal(b.days), " 日前");
      DecimalInjective(n, b.days);
    case PassedAndNext(p, n) =>
      PassedAndNextInjective(p, n, b.passed, b.next);
  }

  /** One-off events three days ahead, three days back and on the same day. */
  lemma PlainCaptionExamples(e: Event)
    ensures var now := Instant(Ymd(2024, 6, 15), 43200);
      && SubTitle(e.(eventType := PlainEvent, eventDate := Instant(Ymd(2024, 6, 18), 43200)), now) == InDays(3)
      && SubTitle(e.(eventType := PlainEvent, eventDate := Instant(Ymd(2024, 6, 12), 43200)), now) == DaysAgo(3)
      && SubTitle(e.(eventType := PlainEvent, eventDate := Instant(Ymd(2024, 6, 15), 0)), now) == Today
  {
    var now := Instant(Ymd(2024, 6, 15), 43200);
    assert DaysBetween(now, Instant(Ymd(2024, 6, 18), 43200)) == 3;
    assert DaysBetween(now, Instant(Ymd(2024, 6, 12), 43200)) == -3;
    assert DaysBetween(now, Instant(Ymd(2024, 6, 15), 0)) == 0;
  }

  /** An anniversary ten days after its origin: ten days passed, the next occurrence 354 days ahead. */
  lemma AnniversaryCaptionExample(e: Event)
    ensures SubTitle(e.(eventType := Anniversary, eventDate := Instant(Ymd(2024, 6, 5), 43200)), Instant(Ymd(2024, 6, 15), 43200))
            == PassedAndNext(10, 354)
  {
    var origin := Instant(Ymd(2024, 6, 5), 43200);
    var now := Instant(Ymd(2024, 6, 15), 43200);
    assert DaysFromCivil(Ymd(2024, 6, 5)) == 19879;
    assert DaysFromCivil(Ymd(2024, 6, 15)) == 19889;
    assert DaysFromCivil(Ymd(2025, 6, 5)) == 20244;
    assert DaysBetween(origin, now) == 10;
    assert NextAnniversaryDate(origin, now) == Instant(Ymd(2025, 6, 5), 0);
    assert DaysBetween(now, Instant(Ymd(2025, 6, 5), 0)) == 354;
  }

  lemma DecimalExamples()
    ensures Decimal(10) == "10" && Decimal(355) == "355"
  {
    assert Decimal(1) == "1";
    assert Decimal(3) == "3";
    assert Decimal(35) == "35";
  }

  /** The combined anniversary caption carries both counts. */
  lemma CombinedCaptionExample()
    ensures LabelText(PassedAndNext(10, 355)) == "10 日経過 ・ 次は 355 日後"
  {
    DecimalExamples();
    assert LabelText(PassedAndNext(10, 355)) == Decimal(10) + " 日経過 ・ 次は " + Decimal(355) + " 日後";
    assert "10" + " 日経過 ・ 次は " + "355" + " 日後" == "10 日経過 ・ 次は 355 日後";
  }
}
