/** Yearly spans, "from this day to that day, every year", civil or Hebrew: who is inside one
    (inDateRange, src/services/holidays.js), when two civil ones meet (cyclicOverlap,
    src/services/schedules.js), and the next day of one (resolveYearlySchedule). */
module YearlySpans {
  import opened Common
  import opened Civil
  import opened Exclusions

  // ---- Reckonings ----

  const LONGEST_YEAR := 400

  predicate RealAnniversary(r: Reckoning, src: Date, y: int) {
    Valid(src) ==>
      && Valid(r.anniversary(src, y)) && r.yearOf(r.anniversary(src, y)) == y
      && DaysFrom(r.anniversary(src, y), r.anniversary(src, y + 1)) <= LONGEST_YEAR
      && r.anniversary(src, r.yearOf(src)) == src
  }

  predicate YearsRise(r: Reckoning, a: Date, b: Date) {
    Valid(a) && Valid(b) && AtMost(a, b) ==> r.yearOf(a) <= r.yearOf(b)
  }

  /** What the proofs need of a calendar: real anniversaries, one a year and at most 400 days
      apart; a date is its own anniversary in its own year; and later dates lie in no earlier
      year. */
  ghost predicate RealReckoning(r: Reckoning) {
    (forall src, y :: RealAnniversary(r, src, y)) && forall a, b :: YearsRise(r, a, b)
  }

  lemma AnniversaryIsReal(r: Reckoning, src: Date, y: int)
    requires RealReckoning(r) && Valid(src)
    ensures Valid(r.anniversary(src, y)) && r.yearOf(r.anniversary(src, y)) == y
    ensures DaysFrom(r.anniversary(src, y), r.anniversary(src, y + 1)) <= LONGEST_YEAR
    ensures r.anniversary(src, r.yearOf(src)) == src
  {
    assert RealAnniversary(r, src, y);
  }

  lemma YearOrder(r: Reckoning, a: Date, b: Date)
    requires RealReckoning(r) && Valid(a) && Valid(b) && AtMost(a, b)
    ensures r.yearOf(a) <= r.yearOf(b)
  {
    assert YearsRise(r, a, b);
  }

  lemma YearsInOrder(r: Reckoning, a: Date, b: Date)
    requires RealReckoning(r) && Valid(a) && Valid(b) && r.yearOf(a) < r.yearOf(b)
    ensures Before(a, b)
  {
    assert YearsRise(r, b, a);
  }

  lemma SameDayNextYear(y: int, mo: int)
    requires 1 <= mo <= 12
    ensures DaysBeforeMonth(y, mo) - 1 <= DaysBeforeMonth(y + 1, mo) <= DaysBeforeMonth(y, mo) + 1
    decreases mo
  {
    if mo > 1 {
      SameDayNextYear(y, mo - 1);
      if mo > 3 {
        ShiftedByLeap(y, mo);
      }
    }
  }

  lemma {:induction false} ShiftedByLeap(y: int, mo: int)
    requires 3 <= mo <= 12
    ensures DaysBeforeMonth(y + 1, mo) - DaysBeforeMonth(y, mo) == DaysInMonth(y + 1, 2) - DaysInMonth(y, 2)
    decreases mo
  {
    if mo == 3 {
      MonthTable(y);
      MonthTable(y + 1);
    } else {
      ShiftedByLeap(y, mo - 1);
    }
  }

  lemma CivilAnniversaryIsReal(src: Date, y: int)
    requires Valid(src)
    ensures Valid(CivilAnniversary(src, y)) && CivilAnniversary(src, src.y) == src
    ensures DaysFrom(CivilAnniversary(src, y), CivilAnniversary(src, y + 1)) <= LONGEST_YEAR
  {
    SameDayNextYear(y, src.mo);
    YearLength(y);
  }

  lemma CivilIsReal()
    ensures RealReckoning(CIVIL)
  {
    forall src, y
      ensures RealAnniversary(CIVIL, src, y)
    {
      if Valid(src) {
        CivilAnniversaryIsReal(src, y);
      }
    }
  }

  // ---- Spans ----

  /** The span that starts in year `y`; an end before its start is the next year's. */
  function Span(r: Reckoning, src: Date, end: Date, y: int): (Date, Date) {
    var on, off := r.anniversary(src, y), r.anniversary(end, y);
    (on, if Before(off, on) then r.anniversary(end, y + 1) else off)
  }

  /** The date lies in the span of some year. */
  ghost predicate InSpan(r: Reckoning, src: Date, end: Date, date: Date) {
    exists y :: Within(date, Span(r, src, end, y))
  }

  lemma OffsetIsYear(alm: Almanac, src: Date, end: Date, hebrew: bool, offset: int, around: Date)
    ensures var r := ReckoningOf(alm, hebrew);
      YearlyRange(alm, src, end, hebrew, offset, around) == Span(r, src, end, r.yearOf(around) + offset)
  {
  }

  /** A date in a span lies in the span's year or the one after. */
  lemma SpanYears(r: Reckoning, src: Date, end: Date, y: int, date: Date)
    requires RealReckoning(r) && Valid(src) && Valid(end) && Valid(date) && Within(date, Span(r, src, end, y))
    ensures y == r.yearOf(date) || y == r.yearOf(date) - 1
  {
    AnniversaryIsReal(r, src, y);
    AnniversaryIsReal(r, end, y);
    AnniversaryIsReal(r, end, y + 1);
    YearOrder(r, Span(r, src, end, y).0, date);
    YearOrder(r, date, Span(r, src, end, y).1);
  }

  lemma OffsetInSpan(alm: Almanac, hebrew: bool, src: Date, end: Date, tested: Date, i: int)
    requires Within(tested, YearlyRange(alm, src, end, hebrew, i, tested))
    ensures InSpan(ReckoningOf(alm, hebrew), src, end, tested)
  {
    var r := ReckoningOf(alm, hebrew);
    OffsetIsYear(alm, src, end, hebrew, i, tested);
    assert Within(tested, Span(r, src, end, r.yearOf(tested) + i));
  }

  lemma SpanAtAnOffset(alm: Almanac, hebrew: bool, src: Date, end: Date, tested: Date, y: int)
    requires RealReckoning(ReckoningOf(alm, hebrew)) && Valid(src) && Valid(end) && Valid(tested)
    requires Within(tested, Span(ReckoningOf(alm, hebrew), src, end, y))
    ensures InYearlyRange(alm, src, end, hebrew, tested)
  {
    var r := ReckoningOf(alm, hebrew);
    SpanYears(r, src, end, y, tested);
    var i := y - r.yearOf(tested);
    OffsetIsYear(alm, src, end, hebrew, i, tested);
    assert -1 <= i < 2 && Within(tested, YearlyRange(alm, src, end, hebrew, i, tested));
  }

  /** The three year offsets the code tries decide membership in every year's span. */
  lemma ThreeOffsetsDecide(alm: Almanac, hebrew: bool, src: Date, end: Date, tested: Date)
    requires RealReckoning(ReckoningOf(alm, hebrew)) && Valid(src) && Valid(end) && Valid(tested)
    ensures InYearlyRange(alm, src, end, hebrew, tested) <==> InSpan(ReckoningOf(alm, hebrew), src, end, tested)
  {
    if InYearlyRange(alm, src, end, hebrew, tested) {
      var i :| -1 <= i < 2 && Within(tested, YearlyRange(alm, src, end, hebrew, i, tested));
      OffsetInSpan(alm, hebrew, src, end, tested, i);
    }
    if y :| Within(tested, Span(ReckoningOf(alm, hebrew), src, end, y)) {
      SpanAtAnOffset(alm, hebrew, src, end, tested, y);
    }
  }

  // ---- What an exclusion covers ----

  /** The dates an item means, in day numbers: its weekdays; a selected day and the day before it;
      the days of a one-time range, or its one day; the days of a yearly span in any year. */
  ghost predicate Means(alm: Almanac, x: Item, n: int) {
    match x
    case WeekdayItem(days) => n % 7 + 1 in days
    case HolidayItem(bases) =>
      exists base, day :: base in bases && (HasNumber(day, n) || HasNumber(day, n + 1)) && base in alm.dayKeys(day)
    case RangeItem(true, _, date, end) =>
      date.Some? && DayNumber(date.value) <= n <= DayNumber(if end.Some? then end.value else date.value)
    case RangeItem(false, hebrew, date, end) =>
      date.Some?
      && HeldInAYear(if hebrew then alm.hebrew else CIVIL, date.value, if end.Some? then end.value else date.value, n)
  }

  ghost predicate HeldInAYear(r: Reckoning, src: Date, end: Date, n: int) {
    exists y :: Holds(Span(r, src, end, y), n)
  }

  predicate Holds(span: (Date, Date), n: int) {
    DayNumber(span.0) <= n <= DayNumber(span.1)
  }

  predicate RealItem(x: Item) {
    x.RangeItem? ==> (x.date.Some? ==> Valid(x.date.value)) && (x.end.Some? ==> Valid(x.end.value))
  }

  lemma ItemCovers(alm: Almanac, x: Item, tested: Date)
    requires RealReckoning(alm.hebrew) && Valid(tested) && RealItem(x)
    ensures InItem(alm, x, tested) <==> Means(alm, x, DayNumber(tested))
  {
    match x
    case WeekdayItem(days) =>
    case HolidayItem(bases) => HolidayCovers(alm, bases, tested);
    case RangeItem(once, hebrew, date, end) =>
      if date.Some? {
        RangeCovers(alm, once, hebrew, date.value, if end.Some? then end.value else date.value, tested);
      }
  }

  lemma HolidayCovers(alm: Almanac, bases: set<string>, tested: Date)
    requires Valid(tested)
    ensures InHolidayBlock(alm, bases, tested) <==> Means(alm, HolidayItem(bases), DayNumber(tested))
  {
    var n, next := DayNumber(tested), Shift(tested, 1);
    ShiftAddsDays(tested, 1);
    if base :| base in alm.dayKeys(tested) * bases {
      assert HasNumber(tested, n) && base in alm.dayKeys(tested);
    }
    if base :| base in alm.dayKeys(next) * bases {
      assert HasNumber(next, n + 1) && base in alm.dayKeys(next);
    }
    if base, day :| base in bases && (HasNumber(day, n) || HasNumber(day, n + 1)) && base in alm.dayKeys(day) {
      StringOrderIsDayOrder(day, tested);
      StringOrderIsDayOrder(day, next);
      assert base in alm.dayKeys(tested) * bases || base in alm.dayKeys(next) * bases;
    }
  }

  lemma RangeCovers(alm: Almanac, once: bool, hebrew: bool, date: Date, last: Date, tested: Date)
    requires RealReckoning(alm.hebrew) && Valid(tested) && Valid(date) && Valid(last)
    ensures once ==> (Within(tested, (date, last)) <==> DayNumber(date) <= DayNumber(tested) <= DayNumber(last))
    ensures !once ==> (InYearlyRange(alm, date, last, hebrew, tested)
      <==> HeldInAYear(ReckoningOf(alm, hebrew), date, last, DayNumber(tested)))
  {
    var r := ReckoningOf(alm, hebrew);
    CivilIsReal();
    ByNumbers(date, last, tested);
    ThreeOffsetsDecide(alm, hebrew, date, last, tested);
    forall y
      ensures Within(tested, Span(r, date, last, y)) <==> Holds(Span(r, date, last, y), DayNumber(tested))
    {
      AnniversaryIsReal(r, date, y);
      AnniversaryIsReal(r, last, y);
      AnniversaryIsReal(r, last, y + 1);
      ByNumbers(Span(r, date, last, y).0, Span(r, date, last, y).1, tested);
    }
  }

  lemma ByNumbers(first: Date, last: Date, tested: Date)
    requires Valid(first) && Valid(last) && Valid(tested)
    ensures Within(tested, (first, last)) <==> DayNumber(first) <= DayNumber(tested) <= DayNumber(last)
  {
    StringOrderIsDayOrder(first, tested);
    StringOrderIsDayOrder(tested, last);
  }

  /** A row is silent on exactly the dates that its single exclusion or an item of its list
      means. */
  lemma ExclusionCovers(alm: Almanac, x: Exclusion, tested: Date)
    requires RealReckoning(alm.hebrew) && Valid(tested)
    requires (x.legacy.Some? ==> RealItem(x.legacy.value)) && forall item :: item in x.list ==> RealItem(item)
    ensures InExclusion(alm, x, tested) <==>
      || (x.legacy.Some? && Means(alm, x.legacy.value, DayNumber(tested)))
      || exists item :: item in x.list && Means(alm, item, DayNumber(tested))
  {
    if x.legacy.Some? {
      ItemCovers(alm, x.legacy.value, tested);
    }
    forall item | item in x.list
      ensures InItem(alm, item, tested) <==> Means(alm, item, DayNumber(tested))
    {
      ItemCovers(alm, item, tested);
    }
    if item :| item in x.list && InItem(alm, item, tested) {
      var k :| 0 <= k < |x.list| && x.list[k] == item;
    }
  }

  // ---- Month-day numbers ----

  function MonthDay(a: Date): int {
    a.mo * 100 + a.d
  }

  const LEAP_DAY := 229
  const DAY_BEFORE := 228

  /** What a month-day number is clamped to in a year without 29 February. */
  function Clamped(m: int): int {
    if m == LEAP_DAY then DAY_BEFORE else m
  }

  function InYear(m: int, y: int): int {
    if Leap(y) then m else Clamped(m)
  }

  predicate InCycle(m: int, a: int, b: int) {
    if a <= b then a <= m <= b else m >= a || m <= b
  }

  const CYCLE := 1300

  predicate CyclicOverlap(a1: int, a2: int, b1: int, b2: int) {
    var y1 := if a2 < a1 then a2 + CYCLE else a2;
    var y2 := if b2 < b1 then b2 + CYCLE else b2;
    || (a1 <= y2 - CYCLE && b1 - CYCLE <= y1)
    || (a1 <= y2 && b1 <= y1)
    || (a1 <= y2 + CYCLE && b1 + CYCLE <= y1)
  }

  predicate OnTheYear(m: int) {
    101 <= m <= 1231
  }

  lemma OverlapAtAStart(a1: int, a2: int, b1: int, b2: int)
    requires OnTheYear(a1) && OnTheYear(a2) && OnTheYear(b1) && OnTheYear(b2)
    ensures CyclicOverlap(a1, a2, b1, b2) <==> InCycle(a1, b1, b2) || InCycle(b1, a1, a2)
  {
  }

  lemma OverlapHasAPoint(a1: int, a2: int, b1: int, b2: int, m: int)
    requires OnTheYear(a1) && OnTheYear(a2) && OnTheYear(b1) && OnTheYear(b2)
    requires InCycle(m, a1, a2) && InCycle(m, b1, b2)
    ensures CyclicOverlap(a1, a2, b1, b2)
  {
  }

  lemma AnniversaryNumber(a: Date, y: int)
    requires Valid(a)
    ensures Valid(CivilAnniversary(a, y)) && MonthDay(CivilAnniversary(a, y)) == InYear(MonthDay(a), y)
    ensures OnTheYear(MonthDay(a)) && OnTheYear(Clamped(MonthDay(a)))
  {
  }

  lemma MonthDayOrder(a: Date, b: Date)
    requires Valid(a) && Valid(b)
    ensures MonthDay(a) <= MonthDay(b) <==> !MonthDayBefore(b.mo, b.d, a.mo, a.d)
    ensures a.y == b.y ==> (AtMost(a, b) <==> MonthDay(a) <= MonthDay(b))
  {
  }

  /** The span of year `y` reaches number `m` of year `y`, or of the year after when it wraps. */
  predicate StartsBy(s: int, e: int, y: int, m: int) {
    InYear(s, y) <= m && (InYear(s, y) <= InYear(e, y) ==> m <= InYear(e, y))
  }

  predicate WrapsTo(s: int, e: int, y: int, m: int) {
    InYear(e, y) < InYear(s, y) && m <= InYear(e, y + 1)
  }

  lemma SpanByYear(src: Date, end: Date, date: Date, y: int)
    requires Valid(src) && Valid(end) && Valid(date) && (y == date.y || y == date.y - 1)
    ensures Within(date, Span(CIVIL, src, end, y)) <==>
      if y == date.y then StartsBy(MonthDay(src), MonthDay(end), y, MonthDay(date))
      else WrapsTo(MonthDay(src), MonthDay(end), y, MonthDay(date))
  {
    AnniversaryNumber(src, y);
    AnniversaryNumber(end, y);
    AnniversaryNumber(end, y + 1);
    MonthDayOrder(CivilAnniversary(src, y), date);
    MonthDayOrder(date, CivilAnniversary(end, y));
    MonthDayOrder(date, CivilAnniversary(end, y + 1));
    MonthDayOrder(CivilAnniversary(src, y), CivilAnniversary(end, y));
  }

  /** Membership in a civil span is a test on numbers, clamped by the date's year and the one
      before. */
  lemma InSpanByMonthDay(src: Date, end: Date, date: Date)
    requires Valid(src) && Valid(end) && Valid(date)
    ensures var s, e, m := MonthDay(src), MonthDay(end), MonthDay(date);
      InSpan(CIVIL, src, end, date) <==> StartsBy(s, e, date.y, m) || WrapsTo(s, e, date.y - 1, m)
  {
    SpanByYear(src, end, date, date.y);
    SpanByYear(src, end, date, date.y - 1);
    CivilIsReal();
    if y :| Within(date, Span(CIVIL, src, end, y)) {
      SpanYears(CIVIL, src, end, y, date);
    }
  }

  /** Without 29 February ends it is plain membership in the cycle of the year. */
  lemma InSpanByCycle(src: Date, end: Date, date: Date)
    requires Valid(src) && Valid(end) && Valid(date) && MonthDay(src) != LEAP_DAY && MonthDay(end) != LEAP_DAY
    ensures InSpan(CIVIL, src, end, date) <==> InCycle(MonthDay(date), MonthDay(src), MonthDay(end))
  {
    InSpanByMonthDay(src, end, date);
  }

  // ---- cyclicOverlap ----

  ghost predicate Meet(src1: Date, end1: Date, src2: Date, end2: Date) {
    exists date :: Valid(date) && InSpan(CIVIL, src1, end1, date) && InSpan(CIVIL, src2, end2, date)
  }

  /** The start of the first span, when its number lies in the second one, is a shared date of
      a leap year or the year after. */
  lemma StartIsShared(src1: Date, end1: Date, src2: Date, end2: Date)
    requires Valid(src1) && Valid(end1) && Valid(src2) && Valid(end2)
    requires InCycle(MonthDay(src1), MonthDay(src2), MonthDay(end2))
    ensures Meet(src1, end1, src2, end2)
  {
    var y := if MonthDay(src1) >= MonthDay(src2) then 2024 else 2025;
    var date := CivilAnniversary(src1, y);
    AnniversaryNumber(src1, y);
    InSpanByMonthDay(src1, end1, date);
    InSpanByMonthDay(src2, end2, date);
    assert InSpan(CIVIL, src1, end1, date) && InSpan(CIVIL, src2, end2, date);
  }

  /** The same with the clamped numbers, in two common years. */
  lemma ClampedStartIsShared(src1: Date, end1: Date, src2: Date, end2: Date)
    requires Valid(src1) && Valid(end1) && Valid(src2) && Valid(end2)
    requires InCycle(Clamped(MonthDay(src1)), Clamped(MonthDay(src2)), Clamped(MonthDay(end2)))
    ensures Meet(src1, end1, src2, end2)
  {
    var date := CivilAnniversary(src1, 2023);
    AnniversaryNumber(src1, 2023);
    InSpanByMonthDay(src1, end1, date);
    InSpanByMonthDay(src2, end2, date);
    assert InSpan(CIVIL, src1, end1, date) && InSpan(CIVIL, src2, end2, date);
  }

  /** A date of a leap year in a span lies in it by the plain numbers; one of a common year by
      the clamped ones, unless the span runs from 29 to 28 February: by number, all year. */
  lemma DateInNumbers(src: Date, end: Date, date: Date)
    requires Valid(src) && Valid(end) && Valid(date) && InSpan(CIVIL, src, end, date)
    ensures var s, e, m := MonthDay(src), MonthDay(end), MonthDay(date);
      if Leap(date.y) then InCycle(m, s, e)
      else InCycle(m, Clamped(s), Clamped(e)) || (s == LEAP_DAY && e == DAY_BEFORE)
  {
    InSpanByMonthDay(src, end, date);
  }

  lemma SharedDateOverlaps(src1: Date, end1: Date, src2: Date, end2: Date, date: Date)
    requires Valid(src1) && Valid(end1) && Valid(src2) && Valid(end2) && Valid(date)
    requires InSpan(CIVIL, src1, end1, date) && InSpan(CIVIL, src2, end2, date)
    ensures var a1, a2, b1, b2 := MonthDay(src1), MonthDay(end1), MonthDay(src2), MonthDay(end2);
      CyclicOverlap(a1, a2, b1, b2) || CyclicOverlap(Clamped(a1), Clamped(a2), Clamped(b1), Clamped(b2))
  {
    var a1, a2, b1, b2, m := MonthDay(src1), MonthDay(end1), MonthDay(src2), MonthDay(end2), MonthDay(date);
    DateInNumbers(src1, end1, date);
    DateInNumbers(src2, end2, date);
    AnniversaryNumber(src1, date.y);
    AnniversaryNumber(end1, date.y);
    AnniversaryNumber(src2, date.y);
    AnniversaryNumber(end2, date.y);
    if Leap(date.y) {
      OverlapHasAPoint(a1, a2, b1, b2, m);
    } else if (a1 == LEAP_DAY && a2 == DAY_BEFORE) || (b1 == LEAP_DAY && b2 == DAY_BEFORE) {
      OverlapAtAStart(a1, a2, b1, b2);
    } else {
      OverlapHasAPoint(Clamped(a1), Clamped(a2), Clamped(b1), Clamped(b2), m);
    }
  }

  /** Two civil spans share a calendar date exactly when cyclicOverlap holds of their
      month-day numbers, or of those numbers with 29 February taken for the 28th. So the code
      reports no false overlap, and misses one exactly when the first test fails and the
      second holds. */
  lemma OverlapIsExact(src1: Date, end1: Date, src2: Date, end2: Date)
    requires Valid(src1) && Valid(end1) && Valid(src2) && Valid(end2)
    ensures var a1, a2, b1, b2 := MonthDay(src1), MonthDay(end1), MonthDay(src2), MonthDay(end2);
      Meet(src1, end1, src2, end2) <==>
        CyclicOverlap(a1, a2, b1, b2) || CyclicOverlap(Clamped(a1), Clamped(a2), Clamped(b1), Clamped(b2))
  {
    var a1, a2, b1, b2 := MonthDay(src1), MonthDay(end1), MonthDay(src2), MonthDay(end2);
    AnniversaryNumber(src1, 2023);
    AnniversaryNumber(end1, 2023);
    AnniversaryNumber(src2, 2023);
    AnniversaryNumber(end2, 2023);
    if CyclicOverlap(a1, a2, b1, b2) {
      OverlapAtAStart(a1, a2, b1, b2);
      if InCycle(a1, b1, b2) {
        StartIsShared(src1, end1, src2, end2);
      } else {
        StartIsShared(src2, end2, src1, end1);
      }
    }
    if CyclicOverlap(Clamped(a1), Clamped(a2), Clamped(b1), Clamped(b2)) {
      OverlapAtAStart(Clamped(a1), Clamped(a2), Clamped(b1), Clamped(b2));
      if InCycle(Clamped(a1), Clamped(b1), Clamped(b2)) {
        ClampedStartIsShared(src1, end1, src2, end2);
      } else {
        ClampedStartIsShared(src2, end2, src1, end1);
      }
    }
    if date :| Valid(date) && InSpan(CIVIL, src1, end1, date) && InSpan(CIVIL, src2, end2, date) {
      SharedDateOverlaps(src1, end1, src2, end2, date);
    }
  }

  /** Without 29 February ends the code's one test decides. */
  lemma CyclicOverlapIsExact(src1: Date, end1: Date, src2: Date, end2: Date)
    requires Valid(src1) && Valid(end1) && Valid(src2) && Valid(end2)
    requires MonthDay(src1) != LEAP_DAY && MonthDay(end1) != LEAP_DAY && MonthDay(src2) != LEAP_DAY
      && MonthDay(end2) != LEAP_DAY
    ensures CyclicOverlap(MonthDay(src1), MonthDay(end1), MonthDay(src2), MonthDay(end2))
      <==> Meet(src1, end1, src2, end2)
  {
    OverlapIsExact(src1, end1, src2, end2);
  }

  /** A case that is missed: 29 February against the day before, which share 28 February of
      every common year. */
  lemma LeapDayOverlapMissed()
    ensures var leap, eve := Date(2024, 2, 29), Date(2024, 2, 28);
      !CyclicOverlap(MonthDay(leap), MonthDay(leap), MonthDay(eve), MonthDay(eve)) && Meet(leap, leap, eve, eve)
  {
    OverlapIsExact(Date(2024, 2, 29), Date(2024, 2, 29), Date(2024, 2, 28), Date(2024, 2, 28));
  }

  // ---- The next occurrence of a one-sided row ----

  /** A moment of local time: the string 'YYYY-MM-DDTHH:MM'. */
  datatype Moment = Moment(date: Date, minute: int)

  predicate Later(a: Moment, b: Moment) {
    Before(b.date, a.date) || (a.date == b.date && a.minute > b.minute)
  }

  lemma SuccessorOf(d: Date, e: Date)
    requires Valid(d) && Valid(e)
    ensures Valid(Next(d)) && Before(d, Next(d)) && (Before(e, Next(d)) <==> AtMost(e, d))
  {
    NextStep(d);
    StringOrderIsDayOrder(d, Next(d));
    StringOrderIsDayOrder(e, Next(d));
    StringOrderIsDayOrder(e, d);
  }

  /** The span runs forward and is no longer than the code's walk of 400 days. */
  lemma SpanLength(r: Reckoning, src: Date, end: Date, y: int)
    requires RealReckoning(r) && Valid(src) && Valid(end)
    ensures Valid(Span(r, src, end, y).0) && Valid(Span(r, src, end, y).1)
    ensures 0 <= DaysFrom(Span(r, src, end, y).0, Span(r, src, end, y).1) < LONGEST_YEAR
  {
    var on, off, next := r.anniversary(src, y), r.anniversary(end, y), r.anniversary(end, y + 1);
    AnniversaryIsReal(r, src, y);
    AnniversaryIsReal(r, src, y + 1);
    AnniversaryIsReal(r, end, y);
    AnniversaryIsReal(r, end, y + 1);
    StringOrderIsDayOrder(off, on);
    StringOrderIsDayOrder(on, next);
    StringOrderIsDayOrder(off, r.anniversary(src, y + 1));
    assert Before(on, next) && Before(off, r.anniversary(src, y + 1)) by {
      YearsInOrder(r, on, next);
      YearsInOrder(r, off, r.anniversary(src, y + 1));
    }
  }

  /** A one-sided row: its reckoning, its two days and its minute on a date, which an anchored
      time does not have on every date. */
  datatype SpanRow = SpanRow(r: Reckoning, src: Date, end: Date, time: Date -> Option<int>)

  ghost predicate RealSpanRow(w: SpanRow) {
    RealReckoning(w.r) && Valid(w.src) && Valid(w.end)
  }

  predicate InSpanOf(w: SpanRow, y: int, date: Date) {
    Within(date, Span(w.r, w.src, w.end, y))
  }

  predicate Pending(w: SpanRow, now: Moment, date: Date) {
    w.time(date).Some? && Later(Moment(date, w.time(date).value), now)
  }

  /** Nothing pending before `d` in the span that starts in year `y`. */
  ghost predicate NonePending(w: SpanRow, now: Moment, y: int, d: Date) {
    forall e :: Valid(e) && InSpanOf(w, y, e) && Before(e, d) ==> !Pending(w, now, e)
  }

  ghost predicate SpanPassed(w: SpanRow, now: Moment, y: int) {
    forall e :: Valid(e) && InSpanOf(w, y, e) ==> !Pending(w, now, e)
  }

  ghost predicate SpanTimed(w: SpanRow, y: int) {
    forall e :: Valid(e) && InSpanOf(w, y, e) ==> w.time(e).Some?
  }

  /** No day of any year's span before `date` is still to come. */
  ghost predicate NoneBefore(w: SpanRow, now: Moment, date: Date) {
    forall e :: Valid(e) && InSpan(w.r, w.src, w.end, e) && Pending(w, now, e) ==> AtMost(date, e)
  }

  /** `date` is the first day of any year's span whose moment is still to come. */
  ghost predicate IsNext(w: SpanRow, now: Moment, date: Date) {
    InSpan(w.r, w.src, w.end, date) && Pending(w, now, date) && NoneBefore(w, now, date)
  }

  ghost predicate SpansPassed(w: SpanRow, now: Moment, upTo: int) {
    forall k :: w.r.yearOf(now.date) - 1 <= k < upTo ==> SpanPassed(w, now, k)
  }

  /** The first day of a span that is not passed over, when all earlier spans are. */
  ghost predicate FirstLeft(w: SpanRow, now: Moment, y: int, d: Date) {
    && y >= w.r.yearOf(now.date) - 1 && InSpanOf(w, y, d)
    && NonePending(w, now, y, d) && SpansPassed(w, now, y)
  }

  lemma NothingEarlier(w: SpanRow, now: Moment, y: int, d: Date)
    requires RealSpanRow(w) && Valid(now.date) && Valid(d) && FirstLeft(w, now, y, d)
    ensures NoneBefore(w, now, d)
  {
    forall e | Valid(e) && InSpan(w.r, w.src, w.end, e) && Pending(w, now, e)
      ensures AtMost(d, e)
    {
      var k :| Within(e, Span(w.r, w.src, w.end, k));
      NoEarlierPending(w, now, y, d, k, e);
    }
  }

  /** A pending day of a later span before `d` would lie in the span of `d` as well. */
  lemma NoEarlierPending(w: SpanRow, now: Moment, y: int, d: Date, k: int, e: Date)
    requires RealSpanRow(w) && Valid(now.date) && Valid(d) && FirstLeft(w, now, y, d)
    requires Valid(e) && InSpanOf(w, k, e) && Pending(w, now, e)
    ensures AtMost(d, e)
  {
    SpanYears(w.r, w.src, w.end, k, e);
    assert !SpanPassed(w, now, k);
    if k < w.r.yearOf(now.date) - 1 {
      YearsInOrder(w.r, e, now.date);
    } else if k > y {
      AnniversaryIsReal(w.r, w.src, y);
      AnniversaryIsReal(w.r, w.src, k);
      YearsInOrder(w.r, Span(w.r, w.src, w.end, y).0, Span(w.r, w.src, w.end, k).0);
      assert Before(e, d) ==> InSpanOf(w, y, e);
    }
  }

  /** A day, or a day whose anchored time cannot be resolved: that error is the caller's. */
  datatype Resolved = At(date: Date) | NoTime(date: Date)

  /** The search looks at the spans from last year's to next year's. */
  ghost predicate OnTheWay(w: SpanRow, now: Moment, date: Date) {
    exists y :: w.r.yearOf(now.date) - 1 <= y <= w.r.yearOf(now.date) + 1 && InSpanOf(w, y, date)
  }

  ghost predicate Answers(w: SpanRow, now: Moment, next: Resolved) {
    && Valid(next.date) && OnTheWay(w, now, next.date)
    && match next
       case At(date) => IsNext(w, now, date)
       case NoTime(date) => w.time(date).None? && NoneBefore(w, now, date)
  }

  /** resolveYearlySchedule for a one-sided row, civil or Hebrew: from last year's span on, the
      next pending day of the first span that has one, unless a day on the way has no time. */
  method ResolveYearly(w: SpanRow, now: Moment) returns (next: Option<Resolved>)
    requires RealSpanRow(w) && Valid(now.date)
    ensures next.Some? && Answers(w, now, next.value)
  {
    var year := w.r.yearOf(now.date);
    for i := -1 to 3
      invariant i <= 1 && SpansPassed(w, now, year + i)
    {
      var on := w.r.anniversary(w.src, year + i);
      var off := w.r.anniversary(w.end, year + i);
      if Before(off, on) {
        off := w.r.anniversary(w.end, year + i + 1);
      }
      assert Span(w.r, w.src, w.end, year + i) == (on, off);
      SpanLength(w.r, w.src, w.end, year + i);
      next := FirstPending(w, now, year + i, on, off);
      if next.Some? {
        NothingEarlier(w, now, year + i, next.value.date);
        assert InSpanOf(w, year + i, next.value.date);
        return;
      }
      OneMorePassed(w, now, i);
    }
    return None;
  }

  /** Next year's span has not begun, so the walk always finds a day. */
  lemma NextYearIsPending(w: SpanRow, now: Moment)
    requires RealSpanRow(w) && Valid(now.date) && SpanTimed(w, w.r.yearOf(now.date) + 1)
    ensures !SpanPassed(w, now, w.r.yearOf(now.date) + 1)
  {
    var y := w.r.yearOf(now.date) + 1;
    var on := Span(w.r, w.src, w.end, y).0;
    AnniversaryIsReal(w.r, w.src, y);
    YearsInOrder(w.r, now.date, on);
    SpanLength(w.r, w.src, w.end, y);
    StringOrderIsDayOrder(Span(w.r, w.src, w.end, y).1, on);
    assert InSpanOf(w, y, on) && Pending(w, now, on);
  }

  lemma OneMorePassed(w: SpanRow, now: Moment, i: int)
    requires RealSpanRow(w) && Valid(now.date) && i <= 1 && SpanTimed(w, w.r.yearOf(now.date) + i)
    requires SpansPassed(w, now, w.r.yearOf(now.date) + i) && SpanPassed(w, now, w.r.yearOf(now.date) + i)
    ensures i < 1 && SpansPassed(w, now, w.r.yearOf(now.date) + i + 1)
  {
    if i == 1 {
      NextYearIsPending(w, now);
    }
  }

  ghost predicate WalkFinds(w: SpanRow, now: Moment, y: int, next: Option<Resolved>) {
    match next
    case None => SpanPassed(w, now, y) && SpanTimed(w, y)
    case Some(At(d)) => Valid(d) && InSpanOf(w, y, d) && Pending(w, now, d) && NonePending(w, now, y, d)
    case Some(NoTime(d)) => Valid(d) && InSpanOf(w, y, d) && w.time(d).None? && NonePending(w, now, y, d)
  }

  /** The walk over the days of one span. */
  method FirstPending(w: SpanRow, now: Moment, ghost y: int, on: Date, off: Date) returns (next: Option<Resolved>)
    requires Span(w.r, w.src, w.end, y) == (on, off) && Valid(on) && Valid(off) && DaysFrom(on, off) < LONGEST_YEAR
    ensures WalkFinds(w, now, y, next)
  {
    var d, n := on, 0;
    while AtMost(d, off) && n < 400
      invariant 0 <= n <= 400 && Valid(d) && AtMost(on, d) && DaysFrom(on, d) == n
      invariant NonePending(w, now, y, d)
      invariant forall e :: Valid(e) && InSpanOf(w, y, e) && Before(e, d) ==> w.time(e).Some?
    {
      if w.time(d).None? {
        return Some(NoTime(d));
      }
      if Pending(w, now, d) {
        return Some(At(d));
      }
      forall e | Valid(e)
        ensures Before(e, Next(d)) <==> AtMost(e, d)
      {
        SuccessorOf(d, e);
      }
      NextStep(d);
      SuccessorOf(d, on);
      d, n := Next(d), n + 1;
    }
    StringOrderIsDayOrder(off, d);
    next := None;
  }

  // ---- The next pair of a two-sided row ----

  /** A row with both sides: it goes on on the first day of a span and off on the last. */
  datatype PairRow = PairRow(r: Reckoning, src: Date, end: Date, on: Date -> Option<int>, off: Date -> Option<int>)
  datatype Pair = Pair(on: Moment, off: Moment)

  ghost predicate RealPairRow(w: PairRow) {
    RealReckoning(w.r) && Valid(w.src) && Valid(w.end)
  }

  /** The pair of the span of year `y`, if its times can be resolved. On a single day an OFF that
      is not after the ON is the next day's. */
  function PairOf(w: PairRow, y: int): Option<Pair> {
    var (on, off) := Span(w.r, w.src, w.end, y);
    if w.on(on).None? || w.off(off).None? then None
    else if off == on && w.off(off).value <= w.on(on).value then
      if w.off(Next(on)).None? then None
      else Some(Pair(Moment(on, w.on(on).value), Moment(Next(on), w.off(Next(on)).value)))
    else Some(Pair(Moment(on, w.on(on).value), Moment(off, w.off(off).value)))
  }

  /** A pair goes on on the anniversary of its first day at that day's time; it goes off later, at
      the time of its off day, which is the anniversary of its last day or, for a single day, the
      day after. */
  lemma PairInTime(w: PairRow, y: int)
    requires RealPairRow(w) && PairOf(w, y).Some?
    ensures var p, (on, off) := PairOf(w, y).value, Span(w.r, w.src, w.end, y);
      && p.on == Moment(on, w.on(on).value) && w.off(p.off.date) == Some(p.off.minute) && Later(p.off, p.on)
      && (p.off.date == off || (off == on && p.off.date == Next(on)))
  {
    var (on, off) := Span(w.r, w.src, w.end, y);
    AnniversaryIsReal(w.r, w.src, y);
    SpanLength(w.r, w.src, w.end, y);
    StringOrderIsDayOrder(off, on);
    NextDayYear(w.r, on);
  }

  /** The order of moments is that of their minutes. */
  lemma LaterByMinutes(a: Moment, b: Moment)
    requires Valid(a.date) && Valid(b.date) && 0 <= a.minute < 1440 && 0 <= b.minute < 1440
    ensures Later(a, b) <==> 1440 * DayNumber(a.date) + a.minute > 1440 * DayNumber(b.date) + b.minute
  {
    StringOrderIsDayOrder(b.date, a.date);
  }

  /** A day on is at most a year on. */
  lemma NextDayYear(r: Reckoning, d: Date)
    requires RealReckoning(r) && Valid(d)
    ensures Valid(Next(d)) && Before(d, Next(d)) && r.yearOf(d) <= r.yearOf(Next(d)) <= r.yearOf(d) + 1
  {
    var later := r.anniversary(d, r.yearOf(d) + 1);
    AnniversaryIsReal(r, d, r.yearOf(d) + 1);
    YearsInOrder(r, d, later);
    SuccessorOf(d, later);
    SuccessorOf(d, d);
    StringOrderIsDayOrder(later, Next(d));
    YearOrder(r, Next(d), later);
    YearOrder(r, d, Next(d));
  }

  /** A pair begins in its year and is over by the end of the next one. */
  lemma PairYears(w: PairRow, y: int)
    requires RealPairRow(w) && PairOf(w, y).Some?
    ensures var p := PairOf(w, y).value;
      Valid(p.on.date) && Valid(p.off.date) && w.r.yearOf(p.on.date) == y && w.r.yearOf(p.off.date) <= y + 1
      && AtMost(p.on.date, p.off.date)
  {
    var (on, off) := Span(w.r, w.src, w.end, y);
    AnniversaryIsReal(w.r, w.src, y);
    AnniversaryIsReal(w.r, w.end, y);
    AnniversaryIsReal(w.r, w.end, y + 1);
    SpanLength(w.r, w.src, w.end, y);
    StringOrderIsDayOrder(off, on);
    NextDayYear(w.r, on);
  }

  /** The pair of year `y` is the first of all years that is not over. */
  ghost predicate IsFirstOpen(w: PairRow, now: Moment, y: int) {
    && PairOf(w, y).Some? && Later(PairOf(w, y).value.off, now)
    && forall k :: k < y && PairOf(w, k).Some? ==> !Later(PairOf(w, k).value.off, now)
  }

  lemma OldPairsAreOver(w: PairRow, now: Moment, k: int)
    requires RealPairRow(w) && Valid(now.date) && k < w.r.yearOf(now.date) - 1 && PairOf(w, k).Some?
    ensures !Later(PairOf(w, k).value.off, now)
  {
    PairYears(w, k);
    YearsInOrder(w.r, PairOf(w, k).value.off.date, now.date);
  }

  lemma NextPairIsOpen(w: PairRow, now: Moment)
    requires RealPairRow(w) && Valid(now.date) && PairOf(w, w.r.yearOf(now.date) + 1).Some?
    ensures Later(PairOf(w, w.r.yearOf(now.date) + 1).value.off, now)
  {
    PairYears(w, w.r.yearOf(now.date) + 1);
    YearsInOrder(w.r, now.date, PairOf(w, w.r.yearOf(now.date) + 1).value.on.date);
  }

  /** resolveYearlySchedule for a two-sided row: the first pair that is not over, or the error of
      a year on the way whose times cannot be resolved. */
  method ResolvePair(w: PairRow, now: Moment) returns (pair: Option<Pair>)
    requires RealPairRow(w) && Valid(now.date)
    ensures pair.Some? ==> exists y :: IsFirstOpen(w, now, y) && pair == PairOf(w, y)
    ensures pair.None? ==>
      exists y :: w.r.yearOf(now.date) - 1 <= y <= w.r.yearOf(now.date) + 1 && PairOf(w, y).None?
  {
    var year := w.r.yearOf(now.date);
    for i := -1 to 3
      invariant i <= 1
      invariant forall k :: year - 1 <= k < year + i ==> PairOf(w, k).Some? && !Later(PairOf(w, k).value.off, now)
    {
      ghost var y := year + i;
      var on := w.r.anniversary(w.src, year + i);
      var off := w.r.anniversary(w.end, year + i);
      if Before(off, on) {
        off := w.r.anniversary(w.end, year + i + 1);
      }
      if w.on(on).None? || w.off(off).None? {
        assert PairOf(w, y).None?;
        return None;
      }
      var offDate, offMin := off, w.off(off).value;
      if offDate == on && offMin <= w.on(on).value {
        offDate := Next(on);
        if w.off(offDate).None? {
          assert PairOf(w, y).None?;
          return None;
        }
        offMin := w.off(offDate).value;
      }
      if Later(Moment(offDate, offMin), now) {
        forall k | k < y && PairOf(w, k).Some?
          ensures !Later(PairOf(w, k).value.off, now)
        {
          if k < year - 1 {
            OldPairsAreOver(w, now, k);
          }
        }
        assert IsFirstOpen(w, now, y);
        return Some(Pair(Moment(on, w.on(on).value), Moment(offDate, offMin)));
      }
      if i == 1 {
        NextPairIsOpen(w, now);
      }
    }
    assert false;
    pair := None;
  }

  // ---- The years the calendar's window tries ----

  function YearsAhead(days: nat): nat {
    (days + 364) / 365
  }

  /** As many as it takes to reach over the window in years of 365 days. */
  lemma YearsAheadReach(days: nat)
    requires days > 0
    ensures 365 * (YearsAhead(days) - 1) < days <= 365 * YearsAhead(days)
  {
  }

  /** expandSchedules looks at the spans that start from the year before the window's first
      date up to this many years after it. */
  predicate Tried(r: Reckoning, from: Date, days: nat, y: int) {
    r.yearOf(from) - 1 <= y <= r.yearOf(from) + YearsAhead(days)
  }

  predicate InWindow(from: Date, days: nat, date: Date) {
    Valid(date) && 0 <= DaysFrom(from, date) < days
  }

  /** No date of the window lies in a year beyond the tried ones. */
  predicate YearsSuffice(r: Reckoning, from: Date, days: nat) {
    days > 0 ==> r.yearOf(Shift(from, days - 1)) <= r.yearOf(from) + YearsAhead(days)
  }

  ghost predicate NoneMissed(r: Reckoning, from: Date, days: nat) {
    forall src, end, date, y ::
      Valid(src) && Valid(end) && InWindow(from, days, date) && Within(date, Span(r, src, end, y)) ==>
      Tried(r, from, days, y)
  }

  lemma YearOfWindow(r: Reckoning, from: Date, days: nat, date: Date)
    requires RealReckoning(r) && Valid(from) && InWindow(from, days, date) && YearsSuffice(r, from, days)
    ensures r.yearOf(from) <= r.yearOf(date) <= r.yearOf(from) + YearsAhead(days)
  {
    ShiftAddsDays(from, days - 1);
    StringOrderIsDayOrder(from, date);
    StringOrderIsDayOrder(date, Shift(from, days - 1));
    YearOrder(r, from, date);
    YearOrder(r, date, Shift(from, days - 1));
  }

  lemma SpanIsTried(r: Reckoning, src: Date, end: Date, from: Date, days: nat, date: Date, y: int)
    requires RealReckoning(r) && Valid(from) && InWindow(from, days, date) && YearsSuffice(r, from, days)
    requires Valid(src) && Valid(end) && Within(date, Span(r, src, end, y))
    ensures Tried(r, from, days, y)
  {
    SpanYears(r, src, end, y, date);
    YearOfWindow(r, from, days, date);
  }

  /** The year loop misses no span of any row exactly when the window's last date is in a year
      it tries. */
  lemma YearLoopIsComplete(r: Reckoning, from: Date, days: nat)
    requires RealReckoning(r) && Valid(from)
    ensures NoneMissed(r, from, days) <==> YearsSuffice(r, from, days)
  {
    if YearsSuffice(r, from, days) {
      forall src, end, date, y | Valid(src) && Valid(end) && InWindow(from, days, date)
        && Within(date, Span(r, src, end, y))
        ensures Tried(r, from, days, y)
      {
        SpanIsTried(r, src, end, from, days, date, y);
      }
    } else {
      var last := Shift(from, days - 1);
      ShiftAddsDays(from, days - 1);
      AnniversaryIsReal(r, last, r.yearOf(last));
      assert InWindow(from, days, last) && Within(last, Span(r, last, last, r.yearOf(last)));
      assert !Tried(r, from, days, r.yearOf(last));
    }
  }

  /** Every whole year between two dates has at least `shortest` days. */
  ghost predicate YearsLast(r: Reckoning, shortest: int) {
    forall a, b :: Valid(a) && Valid(b) && r.yearOf(a) + 1 < r.yearOf(b) ==>
      DaysFrom(a, b) > shortest * (r.yearOf(b) - r.yearOf(a) - 1)
  }

  /** With years of at least 353 days the calendar's own windows, 92 dates at most in the API
      and 400 in the preview, miss nothing: they have at most 353 dates a tried year, and one. */
  lemma ShortWindowsSuffice(r: Reckoning, from: Date, days: nat)
    requires RealReckoning(r) && Valid(from) && YearsLast(r, 353) && days <= 353 * YearsAhead(days) + 1
    ensures YearsSuffice(r, from, days)
  {
    if days > 0 {
      var last, n := Shift(from, days - 1), YearsAhead(days);
      ShiftAddsDays(from, days - 1);
      var ahead := r.yearOf(last) - r.yearOf(from);
      if ahead >= 2 {
        assert DaysFrom(from, last) > 353 * (ahead - 1);
        assert 353 * (ahead - 1) < 353 * n;
      }
    }
  }

  lemma {:induction false} CivilYearsLast(a: Date, b: Date)
    requires Valid(a) && Valid(b) && a.y < b.y
    ensures DaysFrom(a, b) > 365 * (b.y - a.y - 1)
  {
    YearsGrow(a.y + 1, b.y - a.y - 1);
    MonthTable(a.y);
    MonthsMonotone(a.y, a.mo, 12);
    YearLength(a.y);
    MonthsMonotone(b.y, 1, b.mo);
  }

  lemma {:induction false} YearsGrow(y: int, k: nat)
    ensures DaysBeforeYear(y) + 365 * k <= DaysBeforeYear(y + k)
    decreases k
  {
    if k > 0 {
      YearLength(y + k - 1);
      YearsGrow(y, k - 1);
    }
  }

  /** Civil windows never outrun the loop. */
  lemma CivilYearsSuffice(from: Date, days: nat)
    requires Valid(from)
    ensures YearsSuffice(CIVIL, from, days)
  {
    if days > 0 {
      var last, n := Shift(from, days - 1), YearsAhead(days);
      ShiftAddsDays(from, days - 1);
      if last.y > from.y {
        CivilYearsLast(from, last);
        assert 365 * (last.y - from.y - 1) < 365 * n;
      }
    }
  }
}
