/** One side of a schedule row through the calendar (expandSchedules, src/services/calendar.js):
    the events it makes in a window of dates. */
module RowCalendar {
  import opened Common
  import opened Civil
  import opened Exclusions
  import opened YearlySpans
  import opened Sorting
  import opened Plans
  import H = HolidayEvents

  datatype Shown = Shown(id: nat, off: bool, date: Date, minute: int)

  /** A side of a row and the window it is looked at through. `time` is its time on a date
      (sideTimeFor), `silent` whether the row's exclusions cover one, `years` how its yearly days
      are counted and `side` how its holidays fire; `other` is the time of the row's other side,
      if it has one. */
  datatype View = View(id: nat, off: bool, kind: Kind, time: Date -> Option<int>, silent: Date -> bool,
                       years: Reckoning, sky: H.Sky, side: H.Side, other: Option<Date -> Option<int>>,
                       from: Date, days: nat)

  /** Rows as they are saved. */
  predicate RealKind(kind: Kind) {
    match kind
    case WeeklyRow(_) => true
    case OnceRow(d) => Valid(d)
    case YearlyRow(_, date, end) => Valid(date) && Valid(end)
    case HolidayRow(_) => true
  }

  /** A row with both sides goes on on the first day of a range and off on the last; on a single
      day an OFF that is not after the ON is the next day's, at that day's time if it has one. */
  function PairSide(v: View, range: (Date, Date)): Option<(Date, int)>
    requires v.other.Some?
  {
    if !v.off then
      if v.time(range.0).None? then None else Some((range.0, v.time(range.0).value))
    else if v.time(range.1).None? then None
    else
      var at, on, next := v.time(range.1).value, v.other.value(range.0), Next(range.1);
      if on.Some? && range.1 == range.0 && at <= on.value then
        Some((next, if v.time(next).Some? then v.time(next).value else at))
      else Some((range.1, at))
  }

  ghost predicate InPair(v: View, date: Date, minute: int)
    requires v.kind.YearlyRow? && v.other.Some?
  {
    exists y :: PairSide(v, SpanIn(SpansOf(v), y)) == Some((date, minute))
  }

  /** The side acts on the date, exclusions aside. */
  ghost predicate Lands(v: View, date: Date, minute: int) {
    match v.kind
    case WeeklyRow(day) => (day.None? || Dow(date) == day.value) && v.time(date) == Some(minute)
    case OnceRow(d) => date == d && v.time(date) == Some(minute)
    case YearlyRow(_, first, last) =>
      if v.other.Some? then InPair(v, date, minute)
      else InSpan(v.years, first, last, date) && v.time(date) == Some(minute)
    case HolidayRow(keys) => H.Fires(v.sky, v.side, keys, H.Event(DayNumber(date), minute))
  }

  /** What the calendar means to show of the row. */
  ghost predicate Shows(v: View, e: Shown) {
    e.id == v.id && e.off == v.off && InWindow(v.from, v.days, e.date) && Lands(v, e.date, e.minute)
      && !v.silent(e.date)
  }

  /** The window shows everything of the row: its holidays are scanned to the end and its
      years are tried. */
  predicate Reached(v: View) {
    (v.kind.HolidayRow? ==> v.days < H.SCAN_LIMIT - 1) && (v.kind.YearlyRow? ==> YearsSuffice(v.years, v.from, v.days))
  }

  // ---- Single dates ----

  /** The row's event on one date. */
  ghost predicate AtDate(v: View, date: Date, e: Shown) {
    e.id == v.id && e.off == v.off && e.date == date && v.time(date) == Some(e.minute) && !v.silent(date)
  }

  method Push(v: View, date: Date) returns (out: seq<Shown>)
    ensures Distinct(out) && forall e :: e in out <==> AtDate(v, date, e)
  {
    var time := v.time(date);
    out := if time.Some? && !v.silent(date) then [Shown(v.id, v.off, date, time.value)] else [];
  }

  /** Dates named by their distance from a valid one. */
  lemma SameDistance(from: Date, d: Date)
    requires Valid(from) && Valid(d)
    ensures forall e :: Valid(e) ==> (DaysFrom(from, e) == DaysFrom(from, d) <==> e == d)
  {
    forall e | Valid(e)
      ensures DaysFrom(from, e) == DaysFrom(from, d) <==> e == d
    {
      StringOrderIsDayOrder(e, d);
    }
  }

  ghost predicate ListsWeekly(v: View, out: seq<Shown>) {
    Distinct(out) && forall e :: e in out <==> Shows(v, e)
  }

  method WeeklyEvents(v: View) returns (out: seq<Shown>)
    requires v.kind.WeeklyRow? && Valid(v.from)
    ensures ListsWeekly(v, out)
  {
    out := [];
    var d := v.from;
    for i := 0 to v.days
      invariant Valid(d) && DaysFrom(v.from, d) == i && ListsWeekly(v.(days := i), out)
    {
      if v.kind.day.None? || Dow(d) == v.kind.day.value {
        var one := Push(v, d);
        DistinctConcat(out, one);
        out := out + one;
      }
      SameDistance(v.from, d);
      NextStep(d);
      d := Next(d);
    }
  }

  predicate InStrings(from: Date, days: nat, date: Date) {
    AtMost(from, date) && AtMost(date, Shift(from, days - 1))
  }

  lemma StringsAreWindow(from: Date, days: nat, date: Date)
    requires Valid(from) && Valid(date)
    ensures InStrings(from, days, date) <==> InWindow(from, days, date)
  {
    ShiftAddsDays(from, days - 1);
    StringOrderIsDayOrder(from, date);
    StringOrderIsDayOrder(date, Shift(from, days - 1));
  }

  method PushInWindow(v: View, date: Date) returns (out: seq<Shown>)
    requires Valid(v.from) && Valid(date)
    ensures Distinct(out) && forall e :: e in out <==> AtDate(v, date, e) && InWindow(v.from, v.days, date)
  {
    out := [];
    StringsAreWindow(v.from, v.days, date);
    if InStrings(v.from, v.days, date) {
      out := Push(v, date);
    }
  }

  method OnceEvents(v: View) returns (out: seq<Shown>)
    requires v.kind.OnceRow? && RealKind(v.kind) && Valid(v.from)
    ensures Distinct(out) && forall e :: e in out <==> Shows(v, e)
  {
    out := PushInWindow(v, v.kind.date);
  }

  // ---- Yearly rows ----

  function SpansOf(v: View): SpanRow
    requires v.kind.YearlyRow?
  {
    SpanRow(v.years, v.kind.date, v.kind.end, v.time)
  }

  function SpanIn(w: SpanRow, y: int): (Date, Date) {
    Span(w.r, w.src, w.end, y)
  }

  ghost predicate ShownInRange(v: View, range: (Date, Date), e: Shown) {
    if v.other.Some? then
      && e.id == v.id && e.off == v.off && InWindow(v.from, v.days, e.date) && !v.silent(e.date)
      && PairSide(v, range) == Some((e.date, e.minute))
    else AtDate(v, e.date, e) && InWindow(v.from, v.days, e.date) && Within(e.date, range)
  }

  predicate Walkable(range: (Date, Date)) {
    Valid(range.0) && Valid(range.1) && 0 <= DaysFrom(range.0, range.1) < LONGEST_YEAR
  }

  lemma RangeLength(w: SpanRow, y: int)
    requires RealSpanRow(w)
    ensures Walkable(SpanIn(w, y))
  {
    SpanLength(w.r, w.src, w.end, y);
  }

  /** One side of one {on, off} pair. */
  method PairEvents(v: View, range: (Date, Date)) returns (out: seq<Shown>)
    requires Valid(v.from) && Walkable(range) && v.other.Some?
    ensures Distinct(out) && forall e :: e in out <==> ShownInRange(v, range, e)
  {
    out := [];
    NextStep(range.1);
    var found := PairSide(v, range);
    if found.Some? {
      var (date, minute) := found.value;
      StringsAreWindow(v.from, v.days, date);
      if InStrings(v.from, v.days, date) && !v.silent(date) {
        out := [Shown(v.id, v.off, date, minute)];
      }
    }
  }

  /** Every day of one yearly range, or the pair of a two-sided row. */
  method RangeEvents(v: View, range: (Date, Date)) returns (out: seq<Shown>)
    requires Valid(v.from) && Walkable(range)
    ensures Distinct(out) && forall e :: e in out <==> ShownInRange(v, range, e)
  {
    StringOrderIsDayOrder(range.0, range.1);
    StringOrderIsDayOrder(range.1, range.0);
    if v.other.Some? {
      out := PairEvents(v, range);
    } else if Before(range.0, range.1) {
      out := WalkRange(v, range);
    } else {
      out := PushInWindow(v, if v.off then range.1 else range.0);
    }
  }

  ghost predicate Walked(v: View, range: (Date, Date), n: int, out: seq<Shown>) {
    Distinct(out) && forall e :: e in out <==> ShownInRange(v, range, e) && 0 <= DaysFrom(range.0, e.date) < n
  }

  method WalkRange(v: View, range: (Date, Date)) returns (out: seq<Shown>)
    requires Valid(v.from) && Walkable(range) && v.other.None?
    ensures Distinct(out) && forall e :: e in out <==> ShownInRange(v, range, e)
  {
    out := [];
    var d, n := range.0, 0;
    while AtMost(d, range.1) && n < 400
      invariant 0 <= n <= 400 && Valid(d) && DaysFrom(range.0, d) == n && Walked(v, range, n, out)
      decreases 400 - n
    {
      var one := PushInWindow(v, d);
      WalkOne(v, range, d, n, out, one);
      out := out + one;
      NextStep(d);
      d, n := Next(d), n + 1;
    }
    forall e | ShownInRange(v, range, e)
      ensures 0 <= DaysFrom(range.0, e.date) < n
    {
      StringOrderIsDayOrder(range.0, e.date);
      StringOrderIsDayOrder(range.1, d);
      StringOrderIsDayOrder(range.1, e.date);
    }
  }

  lemma WalkOne(v: View, range: (Date, Date), d: Date, n: nat, out: seq<Shown>, one: seq<Shown>)
    requires Valid(range.0) && Valid(d) && AtMost(d, range.1) && v.other.None?
    requires DaysFrom(range.0, d) == n && Walked(v, range, n, out)
    requires Distinct(one) && forall e :: e in one <==> AtDate(v, d, e) && InWindow(v.from, v.days, d)
    ensures Walked(v, range, n + 1, out + one)
  {
    StringOrderIsDayOrder(d, range.0);
    SameDistance(range.0, d);
    DistinctConcat(out, one);
  }

  function FirstTried(v: View): int {
    v.years.yearOf(v.from) - 1
  }

  function YearsTried(v: View): nat {
    YearsAhead(v.days) + 2
  }

  /** The k-th span the loop tries shows the event. */
  ghost predicate ShownInYear(v: View, k: int, e: Shown)
    requires v.kind.YearlyRow?
  {
    ShownInRange(v, SpanIn(SpansOf(v), FirstTried(v) + k), e)
  }

  ghost function YearShows(v: View): (nat, Shown) -> bool
    requires v.kind.YearlyRow?
  {
    (k: nat, e: Shown) => ShownInYear(v, k, e)
  }

  /** Two spans the loop tries show the same event. */
  ghost predicate ListedTwice(v: View) {
    v.kind.YearlyRow? && ShownTwice(YearShows(v), YearsTried(v))
  }

  /** The year loop: the days of every span it tries, span by span. */
  method TriedYears(v: View) returns (out: seq<Shown>, ghost parts: seq<seq<Shown>>)
    requires v.kind.YearlyRow? && RealSpanRow(SpansOf(v)) && Valid(v.from)
    ensures out == Flatten(parts) && |parts| == YearsTried(v) && Parts(parts, YearShows(v))
  {
    out, parts := [], [];
    for i := -1 to YearsAhead(v.days) + 1
      invariant out == Flatten(parts) && |parts| == i + 1 && Parts(parts, YearShows(v))
    {
      var more := OneYear(v, i);
      FlattenMore(parts, more);
      OneMorePart(parts, more, YearShows(v));
      out, parts := out + more, parts + [more];
    }
  }

  /** One {on, off} pair of yearlyRangesAround and its days. */
  method OneYear(v: View, i: int) returns (out: seq<Shown>)
    requires v.kind.YearlyRow? && RealSpanRow(SpansOf(v)) && Valid(v.from) && i >= -1
    ensures Part(out, i + 1, YearShows(v))
  {
    var year := v.years.yearOf(v.from) + i;
    var on := v.years.anniversary(v.kind.date, year);
    var off := v.years.anniversary(v.kind.end, year);
    if Before(off, on) {
      off := v.years.anniversary(v.kind.end, year + 1);
    }
    assert (on, off) == SpanIn(SpansOf(v), FirstTried(v) + (i + 1));
    RangeLength(SpansOf(v), year);
    out := RangeEvents(v, (on, off));
  }

  ghost predicate ListsRow(v: View, out: seq<Shown>) {
    && (forall e :: e in out ==> Shows(v, e))
    && (Reached(v) ==> forall e :: Shows(v, e) ==> e in out)
    && (Distinct(out) <==> !ListedTwice(v))
  }

  /** A yearly row, civil or Hebrew: only its spans' days; all of the window when the years
      suffice; and each once unless two of the tried spans share one. */
  method YearlyEvents(v: View) returns (out: seq<Shown>)
    requires v.kind.YearlyRow? && RealSpanRow(SpansOf(v)) && Valid(v.from)
    ensures ListsRow(v, out)
  {
    ghost var parts;
    out, parts := TriedYears(v);
    Gathered(parts, YearShows(v));
    YearsListed(v);
  }

  /** What a tried span shows is shown, and in a window they reach nothing else is. */
  lemma YearsListed(v: View)
    requires v.kind.YearlyRow? && RealSpanRow(SpansOf(v)) && Valid(v.from)
    ensures forall e :: ShownBelow(YearShows(v), YearsTried(v), e) ==> Shows(v, e)
    ensures Reached(v) ==> forall e :: Shows(v, e) ==> ShownBelow(YearShows(v), YearsTried(v), e)
  {
    var shows, n := YearShows(v), YearsTried(v);
    forall e | ShownBelow(shows, n, e)
      ensures Shows(v, e)
    {
      var k :| 0 <= k < n && shows(k, e);
      ShownBySpan(v, k, e);
    }
    if Reached(v) {
      forall e | Shows(v, e)
        ensures ShownBelow(shows, n, e)
      {
        var k := ShownInTriedYear(v, e);
        assert shows(k, e);
      }
    }
  }

  lemma ShownBySpan(v: View, k: nat, e: Shown)
    requires v.kind.YearlyRow? && ShownInYear(v, k, e)
    ensures Shows(v, e)
  {
    if v.other.None? {
      assert Within(e.date, Span(v.years, v.kind.date, v.kind.end, FirstTried(v) + k));
    } else {
      assert PairSide(v, SpanIn(SpansOf(v), FirstTried(v) + k)) == Some((e.date, e.minute));
    }
  }

  /** A pair's day lies in the range's year or the next one. */
  lemma PairYear(v: View, y: int, date: Date, minute: int)
    requires v.kind.YearlyRow? && RealSpanRow(SpansOf(v)) && v.other.Some?
    requires PairSide(v, SpanIn(SpansOf(v), y)) == Some((date, minute))
    ensures Valid(date) && y <= v.years.yearOf(date) <= y + 1
    ensures !v.off ==> v.years.yearOf(date) == y
  {
    var w := SpansOf(v);
    AnniversaryIsReal(w.r, w.src, y);
    AnniversaryIsReal(w.r, w.end, y);
    AnniversaryIsReal(w.r, w.end, y + 1);
    NextDayYear(w.r, SpanIn(w, y).1);
  }

  lemma ShownInTriedYear(v: View, e: Shown) returns (k: nat)
    requires v.kind.YearlyRow? && RealSpanRow(SpansOf(v)) && Valid(v.from) && Reached(v) && Shows(v, e)
    ensures k < YearsTried(v) && ShownInYear(v, k, e)
  {
    var y;
    if v.other.None? {
      y :| Within(e.date, Span(v.years, v.kind.date, v.kind.end, y));
      SpanIsTried(v.years, v.kind.date, v.kind.end, v.from, v.days, e.date, y);
    } else {
      y :| PairSide(v, SpanIn(SpansOf(v), y)) == Some((e.date, e.minute));
      PairYear(v, y, e.date, e.minute);
      YearOfWindow(v.years, v.from, v.days, e.date);
    }
    k := y - FirstTried(v);
    assert SpanIn(SpansOf(v), FirstTried(v) + k) == Span(v.years, v.kind.date, v.kind.end, y);
  }

  // ---- When a yearly row is listed twice ----

  /** The span of year `y` wraps into the next year, and the next year's does not wrap. */
  predicate Overruns(w: SpanRow, y: int) {
    && Before(w.r.anniversary(w.end, y), w.r.anniversary(w.src, y))
    && !Before(w.r.anniversary(w.end, y + 1), w.r.anniversary(w.src, y + 1))
  }

  /** Only then can two spans of a row share a date. */
  lemma SharedBySpans(w: SpanRow, y: int, z: int, date: Date)
    requires RealSpanRow(w) && Valid(date) && y < z && Within(date, SpanIn(w, y)) && Within(date, SpanIn(w, z))
    ensures z == y + 1 && Overruns(w, y)
  {
    SpanYears(w.r, w.src, w.end, y, date);
    SpanYears(w.r, w.src, w.end, z, date);
    AnniversaryIsReal(w.r, w.end, y);
    AnniversaryIsReal(w.r, w.src, z);
    AnniversaryIsReal(w.r, w.end, z);
    YearsInOrder(w.r, w.r.anniversary(w.end, y), date);
    StringOrderIsDayOrder(w.r.anniversary(w.src, z), w.r.anniversary(w.end, z));
    StringOrderIsDayOrder(w.r.anniversary(w.src, z), date);
    StringOrderIsDayOrder(date, w.r.anniversary(w.end, z));
    StringOrderIsDayOrder(date, w.r.anniversary(w.end, y));
  }

  /** Such a year makes the next one's span end inside it, on a date both have. */
  lemma OverrunIsShared(w: SpanRow, y: int)
    requires RealSpanRow(w) && Overruns(w, y)
    ensures Within(w.r.anniversary(w.src, y + 1), SpanIn(w, y))
      && Within(w.r.anniversary(w.src, y + 1), SpanIn(w, y + 1))
  {
    var start, last := w.r.anniversary(w.src, y + 1), w.r.anniversary(w.end, y + 1);
    AnniversaryIsReal(w.r, w.src, y);
    AnniversaryIsReal(w.r, w.src, y + 1);
    AnniversaryIsReal(w.r, w.end, y + 1);
    YearsInOrder(w.r, w.r.anniversary(w.src, y), start);
    StringOrderIsDayOrder(start, last);
    StringOrderIsDayOrder(last, start);
  }

  /** A row without such a year is listed once. */
  lemma ListedOnce(v: View)
    requires v.kind.YearlyRow? ==>
      v.other.None? && RealSpanRow(SpansOf(v)) && forall y :: !Overruns(SpansOf(v), y)
    ensures !ListedTwice(v)
  {
    if ListedTwice(v) {
      var j, k, e :| 0 <= j < k < YearsTried(v) && YearShows(v)(j, e) && YearShows(v)(k, e);
      NotInTwoYears(v, j, k, e);
    }
  }

  lemma NotInTwoYears(v: View, j: nat, k: nat, e: Shown)
    requires v.kind.YearlyRow? && v.other.None? && RealSpanRow(SpansOf(v))
    requires j < k && ShownInYear(v, j, e) && ShownInYear(v, k, e)
    ensures Overruns(SpansOf(v), FirstTried(v) + j)
  {
    SharedBySpans(SpansOf(v), FirstTried(v) + j, FirstTried(v) + k, e.date);
  }

  /** A row with one is listed twice on the start of the next year's span, in any window that
      has that date, if it shows anything there. */
  lemma OverrunListedTwice(v: View, y: int, e: Shown)
    requires v.kind.YearlyRow? && v.other.None? && RealSpanRow(SpansOf(v)) && Valid(v.from) && Overruns(SpansOf(v), y)
    requires e.date == v.years.anniversary(v.kind.date, y + 1) && Reached(v) && Shows(v, e)
    ensures ListedTwice(v)
  {
    var w := SpansOf(v);
    OverrunIsShared(w, y);
    SpanIsTried(w.r, w.src, w.end, v.from, v.days, e.date, y);
    SpanIsTried(w.r, w.src, w.end, v.from, v.days, e.date, y + 1);
    var j, k := y - FirstTried(v), y + 1 - FirstTried(v);
    ShownInSpan(v, j, e);
    ShownInSpan(v, k, e);
    assert YearShows(v)(j, e) && YearShows(v)(k, e);
  }

  lemma ShownInSpan(v: View, k: nat, e: Shown)
    requires v.kind.YearlyRow? && v.other.None? && Shows(v, e)
    requires Within(e.date, SpanIn(SpansOf(v), FirstTried(v) + k))
    ensures ShownInYear(v, k, e)
  {
  }

  /** The ON side of a two-sided row is listed once. */
  lemma OnSideListedOnce(v: View)
    requires v.kind.YearlyRow? && v.other.Some? && !v.off && RealSpanRow(SpansOf(v))
    ensures !ListedTwice(v)
  {
    if ListedTwice(v) {
      var j, k, e :| 0 <= j < k < YearsTried(v) && YearShows(v)(j, e) && YearShows(v)(k, e);
      OneOnYear(v, j, k, e);
    }
  }

  lemma OneOnYear(v: View, j: nat, k: nat, e: Shown)
    requires v.kind.YearlyRow? && v.other.Some? && !v.off && RealSpanRow(SpansOf(v))
    requires ShownInYear(v, j, e) && ShownInYear(v, k, e)
    ensures j == k
  {
    PairYear(v, FirstTried(v) + j, e.date, e.minute);
    PairYear(v, FirstTried(v) + k, e.date, e.minute);
  }

  /** Of the civil rows it is the one from 29 to 28 February, in a leap year. */
  lemma CivilOverrun(w: SpanRow, y: int)
    requires w.r == CIVIL && Valid(w.src) && Valid(w.end)
    ensures Overruns(w, y) <==> MonthDay(w.src) == LEAP_DAY && MonthDay(w.end) == DAY_BEFORE && Leap(y)
  {
    AnniversaryNumber(w.src, y);
    AnniversaryNumber(w.end, y);
    AnniversaryNumber(w.src, y + 1);
    AnniversaryNumber(w.end, y + 1);
    MonthDayOrder(CivilAnniversary(w.src, y), CivilAnniversary(w.end, y));
    MonthDayOrder(CivilAnniversary(w.src, y + 1), CivilAnniversary(w.end, y + 1));
  }

  /** Such a row, in one of the API's windows: every year from 29 to 28 February, seen from
      February 2025 on. Its event of 28 February is listed twice. */
  lemma LeapRowListedTwice(v: View, minute: int)
    requires v.kind == YearlyRow(false, Date(2024, 2, 29), Date(2024, 2, 28)) && v.years == CIVIL
    requires v.other.None? && v.from == Date(2025, 2, 1) && v.days == 92
    requires v.time(Date(2025, 2, 28)) == Some(minute) && !v.silent(Date(2025, 2, 28))
    ensures Shows(v, Shown(v.id, v.off, Date(2025, 2, 28), minute)) && ListedTwice(v)
  {
    var w, e := SpansOf(v), Shown(v.id, v.off, Date(2025, 2, 28), minute);
    CivilIsReal();
    CivilYearsSuffice(v.from, v.days);
    CivilOverrun(w, 2024);
    OverrunIsShared(w, 2024);
    assert InWindow(v.from, v.days, e.date) && Within(e.date, Span(CIVIL, w.src, w.end, 2024));
    OverrunListedTwice(v, 2024, e);
  }

  // ---- Holiday rows ----

  ghost predicate ShownFrom(v: View, events: seq<H.Event>, e: Shown) {
    && e.id == v.id && e.off == v.off && Valid(e.date) && !v.silent(e.date)
    && H.Event(DayNumber(e.date), e.minute) in events
  }

  ghost predicate HolidayDone(v: View, events: seq<H.Event>, out: seq<Shown>) {
    Distinct(out) && forall e :: e in out <==> ShownFrom(v, events, e)
  }

  function DateOf(from: Date, day: int): Date {
    Shift(from, day - DayNumber(from))
  }

  lemma DateOfDay(from: Date, day: int)
    requires Valid(from)
    ensures HasNumber(DateOf(from, day), day)
    ensures forall e :: HasNumber(e, day) ==> e == DateOf(from, day)
  {
    ShiftAddsDays(from, day - DayNumber(from));
    forall e | HasNumber(e, day)
      ensures e == DateOf(from, day)
    {
      StringOrderIsDayOrder(e, DateOf(from, day));
    }
  }

  lemma HolidayOne(v: View, events: seq<H.Event>, k: nat, out: seq<Shown>)
    requires Valid(v.from) && k < |events| && H.Ascending(events) && HolidayDone(v, events[..k], out)
    ensures var date := DateOf(v.from, events[k].date);
      HolidayDone(v, events[..k + 1],
        if v.silent(date) then out else out + [Shown(v.id, v.off, date, events[k].minute)])
  {
    var date := DateOf(v.from, events[k].date);
    var one := Shown(v.id, v.off, date, events[k].minute);
    DateOfDay(v.from, events[k].date);
    assert events[..k + 1] == events[..k] + [events[k]];
    assert events[k] !in events[..k];
    DistinctConcat(out, [one]);
    forall e
      ensures ShownFrom(v, events[..k + 1], e) <==> ShownFrom(v, events[..k], e) || (!v.silent(date) && e == one)
    {
      if Valid(e.date) && H.Event(DayNumber(e.date), e.minute) == events[k] {
        assert HasNumber(e.date, events[k].date);
      }
    }
  }

  /** A holiday row, through the side's events on the window's dates. */
  method HolidayRowEvents(v: View) returns (out: seq<Shown>)
    requires v.kind.HolidayRow? && Valid(v.from)
    ensures ListsRow(v, out)
  {
    var first := DayNumber(v.from);
    var events := H.HolidaySideEvents(v.sky, v.side, v.kind.keys, first, first + v.days - 1);
    out := [];
    for k := 0 to |events|
      invariant HolidayDone(v, events[..k], out)
    {
      HolidayOne(v, events, k, out);
      var date := DateOf(v.from, events[k].date);
      if !v.silent(date) {
        out := out + [Shown(v.id, v.off, date, events[k].minute)];
      }
    }
    assert events[..|events|] == events;
  }

  /** One row's part of the calendar: nothing else, everything the window reaches, and each
      event once unless two yearly spans share it. */
  method RowEvents(v: View) returns (out: seq<Shown>)
    requires RealKind(v.kind) && RealReckoning(v.years) && Valid(v.from)
    ensures ListsRow(v, out)
  {
    match v.kind
    case WeeklyRow(_) => out := WeeklyEvents(v);
    case OnceRow(_) => out := OnceEvents(v);
    case YearlyRow(_, _, _) => out := YearlyEvents(v);
    case HolidayRow(_) => out := HolidayRowEvents(v);
  }

  // ---- All rows, in order ----

  /** By moment, then by row, then ON before OFF. */
  predicate Earlier(a: Shown, b: Shown) {
    if a.date != b.date then Before(a.date, b.date)
    else if a.minute != b.minute then a.minute < b.minute
    else if a.id != b.id then a.id < b.id
    else !a.off && b.off
  }

  /** Listed by date, then by minute, then by row, ON before OFF. */
  predicate InListOrder(events: seq<Shown>) {
    forall i, j :: 0 <= i < j < |events| ==>
      var a, b := events[i], events[j];
      && (a.date == b.date || Before(a.date, b.date))
      && (a.date == b.date ==> a.minute <= b.minute)
      && (a.date == b.date && a.minute == b.minute ==> a.id <= b.id)
      && (a.date == b.date && a.minute == b.minute && a.id == b.id && a.off ==> b.off)
  }

  predicate SideBefore(a: View, b: View) {
    a.id < b.id || (a.id == b.id && !a.off && b.off)
  }

  /** Row after row, each with its ON side first. */
  predicate Numbered(views: seq<View>) {
    forall j, k :: 0 <= j < k < |views| ==> SideBefore(views[j], views[k])
  }

  ghost predicate ShownOf(views: seq<View>, upTo: nat, e: Shown) {
    exists k: nat :: k < upTo <= |views| && Shows(views[k], e)
  }

  ghost predicate ReachedOf(views: seq<View>, upTo: nat, e: Shown) {
    exists k: nat :: k < upTo <= |views| && Shows(views[k], e) && Reached(views[k])
  }

  ghost predicate AnyTwice(views: seq<View>, upTo: nat) {
    exists k: nat :: k < upTo <= |views| && ListedTwice(views[k])
  }

  /** What the calendar lists of the first sides: nothing else, all of every side the window
      reaches, and each event once exactly when no yearly side has two spans that share one. */
  ghost predicate ListsRows(views: seq<View>, upTo: nat, out: seq<Shown>) {
    && upTo <= |views| && (forall e :: e in out ==> ShownOf(views, upTo, e))
    && (forall e :: ReachedOf(views, upTo, e) ==> e in out)
    && (Distinct(out) <==> !AnyTwice(views, upTo))
  }

  lemma MoreRowsMember(views: seq<View>, i: nat, out: seq<Shown>, more: seq<Shown>, e: Shown)
    requires i < |views| && Numbered(views)
    requires e in out ==> ShownOf(views, i, e)
    requires ReachedOf(views, i, e) ==> e in out
    requires e in more ==> Shows(views[i], e)
    requires Reached(views[i]) && Shows(views[i], e) ==> e in more
    ensures e in out + more ==> ShownOf(views, i + 1, e)
    ensures ReachedOf(views, i + 1, e) ==> e in out + more
    ensures e in out ==> e !in more
  {
    if k: nat :| k < i && Shows(views[k], e) {
      assert SideBefore(views[k], views[i]);
      assert ShownOf(views, i + 1, e);
    }
    if k: nat :| k < i + 1 && Shows(views[k], e) && Reached(views[k]) {
      assert k < i ==> ReachedOf(views, i, e);
    }
  }

  lemma MoreRowsMembers(views: seq<View>, i: nat, out: seq<Shown>, more: seq<Shown>)
    requires i < |views| && Numbered(views) && ListsRows(views, i, out) && ListsRow(views[i], more)
    ensures forall e :: e in out + more ==> ShownOf(views, i + 1, e)
    ensures forall e :: ReachedOf(views, i + 1, e) ==> e in out + more
    ensures forall e :: e in out ==> e !in more
  {
    forall e
      ensures e in out + more ==> ShownOf(views, i + 1, e)
      ensures ReachedOf(views, i + 1, e) ==> e in out + more
      ensures e in out ==> e !in more
    {
      MoreRowsMember(views, i, out, more, e);
    }
  }

  lemma MoreRowsDistinct(views: seq<View>, i: nat, out: seq<Shown>, more: seq<Shown>)
    requires i < |views| && forall e :: e in out ==> e !in more
    requires Distinct(out) <==> !AnyTwice(views, i)
    requires Distinct(more) <==> !ListedTwice(views[i])
    ensures Distinct(out + more) <==> !AnyTwice(views, i + 1)
  {
    DistinctConcat(out, more);
    if k: nat :| k < i && ListedTwice(views[k]) {
      assert AnyTwice(views, i + 1);
    }
    if k: nat :| k < i + 1 && ListedTwice(views[k]) {
      assert k < i ==> AnyTwice(views, i);
    }
  }

  lemma OneMoreRow(views: seq<View>, i: nat, out: seq<Shown>, more: seq<Shown>)
    requires i < |views| && Numbered(views) && ListsRows(views, i, out) && ListsRow(views[i], more)
    ensures ListsRows(views, i + 1, out + more)
  {
    MoreRowsMembers(views, i, out, more);
    MoreRowsDistinct(views, i, out, more);
  }

  lemma SortedLists(views: seq<View>, found: seq<Shown>, events: seq<Shown>)
    requires ListsRows(views, |views|, found) && Permutation(found, events)
    ensures ListsRows(views, |views|, events)
  {
    StaysDistinct(found, events);
    SameMembers(found, events);
  }

  ghost predicate RealView(v: View) {
    RealKind(v.kind) && RealReckoning(v.years) && Valid(v.from)
  }

  /** The loop of expandSchedules over the rows, and its sort. */
  method ListRows(views: seq<View>) returns (events: seq<Shown>)
    requires Numbered(views) && forall k :: 0 <= k < |views| ==> RealView(views[k])
    ensures ListsRows(views, |views|, events) && InListOrder(events)
  {
    var found: seq<Shown> := [];
    for i := 0 to |views|
      invariant ListsRows(views, i, found)
    {
      var more := RowEvents(views[i]);
      OneMoreRow(views, i, found, more);
      found := found + more;
    }
    events := Sort(found, Earlier);
    SortedLists(views, found, events);
  }
}
