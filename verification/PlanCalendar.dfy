/** A saved plan from end to end: what its rows do on every date is what its schedulers ask for,
    less what the user excludes and what dated schedulers take over. */
module PlanCalendar {
  import opened Common
  import opened Civil
  import opened Exclusions
  import opened YearlySpans
  import opened Sorting
  import opened Plans
  import opened RowCalendar
  import opened Calendar
  import H = HolidayEvents
  import C = ShellyCompile

  // ---- Schedulers and their rows ----

  /** A clock time is the same on every date, an anchored one what the date's anchor resolves to. */
  predicate AtTime(cx: Region, at: Timing, date: Date, minute: int) {
    match at
    case Clock(m) => minute == m
    case Anchored(anchor, offset) => cx.resolve(anchor, offset, DayNumber(date)) == Some(minute)
  }

  /** The holiday side of a timing has the same clock time, or the anchor's kind and times. */
  lemma HolidayTimes(cx: Region, minute: int, anchor: string, offset: int, n: int)
    ensures SideOf(cx, Clock(minute)) == H.Clock(minute)
    ensures var side := SideOf(cx, Anchored(anchor, offset));
      side.Anchored? && side.kind == cx.kindOf(anchor) && side.resolve(n) == cx.resolve(anchor, offset, n)
  {
  }

  /** What a scheduler asks for by itself: its time on its weekdays, on its one date, on every day
      of its yearly span; or the moments of its selected holidays. */
  ghost predicate Asks(cx: Region, s: Scheduler, date: Date, minute: int) {
    match s.when
    case Weekly(daily, days) => (daily || DayNumber(date) % 7 + 1 in days) && AtTime(cx, s.at, date, minute)
    case Once(_, d, _) => date == d && AtTime(cx, s.at, date, minute)
    case Yearly(hebrew, first, end) =>
      && InSpan(if hebrew then cx.alm.hebrew else CIVIL, first, LastDay(first, end), date)
      && AtTime(cx, s.at, date, minute)
    case Holiday(keys) => H.Fires(cx.sky, SideOf(cx, s.at), keys, H.Event(DayNumber(date), minute))
  }

  /** The saved rows of a plan and the calendar they are looked at in. */
  ghost predicate PlanIn(w: Window, rows: seq<Row>, relays: seq<int>, schedulers: seq<Scheduler>, user: seq<Item>) {
    w.rows == Alone(rows) && PlanOf(rows, relays, schedulers, user)
  }

  ghost predicate RowActs(w: Window, rows: seq<Row>, id: nat, relay: int, off: bool, date: Date, minute: int)
    requires w.rows == Alone(rows)
  {
    id < |rows| && rows[id].relay == relay && rows[id].off == off && Lands(ViewOf(w, id, off), date, minute)
  }

  /** A scheduler's row acts as the scheduler asks, and only then. */
  lemma MadeRowActs(w: Window, rows: seq<Row>, id: nat, s: Scheduler, user: seq<Item>, derived: seq<Item>, date: Date,
        minute: int)
    requires w.rows == Alone(rows) && id < |rows| && MadeBy(rows[id], s, user, derived)
    ensures Lands(ViewOf(w, id, rows[id].off), date, minute) ==> Asks(w.cx, s, date, minute)
    ensures Asks(w.cx, s, date, minute)
        && (s.when.Weekly? && !s.when.daily ==> rows[id].kind == WeeklyRow(Some(Dow(date))))
      ==> Lands(ViewOf(w, id, rows[id].off), date, minute)
  {
    var v := ViewOf(w, id, rows[id].off);
    assert v.other.None? && v.kind == rows[id].kind;
  }

  /** The kind of the scheduler's row for a date. */
  function KindFor(when: When, date: Date): Kind {
    match when
    case Weekly(daily, _) => WeeklyRow(if daily then None else Some(Dow(date)))
    case Holiday(keys) => HolidayRow(keys)
    case Yearly(hebrew, first, end) => YearlyRow(hebrew, first, LastDay(first, end))
    case Once(_, d, _) => OnceRow(d)
  }

  /** Every channel of the plan has it. */
  lemma RowForDate(rows: seq<Row>, relays: seq<int>, schedulers: seq<Scheduler>, user: seq<Item>, derived: seq<Item>,
        relay: int, s: Scheduler, date: Date) returns (id: nat)
    requires IsDerived(derived, schedulers) && RowsOf(rows, relays, schedulers, user, derived)
    requires relay in relays && s in schedulers
    requires s.when.Weekly? && !s.when.daily ==> Dow(date) in s.when.days
    ensures id < |rows| && MadeBy(rows[id], s, user, derived)
    ensures rows[id].relay == relay && rows[id].kind == KindFor(s.when, date)
  {
    var day := Dow(date);
    assert 1 <= day <= 7;
    var row := Row(relay, s.off, s.at, KindFor(s.when, date), ExclusionsFor(s.when, user, derived));
    assert MadeBy(row, s, user, derived);
    SomeMaker(schedulers, row, user, derived);
    assert multiset(rows)[row] > 0;
    assert row in rows;
    id :| 0 <= id < |rows| && rows[id] == row;
  }

  /** On every date and minute the rows of a channel act exactly when a scheduler of the plan asks
      for it and the channel is one of the plan's. */
  lemma RowsActAsAsked(w: Window, rows: seq<Row>, relays: seq<int>, schedulers: seq<Scheduler>, user: seq<Item>,
        relay: int, off: bool, date: Date, minute: int)
    requires PlanIn(w, rows, relays, schedulers, user)
    ensures (exists id: nat :: RowActs(w, rows, id, relay, off, date, minute)) <==>
      relay in relays && exists s :: s in schedulers && s.off == off && Asks(w.cx, s, date, minute)
  {
    if id: nat :| RowActs(w, rows, id, relay, off, date, minute) {
      var derived, s := RowMaker(rows, relays, schedulers, user, rows[id]);
      MadeRowActs(w, rows, id, s, user, derived, date, minute);
    }
    if s :| relay in relays && s in schedulers && s.off == off && Asks(w.cx, s, date, minute) {
      var id := AskedRowActs(w, rows, relays, schedulers, user, relay, s, date, minute);
    }
  }

  lemma AskedRowActs(w: Window, rows: seq<Row>, relays: seq<int>, schedulers: seq<Scheduler>, user: seq<Item>,
        relay: int, s: Scheduler, date: Date, minute: int) returns (id: nat)
    requires PlanIn(w, rows, relays, schedulers, user) && relay in relays && s in schedulers
    requires Asks(w.cx, s, date, minute)
    ensures RowActs(w, rows, id, relay, s.off, date, minute)
  {
    var derived :| IsDerived(derived, schedulers) && RowsOf(rows, relays, schedulers, user, derived);
    id := RowForDate(rows, relays, schedulers, user, derived, relay, s, date);
    MadeRowActs(w, rows, id, s, user, derived, date, minute);
  }

  // ---- With the exclusions ----

  /** A scheduler is heard on a date that the user does not exclude; a weekly one only where no
      dated scheduler of the plan takes over. */
  ghost predicate Heard(alm: Almanac, schedulers: seq<Scheduler>, user: seq<Item>, s: Scheduler, date: Date) {
    !UserExcludes(alm, user, date) && (s.when.Weekly? ==> !Replaced(alm, schedulers, date))
  }

  ghost predicate Asked(w: Window, schedulers: seq<Scheduler>, user: seq<Item>, s: Scheduler, off: bool, date: Date,
    minute: int)
  {
    && s in schedulers && s.off == off && Asks(w.cx, s, date, minute)
    && Heard(w.cx.alm, schedulers, user, s, date)
  }

  ghost predicate ShownFor(w: Window, rows: seq<Row>, relay: int, e: Shown)
    requires w.rows == Alone(rows)
  {
    RowShows(w, e) && rows[e.id].relay == relay
  }

  lemma ShownIsAsked(w: Window, rows: seq<Row>, relays: seq<int>, schedulers: seq<Scheduler>, user: seq<Item>,
        relay: int, e: Shown)
    requires PlanIn(w, rows, relays, schedulers, user) && ShownFor(w, rows, relay, e)
    requires RealAlmanac(w.cx.alm) && RealSchedulers(schedulers)
    ensures relay in relays && exists s :: Asked(w, schedulers, user, s, e.off, e.date, e.minute)
  {
    var derived, s := RowMaker(rows, relays, schedulers, user, rows[e.id]);
    MadeRowActs(w, rows, e.id, s, user, derived, e.date, e.minute);
    PlanIsExact(rows, relays, schedulers, user, rows[e.id], w.cx.alm, e.date);
    assert !Silent(w.cx.alm, rows[e.id], e.date);
    assert Asked(w, schedulers, user, s, e.off, e.date, e.minute);
  }

  lemma AskedIsShown(w: Window, rows: seq<Row>, relays: seq<int>, schedulers: seq<Scheduler>, user: seq<Item>,
        relay: int, s: Scheduler, date: Date, minute: int) returns (id: nat)
    requires PlanIn(w, rows, relays, schedulers, user) && InWindow(w.from, w.days, date) && relay in relays
    requires RealAlmanac(w.cx.alm) && RealSchedulers(schedulers)
    requires Asked(w, schedulers, user, s, s.off, date, minute)
    ensures ShownFor(w, rows, relay, Shown(id, s.off, date, minute))
  {
    var derived :| IsDerived(derived, schedulers) && RowsOf(rows, relays, schedulers, user, derived);
    id := RowForDate(rows, relays, schedulers, user, derived, relay, s, date);
    MadeRowActs(w, rows, id, s, user, derived, date, minute);
    assert rows[id] in rows;
    PlanIsExact(rows, relays, schedulers, user, rows[id], w.cx.alm, date);
    assert !Silent(w.cx.alm, rows[id], date);
  }

  /** The calendar shows an event of a channel exactly when a scheduler of the plan asks for it and
      is heard. */
  lemma PlanShowsWhatIsAsked(w: Window, rows: seq<Row>, relays: seq<int>, schedulers: seq<Scheduler>, user: seq<Item>,
        relay: int, off: bool, date: Date, minute: int)
    requires PlanIn(w, rows, relays, schedulers, user) && InWindow(w.from, w.days, date)
    requires RealAlmanac(w.cx.alm) && RealSchedulers(schedulers)
    ensures (exists id: nat :: ShownFor(w, rows, relay, Shown(id, off, date, minute))) <==>
      relay in relays && exists s :: Asked(w, schedulers, user, s, off, date, minute)
  {
    if id: nat :| ShownFor(w, rows, relay, Shown(id, off, date, minute)) {
      ShownIsAsked(w, rows, relays, schedulers, user, relay, Shown(id, off, date, minute));
    }
    if s :| relay in relays && Asked(w, schedulers, user, s, off, date, minute) {
      var id := AskedIsShown(w, rows, relays, schedulers, user, relay, s, date, minute);
    }
  }

  // ---- Calendar against tick ----

  /** A weekly or one-time side with a clock time, as the tick reads the stored row. */
  function TickSideOf(row: Row): C.Side
    requires row.at.Clock? && (row.kind.WeeklyRow? || row.kind.OnceRow?)
  {
    C.Side(Some(row.at.minute), if row.kind.WeeklyRow? then row.kind.day else None,
      if row.kind.OnceRow? then Some(row.kind.date) else None)
  }

  function TickRowOf(s: Stored, row: Row): C.Row
    requires row.at.Clock? && (row.kind.WeeklyRow? || row.kind.OnceRow?)
  {
    C.Row(row.kind.WeeklyRow?, row.relay, TickSideOf(row), TickSideOf(row), Exclusion(s.legacy, row.exclusions))
  }

  /** The calendar shows such a side on a date of its window exactly when the tick has it due. */
  lemma CalendarMirrorsTick(w: Window, id: nat, off: bool, date: Date, minute: int)
    requires HasSide(w, id, off) && InWindow(w.from, w.days, date)
    requires var row := SideRow(w.rows[id], off).value;
      row.at.Clock? && (row.kind.OnceRow? || (row.kind.WeeklyRow? && row.kind.day != Some(0)))
    ensures var row := SideRow(w.rows[id], off).value;
      RowShows(w, Shown(id, off, date, minute)) <==>
        C.RowDue(w.cx.alm, TickRowOf(w.rows[id], row), date, minute, C.Call(row.relay - 1, !off))
  {
  }
}
