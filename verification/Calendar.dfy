/** expandSchedules (src/services/calendar.js) over a list of rows, and what a saved plan looks
    like through it. */
module Calendar {
  import opened Common
  import opened Civil
  import opened Exclusions
  import opened YearlySpans
  import opened Sorting
  import opened Plans
  import opened RowCalendar
  import H = HolidayEvents

  /** The Hebrew calendar and the zmanim of a region; `resolve` is the minute of an anchor on
      a day number, or none when the offset falls outside the day. */
  datatype Region = Region(alm: Almanac, sky: H.Sky, kindOf: string -> H.Kind,
        resolve: (string, int, int) -> Option<int>)

  /** The row's time on a date: sideTimeFor. */
  function TimeOn(cx: Region, at: Timing, date: Date): Option<int> {
    match at
    case Clock(minute) => Some(minute)
    case Anchored(anchor, offset) => cx.resolve(anchor, offset, DayNumber(date))
  }

  function SideOf(cx: Region, at: Timing): H.Side {
    match at
    case Clock(minute) => H.Clock(minute)
    case Anchored(anchor, offset) => H.Anchored(cx.kindOf(anchor), (n) => cx.resolve(anchor, offset, n))
  }

  function YearsOf(cx: Region, kind: Kind): Reckoning {
    ReckoningOf(cx.alm, kind.YearlyRow? && kind.hebrew)
  }

  function TimeOf(cx: Region, row: Row): Date -> Option<int> {
    (date) => TimeOn(cx, row.at, date)
  }

  // ---- Stored rows ----

  /** A stored row: an ON side, an OFF side or both, each as a single-action row, the single
      exclusion that older rows have beside their list, and the minutes last stored of its sides. */
  datatype Stored = Stored(on: Option<Row>, off: Option<Row>, legacy: Option<Item>, onTime: int, offTime: int)

  function SideRow(s: Stored, off: bool): Option<Row> {
    if off then s.off else s.on
  }

  /** The sides share the kind of the row: a weekday or date of their own, or the same range or
      holidays. */
  predicate OneKind(a: Kind, b: Kind) {
    (a.WeeklyRow? && b.WeeklyRow?) || (a.OnceRow? && b.OnceRow?) || a == b
  }

  predicate RealStored(s: Stored) {
    && (s.on.Some? ==> RealKind(s.on.value.kind)) && (s.off.Some? ==> RealKind(s.off.value.kind))
    && (s.on.Some? && s.off.Some? ==>
      OneKind(s.on.value.kind, s.off.value.kind) && s.on.value.exclusions == s.off.value.exclusions)
  }

  predicate Precedes(day: int, minute: int, day': int, minute': int) {
    day < day' || (day == day' && minute < minute')
  }

  /** The display flag of a row whose OFF comes first: in the week when both sides have a weekday,
      or of its two dates. */
  predicate Reversed(s: Stored) {
    s.on.Some? && s.off.Some? &&
    match (s.on.value.kind, s.off.value.kind)
    case (WeeklyRow(on), WeeklyRow(off)) =>
      on.Some? && off.Some? && Precedes(off.value, s.offTime, on.value, s.onTime)
    case (OnceRow(on), OnceRow(off)) => Before(off, on) || (off == on && s.offTime < s.onTime)
    case _ => false
  }

  function SilentOn(cx: Region, s: Stored, row: Row): Date -> bool {
    (date) => InExclusion(cx.alm, Exclusion(s.legacy, row.exclusions), date)
  }

  /** A list of rows and the window they are shown in. */
  datatype Window = Window(cx: Region, rows: seq<Stored>, from: Date, days: nat)

  predicate HasSide(w: Window, id: nat, off: bool) {
    id < |w.rows| && SideRow(w.rows[id], off).Some?
  }

  /** One side of row `id`, through the window. */
  function ViewOf(w: Window, id: nat, off: bool): View
    requires HasSide(w, id, off)
  {
    var s := w.rows[id];
    var row := SideRow(s, off).value;
    var other := if SideRow(s, !off).Some? then Some(TimeOf(w.cx, SideRow(s, !off).value)) else None;
    View(id, off, row.kind, TimeOf(w.cx, row), SilentOn(w.cx, s, row), YearsOf(w.cx, row.kind), w.cx.sky,
      SideOf(w.cx, row.at), other, w.from, w.days)
  }

  function SidesOf(w: Window, id: nat): (views: seq<View>)
    requires id < |w.rows|
    ensures Numbered(views)
    ensures forall v :: v in views <==> exists off :: HasSide(w, id, off) && v == ViewOf(w, id, off)
  {
    (if HasSide(w, id, false) then [ViewOf(w, id, false)] else [])
    + (if HasSide(w, id, true) then [ViewOf(w, id, true)] else [])
  }

  /** The sides of the first `n` rows, in order. */
  function ViewsUpTo(w: Window, n: nat): (views: seq<View>)
    requires n <= |w.rows|
  {
    if n == 0 then [] else ViewsUpTo(w, n - 1) + SidesOf(w, n - 1)
  }

  ghost predicate IsSide(w: Window, n: nat, v: View) {
    v.id < n && HasSide(w, v.id, v.off) && v == ViewOf(w, v.id, v.off)
  }

  /** One more row's sides. */
  lemma OneMoreId(w: Window, n: nat, front: seq<View>)
    requires n < |w.rows| && forall v :: v in front <==> IsSide(w, n, v)
    ensures forall v :: v in front + SidesOf(w, n) <==> IsSide(w, n + 1, v)
  {
    forall v
      ensures v in SidesOf(w, n) <==> v.id == n && IsSide(w, n + 1, v)
    {
    }
  }

  lemma NumberedTogether(front: seq<View>, last: seq<View>)
    requires Numbered(front) && Numbered(last) && forall u, v :: u in front && v in last ==> SideBefore(u, v)
    ensures Numbered(front + last)
  {
    forall j, k | 0 <= j < k < |front + last|
      ensures SideBefore((front + last)[j], (front + last)[k])
    {
      if j < |front| <= k {
        assert front[j] in front && last[k - |front|] in last;
      }
    }
  }

  lemma {:induction false} ViewsMembers(w: Window, n: nat)
    requires n <= |w.rows|
    ensures forall v :: v in ViewsUpTo(w, n) <==> IsSide(w, n, v)
    ensures Numbered(ViewsUpTo(w, n))
  {
    if n > 0 {
      ViewsMembers(w, n - 1);
      OneMoreId(w, n - 1, ViewsUpTo(w, n - 1));
      NumberedTogether(ViewsUpTo(w, n - 1), SidesOf(w, n - 1));
    }
  }

  function Through(w: Window): seq<View> {
    ViewsUpTo(w, |w.rows|)
  }

  /** The calendar lists exactly what the rows' sides show. */
  ghost predicate Lists(w: Window, events: seq<Shown>) {
    ListsRows(Through(w), |Through(w)|, events)
  }

  /** expandSchedules: what the rows show in the window, each event under its row, in order, and
      with its row's flag. */
  method ExpandSchedules(w: Window) returns (events: seq<Shown>, reversed: seq<bool>)
    requires Valid(w.from) && RealAlmanac(w.cx.alm) && forall s :: s in w.rows ==> RealStored(s)
    ensures Lists(w, events) && InListOrder(events)
    ensures |reversed| == |events| && forall i :: 0 <= i < |events| ==>
      events[i].id < |w.rows| && reversed[i] == Reversed(w.rows[events[i].id])
  {
    CivilIsReal();
    ViewsMembers(w, |w.rows|);
    var views := Through(w);
    forall k | 0 <= k < |views|
      ensures RealView(views[k])
    {
      assert views[k] in views;
      assert w.rows[views[k].id] in w.rows;
    }
    events := ListRows(views);
    forall i | 0 <= i < |events|
      ensures events[i].id < |w.rows|
    {
      Listed(w, events, events[i]);
    }
    reversed := seq(|events|, i requires 0 <= i < |events| => Reversed(w.rows[events[i].id]));
  }

  ghost predicate RowShows(w: Window, e: Shown) {
    HasSide(w, e.id, e.off) && Shows(ViewOf(w, e.id, e.off), e)
  }

  /** Every listed event is shown by its row, and all a reached side shows is listed. */
  lemma Listed(w: Window, events: seq<Shown>, e: Shown)
    requires Lists(w, events)
    ensures e in events ==> RowShows(w, e)
    ensures RowShows(w, e) && Reached(ViewOf(w, e.id, e.off)) ==> e in events
  {
    ViewsMembers(w, |w.rows|);
    var views := Through(w);
    if e in events {
      var k: nat :| k < |views| && Shows(views[k], e);
      assert views[k] in views;
    }
    if RowShows(w, e) && Reached(ViewOf(w, e.id, e.off)) {
      assert ViewOf(w, e.id, e.off) in views;
      var k: nat :| k < |views| && views[k] == ViewOf(w, e.id, e.off);
      assert ReachedOf(views, |views|, e);
    }
  }

  /** What the flag tells of the listed events: of one week, or of a one-time row, the OFF is the
      earlier one exactly then, as long as the sides' times are the stored ones. */
  lemma ReversedMeansOffFirst(w: Window, id: nat, e: Shown, f: Shown)
    requires RowShows(w, e) && RowShows(w, f) && e.id == f.id == id && !e.off && f.off
    requires RealStored(w.rows[id]) && e.minute == w.rows[id].onTime && f.minute == w.rows[id].offTime
    requires var on, off := w.rows[id].on.value.kind, w.rows[id].off.value.kind;
      on.OnceRow? || (on.WeeklyRow? && off.WeeklyRow? && on.day.Some? && off.day.Some?
                      && DayNumber(e.date) / 7 == DayNumber(f.date) / 7)
    ensures Reversed(w.rows[id]) <==> Before(f.date, e.date) || (f.date == e.date && f.minute < e.minute)
  {
    StringOrderIsDayOrder(f.date, e.date);
  }

  // ---- A plan through the calendar ----

  function OneSided(row: Row): Stored {
    if row.off then Stored(None, Some(row), None, 0, 0) else Stored(Some(row), None, None, 0, 0)
  }

  /** Plan rows as they are stored: one side each. */
  function Alone(rows: seq<Row>): (stored: seq<Stored>)
    ensures |stored| == |rows|
    ensures forall i :: 0 <= i < |rows| ==> stored[i] == OneSided(rows[i])
  {
    seq(|rows|, i requires 0 <= i < |rows| => OneSided(rows[i]))
  }

  /** A one-time or yearly event, civil or Hebrew, covers its date for the plan it came from. */
  lemma DatedEventCovers(w: Window, rows: seq<Row>, relays: seq<int>, schedulers: seq<Scheduler>, user: seq<Item>,
        f: Shown)
    requires w.rows == Alone(rows) && PlanOf(rows, relays, schedulers, user) && RowShows(w, f)
    requires rows[f.id].kind.OnceRow? || rows[f.id].kind.YearlyRow?
    ensures Replaced(w.cx.alm, schedulers, f.date)
  {
    var derived, s := RowMaker(rows, relays, schedulers, user, rows[f.id]);
    assert Covers(w.cx.alm, s.when, f.date);
  }

  /** The calendar never shows a weekly event of a plan on a day when a one-time or yearly
      scheduler of the same plan fires. */
  lemma DatedReplacesWeekly(w: Window, rows: seq<Row>, relays: seq<int>, schedulers: seq<Scheduler>, user: seq<Item>,
        e: Shown, f: Shown)
    requires w.rows == Alone(rows) && PlanOf(rows, relays, schedulers, user)
    requires RealAlmanac(w.cx.alm) && RealSchedulers(schedulers) && RowShows(w, e) && RowShows(w, f)
    requires rows[e.id].kind.WeeklyRow? && (rows[f.id].kind.OnceRow? || rows[f.id].kind.YearlyRow?)
    ensures e.date != f.date
  {
    DatedEventCovers(w, rows, relays, schedulers, user, f);
    PlanIsExact(rows, relays, schedulers, user, rows[e.id], w.cx.alm, e.date);
    assert !Silent(w.cx.alm, rows[e.id], e.date);
  }

  // ---- The stored next occurrence ----

  /** The side has no exclusions. */
  predicate Unexcluded(w: Window, id: nat, off: bool)
    requires HasSide(w, id, off)
  {
    w.rows[id].legacy.None? && SideRow(w.rows[id], off).value.exclusions == []
  }

  lemma NothingSilent(w: Window, id: nat, off: bool, date: Date)
    requires HasSide(w, id, off) && Unexcluded(w, id, off)
    ensures !ViewOf(w, id, off).silent(date)
  {
  }

  /** What resolveYearlySchedule stores for an unexcluded one-sided row, civil or Hebrew, at a
      clock or an anchored time, is the first later event of the row that the calendar lists, in
      any window that holds it. */
  lemma StoredIsFirstListed(w: Window, id: nat, off: bool, events: seq<Shown>, now: Moment, next: Date)
    requires HasSide(w, id, off) && !HasSide(w, id, !off) && Unexcluded(w, id, off) && Lists(w, events)
    requires ViewOf(w, id, off).kind.YearlyRow? && Reached(ViewOf(w, id, off)) && InWindow(w.from, w.days, next)
    requires IsNext(SpansOf(ViewOf(w, id, off)), now, next)
    ensures Shown(id, off, next, ViewOf(w, id, off).time(next).value) in events
    ensures forall e :: e in events && e.id == id && Later(Moment(e.date, e.minute), now) ==> AtMost(next, e.date)
  {
    var v := ViewOf(w, id, off);
    var stored := Shown(id, off, next, v.time(next).value);
    NothingSilent(w, id, off, next);
    assert RowShows(w, stored);
    Listed(w, events, stored);
    forall e | e in events && e.id == id && Later(Moment(e.date, e.minute), now)
      ensures AtMost(next, e.date)
    {
      Listed(w, events, e);
      assert e.off == off && Shows(v, e);
    }
  }

  function PairRowOf(w: Window, id: nat): PairRow
    requires HasSide(w, id, false) && HasSide(w, id, true) && ViewOf(w, id, false).kind.YearlyRow?
  {
    var v := ViewOf(w, id, false);
    PairRow(v.years, v.kind.date, v.kind.end, v.time, ViewOf(w, id, true).time)
  }

  /** What it stores for an unexcluded two-sided row: both events of the pair are listed, in any
      window that holds them. */
  lemma StoredPairIsListed(w: Window, id: nat, events: seq<Shown>, y: int)
    requires HasSide(w, id, false) && HasSide(w, id, true) && Unexcluded(w, id, false) && Lists(w, events)
    requires RealStored(w.rows[id]) && ViewOf(w, id, false).kind.YearlyRow? && RealReckoning(PairRowOf(w, id).r)
    requires YearsSuffice(PairRowOf(w, id).r, w.from, w.days) && PairOf(PairRowOf(w, id), y).Some?
    ensures var p := PairOf(PairRowOf(w, id), y).value;
      && (InWindow(w.from, w.days, p.on.date) ==> Shown(id, false, p.on.date, p.on.minute) in events)
      && (InWindow(w.from, w.days, p.off.date) ==> Shown(id, true, p.off.date, p.off.minute) in events)
  {
    var p := PairOf(PairRowOf(w, id), y).value;
    SideOfPair(w, id, false, y);
    SideOfPair(w, id, true, y);
    NothingSilent(w, id, false, p.on.date);
    NothingSilent(w, id, true, p.off.date);
    Listed(w, events, Shown(id, false, p.on.date, p.on.minute));
    Listed(w, events, Shown(id, true, p.off.date, p.off.minute));
  }

  lemma SideOfPair(w: Window, id: nat, off: bool, y: int)
    requires HasSide(w, id, false) && HasSide(w, id, true) && RealStored(w.rows[id])
    requires ViewOf(w, id, false).kind.YearlyRow? && PairOf(PairRowOf(w, id), y).Some?
    ensures var p := PairOf(PairRowOf(w, id), y).value; var m := if off then p.off else p.on;
      ViewOf(w, id, off).kind.YearlyRow? && InPair(ViewOf(w, id, off), m.date, m.minute)
  {
    var v, p := ViewOf(w, id, off), PairOf(PairRowOf(w, id), y).value;
    var m := if off then p.off else p.on;
    assert PairSide(v, SpanIn(SpansOf(v), y)) == Some((m.date, m.minute));
  }

  /** The same for what resolveHolidaySchedule stores for each side. */
  lemma StoredHolidayIsFirstListed(w: Window, id: nat, off: bool, events: seq<Shown>, now: H.Event, date: Date,
        minute: int)
    requires HasSide(w, id, off) && Unexcluded(w, id, off) && Lists(w, events)
    requires ViewOf(w, id, off).kind.HolidayRow? && Reached(ViewOf(w, id, off)) && InWindow(w.from, w.days, date)
    requires var v := ViewOf(w, id, off); H.IsNext(v.sky, v.side, v.kind.keys, now, MomentOf(date, minute))
    ensures Shown(id, off, date, minute) in events
    ensures forall e :: e in events && e.id == id && e.off == off && H.Before(now, MomentOf(e.date, e.minute)) ==>
      !H.Before(MomentOf(e.date, e.minute), MomentOf(date, minute))
  {
    NothingSilent(w, id, off, date);
    assert RowShows(w, Shown(id, off, date, minute));
    Listed(w, events, Shown(id, off, date, minute));
    forall e | e in events && e.id == id && e.off == off && H.Before(now, MomentOf(e.date, e.minute))
      ensures !H.Before(MomentOf(e.date, e.minute), MomentOf(date, minute))
    {
      Listed(w, events, e);
    }
  }

  function MomentOf(date: Date, minute: int): H.Event {
    H.Event(DayNumber(date), minute)
  }
}
