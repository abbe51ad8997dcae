/** buildDevicePayload (src/services/schedulePayload.js): the entries an ESP32 is sent, their
    order, and how today's weekly entries compare with what the server tick has due. */
module DevicePayload {
  import opened Common
  import opened Civil
  import opened Exclusions
  import opened ShellyCompile

  /** A schedule row with its id; the rows of a device come in id order. */
  datatype Sched = Sched(id: int, row: Row)

  /** What goes on the wire; day 0 is every day. */
  datatype Entry =
    | Recurring(sid: int, relay: int, day: int, minute: int, on: bool)
    | Dated(sid: int, relay: int, date: Date, minute: int, on: bool)

  predicate Rising(scheds: seq<Sched>) {
    forall i, j :: 0 <= i < j < |scheds| ==> scheds[i].id < scheds[j].id
  }

  function WireDay(side: Side): int {
    if side.day.Some? then side.day.value else 0
  }

  /** A fixed day under a weekday exclusion of the row is judged by that exclusion alone;
      any other entry by the whole exclusion of today. */
  predicate EntryExcluded(alm: Almanac, x: Exclusion, day: int, today: Date) {
    if x.legacy.Some? && x.legacy.value.WeekdayItem? && day != 0 then day in x.legacy.value.days
    else InExclusion(alm, x, today)
  }

  /** The entry of one side, if any. */
  function SideEntry(alm: Almanac, s: Sched, on: bool, today: Date): Option<Entry> {
    var side := if on then s.row.on else s.row.off;
    if side.time.None? then None
    else if s.row.weekly then
      if EntryExcluded(alm, s.row.excl, WireDay(side), today) then None
      else Some(Recurring(s.id, s.row.relay, WireDay(side), side.time.value, on))
    else if side.date.None? || InExclusion(alm, s.row.excl, side.date.value) then None
    else Some(Dated(s.id, s.row.relay, side.date.value, side.time.value, on))
  }

  /** By schedule, ON before OFF: the order the canonical string relies on. */
  predicate InOrder(s: seq<Entry>) {
    forall i, j :: 0 <= i < j < |s| ==> s[i].sid <= s[j].sid && (s[i].sid == s[j].sid ==> s[i].on && !s[j].on)
  }

  ghost predicate EntryOf(alm: Almanac, scheds: seq<Sched>, today: Date, e: Entry) {
    exists s :: s in scheds && SideEntry(alm, s, e.on, today) == Some(e)
  }

  /** The recurring and the dated entries of the rows, each list in order. */
  ghost predicate Built(alm: Almanac, scheds: seq<Sched>, today: Date, events: seq<Entry>, once: seq<Entry>) {
    && InOrder(events) && InOrder(once)
    && (forall e :: e in events <==> e.Recurring? && EntryOf(alm, scheds, today, e))
    && (forall e :: e in once <==> e.Dated? && EntryOf(alm, scheds, today, e))
  }

  function Pair(on: Option<Entry>, off: Option<Entry>): seq<Entry> {
    (if on.Some? then [on.value] else []) + (if off.Some? then [off.value] else [])
  }

  lemma PairLater(list: seq<Entry>, on: Option<Entry>, off: Option<Entry>, sid: int)
    requires InOrder(list) && forall e :: e in list ==> e.sid < sid
    requires on.Some? ==> on.value.sid == sid && on.value.on
    requires off.Some? ==> off.value.sid == sid && !off.value.on
    ensures InOrder(list + Pair(on, off))
    ensures forall e :: e in list + Pair(on, off) <==> e in list || on == Some(e) || off == Some(e)
  {
    var pair := Pair(on, off);
    assert forall e :: e in pair <==> on == Some(e) || off == Some(e);
    forall i, j | 0 <= i < j < |list + pair|
      ensures (list + pair)[i].sid <= (list + pair)[j].sid
      ensures (list + pair)[i].sid == (list + pair)[j].sid ==> (list + pair)[i].on && !(list + pair)[j].on
    {
      if i < |list| <= j {
        assert list[i] in list && pair[j - |list|] in pair;
      }
    }
  }

  function OfKind(e: Option<Entry>, recurring: bool): Option<Entry> {
    if e.Some? && e.value.Recurring? == recurring then e else None
  }

  lemma EntriesOfOne(alm: Almanac, scheds: seq<Sched>, n: nat, today: Date, e: Entry)
    requires n < |scheds|
    ensures EntryOf(alm, scheds[..n + 1], today, e) <==>
      EntryOf(alm, scheds[..n], today, e) || SideEntry(alm, scheds[n], true, today) == Some(e)
      || SideEntry(alm, scheds[n], false, today) == Some(e)
  {
    assert scheds[..n + 1] == scheds[..n] + [scheds[n]];
    assert scheds[n] in scheds[..n + 1];
    assert forall on ::
      SideEntry(alm, scheds[n], on, today).Some? ==> SideEntry(alm, scheds[n], on, today).value.on == on;
  }

  lemma BuildOne(alm: Almanac, scheds: seq<Sched>, n: nat, today: Date, events: seq<Entry>, once: seq<Entry>)
    requires n < |scheds| && Rising(scheds) && Built(alm, scheds[..n], today, events, once)
    ensures var on, off := SideEntry(alm, scheds[n], true, today), SideEntry(alm, scheds[n], false, today);
      Built(alm, scheds[..n + 1], today, events + Pair(OfKind(on, true), OfKind(off, true)),
            once + Pair(OfKind(on, false), OfKind(off, false)))
  {
    var s := scheds[n];
    var on, off := SideEntry(alm, s, true, today), SideEntry(alm, s, false, today);
    EarlierIds(alm, scheds, n, today);
    PairLater(events, OfKind(on, true), OfKind(off, true), s.id);
    PairLater(once, OfKind(on, false), OfKind(off, false), s.id);
    forall e
      ensures EntryOf(alm, scheds[..n + 1], today, e)
        <==> EntryOf(alm, scheds[..n], today, e) || on == Some(e) || off == Some(e)
    {
      EntriesOfOne(alm, scheds, n, today, e);
    }
  }

  lemma EarlierIds(alm: Almanac, scheds: seq<Sched>, n: nat, today: Date)
    requires n < |scheds| && Rising(scheds)
    ensures forall e :: EntryOf(alm, scheds[..n], today, e) ==> e.sid < scheds[n].id
  {
    forall e | EntryOf(alm, scheds[..n], today, e)
      ensures e.sid < scheds[n].id
    {
      var s :| s in scheds[..n] && SideEntry(alm, s, e.on, today) == Some(e);
      var i :| 0 <= i < n && scheds[..n][i] == s;
      assert scheds[i] == s;
    }
  }

  /** buildDevicePayload: both lists hold exactly the entries of the rows, by schedule, ON
      before OFF. */
  method BuildDevicePayload(alm: Almanac, scheds: seq<Sched>, today: Date)
        returns (events: seq<Entry>, once: seq<Entry>)
    requires Rising(scheds)
    ensures Built(alm, scheds, today, events, once)
  {
    events, once := [], [];
    for n := 0 to |scheds|
      invariant Built(alm, scheds[..n], today, events, once)
    {
      BuildOne(alm, scheds, n, today, events, once);
      var on, off := SideEntry(alm, scheds[n], true, today), SideEntry(alm, scheds[n], false, today);
      events := events + Pair(OfKind(on, true), OfKind(off, true));
      once := once + Pair(OfKind(on, false), OfKind(off, false));
    }
    assert scheds[..|scheds|] == scheds;
  }

  // ---- Against the server ----

  /** The entry fires on the date, as the firmware reads it. */
  predicate EntryFires(e: Entry, date: Date) {
    match e
    case Recurring(_, _, day, _, _) => day == 0 || Dow(date) == day
    case Dated(_, _, d, _, _) => d == date
  }

  /** A relay is switched on or off at a minute. */
  datatype Act = Act(relay: int, on: bool, minute: int)

  predicate SentFiring(alm: Almanac, s: Sched, today: Date, date: Date, act: Act) {
    var e := SideEntry(alm, s, act.on, today);
    e.Some? && EntryFires(e.value, date) && Act(e.value.relay, e.value.on, e.value.minute) == act
  }

  function SideOf(s: Sched, on: bool): Side {
    if on then s.row.on else s.row.off
  }

  predicate ServerDoes(alm: Almanac, s: Sched, date: Date, act: Act) {
    act.relay == s.row.relay && SideDue(alm, s.row, SideOf(s, act.on), date, act.minute)
  }

  /** The row keeps weekdays in the old exclusion field and its day is a fixed one: then its
      list of exclusions is never looked at. */
  predicate JudgedByOldField(x: Exclusion, side: Side) {
    !EveryDay(side) && x.legacy.Some? && x.legacy.value.WeekdayItem?
  }

  /** The one way a weekly side that was sent `today` can differ from the tick on a date it
      falls on: its list covers the date and is not looked at; or the exclusions say something
      else about the date than about the day of the push. */
  predicate Stale(alm: Almanac, x: Exclusion, side: Side, today: Date, date: Date) {
    if JudgedByOldField(x, side) then
      side.day.value !in x.legacy.value.days && InExclusion(alm, Exclusion(None, x.list), date)
    else InExclusion(alm, x, today) != InExclusion(alm, x, date)
  }

  lemma LegacyOrList(alm: Almanac, x: Exclusion, date: Date)
    ensures InExclusion(alm, x, date)
      <==> (x.legacy.Some? && InItem(alm, x.legacy.value, date)) || InExclusion(alm, Exclusion(None, x.list), date)
  {
  }

  /** A payload built `today` makes a weekly side act on a date exactly when the tick has it due
      there, for as long as the side is not stale; and if it is, they do differ. */
  lemma WeeklySideWhileInForce(alm: Almanac, s: Sched, on: bool, today: Date, date: Date)
    requires s.row.weekly
    ensures var side := SideOf(s, on);
      (forall act: Act :: act.on == on ==> (SentFiring(alm, s, today, date, act) <==> ServerDoes(alm, s, date, act)))
      <==> side.time.None? || !OnThisDay(s.row, side, date) || !Stale(alm, s.row.excl, side, today, date)
  {
    var side := SideOf(s, on);
    LegacyOrList(alm, s.row.excl, date);
    if side.time.Some? && OnThisDay(s.row, side, date) && Stale(alm, s.row.excl, side, today, date) {
      var act := Act(s.row.relay, on, side.time.value);
      assert SentFiring(alm, s, today, date, act) != ServerDoes(alm, s, date, act);
    }
  }

  /** The list covers the date, the old field does not have the row's day, and only the old
      field is looked at. */
  predicate ListOverlooked(alm: Almanac, x: Exclusion, side: Side, date: Date) {
    JudgedByOldField(x, side) && side.day.value !in x.legacy.value.days
      && InExclusion(alm, Exclusion(None, x.list), date)
  }

  /** On the day of the push only an overlooked list makes a difference. */
  lemma TodaysWeeklySide(alm: Almanac, s: Sched, on: bool, today: Date)
    requires s.row.weekly
    ensures var side := SideOf(s, on);
      (forall act: Act :: act.on == on ==> (SentFiring(alm, s, today, today, act) <==> ServerDoes(alm, s, today, act)))
      <==> side.time.None? || !OnThisDay(s.row, side, today) || !ListOverlooked(alm, s.row.excl, side, today)
  {
    WeeklySideWhileInForce(alm, s, on, today, today);
  }

  /** A fixed weekday that is excluded by a list item stays on the device when the payload was
      built on another weekday: it acts on a day the tick leaves out. */
  lemma ExcludedWeekdayStaysSent(alm: Almanac, today: Date, date: Date, minute: int)
    requires Dow(today) != Dow(date)
    ensures var side := Side(Some(minute), Some(Dow(date)), None);
      var row := Row(true, 1, side, Side(None, None, None), Exclusion(None, [WeekdayItem({Dow(date)})]));
      SentFiring(alm, Sched(1, row), today, date, Act(1, true, minute)) && !SideDue(alm, row, side, date, minute)
  {
    var x := Exclusion(None, [WeekdayItem({Dow(date)})]);
    assert InItem(alm, x.list[0], date) && !InItem(alm, x.list[0], today);
  }

  /** A date in the list of a row that keeps Sundays in the old field is not respected. */
  lemma OverlookedListActs(alm: Almanac, today: Date, minute: int)
    requires Dow(today) != 1
    ensures var side := Side(Some(minute), Some(Dow(today)), None);
      var x := Exclusion(Some(WeekdayItem({1})), [RangeItem(true, false, Some(today), Some(today))]);
      var row := Row(true, 1, side, Side(None, None, None), x);
      SentFiring(alm, Sched(1, row), today, today, Act(1, true, minute)) && !SideDue(alm, row, side, today, minute)
  {
    var x := Exclusion(Some(WeekdayItem({1})), [RangeItem(true, false, Some(today), Some(today))]);
    assert InItem(alm, x.list[0], today);
  }

  /** A dated side is sent exactly for the date and minute the tick has it due. */
  lemma DatedSide(alm: Almanac, s: Sched, today: Date, date: Date, act: Act)
    requires !s.row.weekly
    ensures SentFiring(alm, s, today, date, act) <==> ServerDoes(alm, s, date, act)
  {
  }

  /** Every entry names its row's schedule and relay, and its side's action, time and day. */
  lemma EntriesNameTheirRows(alm: Almanac, scheds: seq<Sched>, today: Date, events: seq<Entry>, once: seq<Entry>,
        e: Entry)
    requires Built(alm, scheds, today, events, once) && (e in events || e in once)
    ensures exists s :: s in scheds && NamesRow(e, s)
    ensures e.Recurring? <==> e in events
  {
    var s :| s in scheds && SideEntry(alm, s, e.on, today) == Some(e);
    assert NamesRow(e, s);
  }

  predicate NamesRow(e: Entry, s: Sched) {
    var side := if e.on then s.row.on else s.row.off;
    && e.sid == s.id && e.relay == s.row.relay && side.time == Some(e.minute)
    && match e
       case Recurring(_, _, day, _, _) => s.row.weekly && (if side.day.Some? then day == side.day.value else day == 0)
       case Dated(_, _, date, _, _) => !s.row.weekly && side.date == Some(date)
  }
}
