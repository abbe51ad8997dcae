/** The readings of a schedule row side by side: what the server tick has due in UTC minutes,
    what the Shelly cron jobs fire by date, and what the ESP32 executor hits in local minutes. */
module Agreement {
  import opened Common
  import opened Civil
  import opened Exclusions
  import opened ShellyCompile
  import opened DevicePayload
  import D = DueWindows
  import F = FirmwareModel
  import T = FirmwareTheory
  import W = WallClock

  // ---- A row as the tick sees it ----

  function WhenOf(row: Row, side: Side): Option<D.When> {
    if row.weekly then Some(D.OnDay(WireDay(side)))
    else if side.date.Some? then Some(D.OnDate(DayNumber(side.date.value)))
    else None
  }

  function TickSide(row: Row, side: Side): Option<D.Side> {
    if side.time.Some? && WhenOf(row, side).Some? then Some(D.Side(WhenOf(row, side).value, side.time.value)) else None
  }

  function ScheduleOf(s: Sched): D.Schedule {
    D.Schedule(s.id, TickSide(s.row, s.row.on), TickSide(s.row, s.row.off))
  }

  lemma OnItsDate(row: Row, side: Side, date: Date)
    requires Valid(date) && RealSide(side)
    ensures OnThisDay(row, side, date) <==>
      WhenOf(row, side).Some? && D.FallsOn(WhenOf(row, side).value, DayNumber(date))
  {
    if !row.weekly && side.date.Some? {
      StringOrderIsDayOrder(side.date.value, date);
    }
  }

  /** A wall time always means some instant. */
  lemma SomeInstant(off: int -> int, wall: int) returns (t: int)
    requires D.TameZone(off)
    ensures W.Resolves(off, wall, t)
  {
    assert D.SteadyNear(off, wall);
    var at, before, after :| W.NearlySteady(off, wall, at, before, after);
    if W.Skipped(off, wall) {
      t := at;
      W.JumpIsTheOnly(off, wall, at, before, after, at);
    } else {
      t :| W.Local(off, t) == wall;
    }
  }

  function OccurrenceOn(s: Sched, act: Act, date: Date, utc: int): D.Occurrence {
    D.Occurrence(s.id, act.on, DayNumber(date), act.minute, utc)
  }

  /** The tick does the act for the schedule on the date, at some instant. */
  ghost predicate TickFires(alm: Almanac, s: Sched, off: int -> int, date: Date, act: Act) {
    && s.row.relay == act.relay && !InExclusion(alm, s.row.excl, date)
    && exists utc :: D.Occurs(ScheduleOf(s), off, OccurrenceOn(s, act, date, utc))
  }

  /** A side is due on a date exactly when the tick has an occurrence of it there that no
      exclusion covers, at whatever instants the zone gives the wall time. */
  lemma DueMeansTickFires(alm: Almanac, s: Sched, off: int -> int, date: Date, act: Act)
    requires Valid(date) && RealRow(s.row) && D.TameZone(off)
    ensures ServerDoes(alm, s, date, act) <==> TickFires(alm, s, off, date, act)
  {
    OnItsDate(s.row, SideOf(s, act.on), date);
    if ServerDoes(alm, s, date, act) {
      var utc := SomeInstant(off, D.Wall(DayNumber(date), act.minute));
      assert D.Occurs(ScheduleOf(s), off, OccurrenceOn(s, act, date, utc));
    }
  }

  function ZonedOf(scheds: seq<Sched>, off: int -> int): seq<D.Zoned> {
    seq(|scheds|, i requires 0 <= i < |scheds| => D.Zoned(ScheduleOf(scheds[i]), Some(off)))
  }

  /** The exclusion filter of the tick reads the rows' own exclusions. */
  ghost predicate ReadsExclusions(alm: Almanac, scheds: seq<Sched>, excluded: (int, int) -> bool) {
    forall s, date :: s in scheds && Valid(date) ==>
      (excluded(s.id, DayNumber(date)) <==> InExclusion(alm, s.row.excl, date))
  }

  predicate DueAt(alm: Almanac, s: Sched, off: int -> int, date: Date, o: D.Occurrence) {
    s.id == o.id && SideDue(alm, s.row, SideOf(s, o.on), date, o.minute)
  }

  /** What the tick's window is left with is what the rows have due, at the instants their wall
      times mean. */
  lemma WindowHoldsTheDue(alm: Almanac, scheds: seq<Sched>, off: int -> int, excluded: (int, int) -> bool, from: int,
        to: int, date: Date, o: D.Occurrence)
    requires Valid(date) && o.date == DayNumber(date) && ReadsExclusions(alm, scheds, excluded)
    requires forall s :: s in scheds ==> RealRow(s.row)
    ensures D.DueOf(ZonedOf(scheds, off), excluded, from, to, o) <==>
      D.InWindow(o, from, to) && W.Resolves(off, D.Wall(o.date, o.minute), o.utc)
      && exists s :: s in scheds && DueAt(alm, s, off, date, o)
  {
    var zoned := ZonedOf(scheds, off);
    forall s | s in scheds
      ensures D.Occurs(ScheduleOf(s), off, o) && !excluded(o.id, o.date) <==>
        W.Resolves(off, D.Wall(o.date, o.minute), o.utc) && DueAt(alm, s, off, date, o)
    {
      OnItsDate(s.row, SideOf(s, o.on), date);
    }
    if z :| z in zoned && D.OccursFor(z, o) {
      var i :| 0 <= i < |zoned| && zoned[i] == z;
      assert scheds[i] in scheds;
    }
    if s :| s in scheds && DueAt(alm, s, off, date, o) {
      var i :| 0 <= i < |scheds| && scheds[i] == s;
      assert zoned[i] in zoned;
      assert W.Resolves(off, D.Wall(o.date, o.minute), o.utc) ==> D.OccursFor(zoned[i], o);
    }
  }

  // ---- A payload entry as the executor sees it ----

  function EventOf(e: Entry): F.Event {
    match e
    case Recurring(sid, relay, day, minute, on) => F.Weekly(sid, relay, day, minute, on)
    case Dated(sid, relay, date, minute, on) => F.Once(sid, relay, DayNumber(date), minute, on)
  }

  /** Local minutes counted from the Sunday before day 1. */
  function LocalMinute(date: Date, minute: int): int {
    DayNumber(date) * F.MIN_PER_DAY + minute
  }

  predicate RealEntry(e: Entry) {
    RealMinute(e.minute) && (e.Dated? ==> Valid(e.date))
  }

  lemma MinuteSplits(day: int, minute: int)
    requires RealMinute(minute)
    ensures (day * F.MIN_PER_DAY + minute) / F.MIN_PER_DAY == day
    ensures (day * F.MIN_PER_DAY + minute) % F.MIN_PER_DAY == minute
  {
  }

  /** The executor hits an entry in exactly the local minutes the entry names. */
  lemma EntryHits(e: Entry, date: Date, minute: int)
    requires RealEntry(e) && Valid(date) && RealMinute(minute)
    ensures F.Hits(EventOf(e), LocalMinute(date, minute)) <==> EntryFires(e, date) && e.minute == minute
  {
    MinuteSplits(DayNumber(date), minute);
    if e.Dated? {
      MinuteSplits(DayNumber(e.date), e.minute);
      StringOrderIsDayOrder(e.date, date);
    }
  }

  /** The event does the act in the local minute. */
  predicate Does(f: F.Event, date: Date, act: Act) {
    f.relay == act.relay && f.on == act.on && F.Hits(f, LocalMinute(date, act.minute))
  }

  /** The executor has an event of the side that does the act. */
  predicate FirmwareFires(alm: Almanac, s: Sched, today: Date, date: Date, act: Act) {
    var e := SideEntry(alm, s, act.on, today);
    e.Some? && Does(EventOf(e.value), date, act)
  }

  lemma SentMeansHit(alm: Almanac, s: Sched, today: Date, date: Date, act: Act)
    requires RealRow(s.row) && Valid(date) && RealMinute(act.minute)
    ensures FirmwareFires(alm, s, today, date, act) <==> SentFiring(alm, s, today, date, act)
  {
    var e := SideEntry(alm, s, act.on, today);
    if e.Some? {
      EntryHits(e.value, date, act.minute);
    }
  }

  // ---- Executor against tick ----

  ghost predicate SameAllDay(alm: Almanac, s: Sched, on: bool, off: int -> int, today: Date, date: Date) {
    forall act: Act :: act.on == on && RealMinute(act.minute) ==>
      (FirmwareFires(alm, s, today, date, act) <==> TickFires(alm, s, off, date, act))
  }

  /** On any date the executor, holding the payload of `today`, does of a weekly side what the tick
      does, on the same relay in the same minutes, if and only if the side does not fall on the
      date or is not stale. */
  lemma ExecutorMirrorsTick(alm: Almanac, s: Sched, on: bool, off: int -> int, today: Date, date: Date)
    requires s.row.weekly && RealRow(s.row) && Valid(date) && D.TameZone(off)
    ensures SameAllDay(alm, s, on, off, today, date) <==> !Differs(alm, s, on, today, date)
  {
    WeeklySideWhileInForce(alm, s, on, today, date);
    SameByDate(alm, s, on, off, today, date);
  }

  /** A weekly side that falls on the date and is stale. */
  predicate Differs(alm: Almanac, s: Sched, on: bool, today: Date, date: Date) {
    && s.row.weekly && SideOf(s, on).time.Some? && OnThisDay(s.row, SideOf(s, on), date)
    && Stale(alm, s.row.excl, SideOf(s, on), today, date)
  }

  /** Of a dated side it does what the tick does, whatever day the payload is of. */
  lemma ExecutorMirrorsTickOnDates(alm: Almanac, s: Sched, on: bool, off: int -> int, today: Date, date: Date)
    requires !s.row.weekly && RealRow(s.row) && Valid(date) && D.TameZone(off)
    ensures SameAllDay(alm, s, on, off, today, date)
  {
    forall act: Act
      ensures SentFiring(alm, s, today, date, act) <==> ServerDoes(alm, s, date, act)
    {
      DatedSide(alm, s, today, date, act);
    }
    SameByDate(alm, s, on, off, today, date);
  }

  lemma SameByDate(alm: Almanac, s: Sched, on: bool, off: int -> int, today: Date, date: Date)
    requires RealRow(s.row) && Valid(date) && D.TameZone(off)
    ensures SameAllDay(alm, s, on, off, today, date) <==> forall act: Act ::
      act.on == on ==> (SentFiring(alm, s, today, date, act) <==> ServerDoes(alm, s, date, act))
  {
    forall act: Act | RealMinute(act.minute)
      ensures FirmwareFires(alm, s, today, date, act) <==> SentFiring(alm, s, today, date, act)
      ensures TickFires(alm, s, off, date, act) <==> ServerDoes(alm, s, date, act)
    {
      SentMeansHit(alm, s, today, date, act);
      DueMeansTickFires(alm, s, off, date, act);
    }
    forall act: Act | !RealMinute(act.minute)
      ensures !SentFiring(alm, s, today, date, act) && !ServerDoes(alm, s, date, act)
    {
    }
  }

  lemma SideAgrees(alm: Almanac, s: Sched, off: int -> int, today: Date, date: Date, act: Act)
    requires RealRow(s.row) && Valid(date) && D.TameZone(off) && RealMinute(act.minute)
    requires !Differs(alm, s, act.on, today, date)
    ensures FirmwareFires(alm, s, today, date, act) <==> TickFires(alm, s, off, date, act)
  {
    if s.row.weekly {
      ExecutorMirrorsTick(alm, s, act.on, off, today, date);
    } else {
      ExecutorMirrorsTickOnDates(alm, s, act.on, off, today, date);
    }
  }

  /** On a date on which no side differs, an ESP32 holding the payload does exactly what the tick
      does: each relay, action and minute. */
  lemma PayloadMirrorsTick(alm: Almanac, scheds: seq<Sched>, off: int -> int, today: Date, date: Date,
        events: seq<Entry>, once: seq<Entry>, act: Act)
    requires Built(alm, scheds, today, events, once) && Valid(date) && D.TameZone(off) && RealMinute(act.minute)
    requires forall s :: s in scheds ==> RealRow(s.row) && !Differs(alm, s, act.on, today, date)
    ensures (exists f :: f in EventsOf(events + once) && Does(f, date, act)) <==>
      exists s :: s in scheds && TickFires(alm, s, off, date, act)
  {
    if f :| f in EventsOf(events + once) && Does(f, date, act) {
      var s := WhoSent(alm, scheds, today, date, events, once, act, f);
      SideAgrees(alm, s, off, today, date, act);
    }
    if s :| s in scheds && TickFires(alm, s, off, date, act) {
      SideAgrees(alm, s, off, today, date, act);
      var f := WhatIsSent(alm, scheds, today, date, events, once, act, s);
    }
  }

  lemma WhoSent(alm: Almanac, scheds: seq<Sched>, today: Date, date: Date, events: seq<Entry>, once: seq<Entry>,
        act: Act, f: F.Event) returns (s: Sched)
    requires Built(alm, scheds, today, events, once) && f in EventsOf(events + once) && Does(f, date, act)
    ensures s in scheds && FirmwareFires(alm, s, today, date, act)
  {
    var all := events + once;
    var i :| 0 <= i < |all| && EventsOf(all)[i] == f;
    assert all[i] in events || all[i] in once;
    s :| s in scheds && SideEntry(alm, s, all[i].on, today) == Some(all[i]);
  }

  lemma WhatIsSent(alm: Almanac, scheds: seq<Sched>, today: Date, date: Date, events: seq<Entry>, once: seq<Entry>,
        act: Act, s: Sched) returns (f: F.Event)
    requires Built(alm, scheds, today, events, once) && s in scheds && FirmwareFires(alm, s, today, date, act)
    ensures f in EventsOf(events + once) && Does(f, date, act)
  {
    var all, e := events + once, SideEntry(alm, s, act.on, today).value;
    assert EntryOf(alm, scheds, today, e);
    assert e in all;
    var i :| 0 <= i < |all| && all[i] == e;
    f := EventsOf(all)[i];
  }

  // ---- What the executor is handed ----

  function EventsOf(entries: seq<Entry>): (events: seq<F.Event>)
    ensures |events| == |entries| && forall i :: 0 <= i < |entries| ==> events[i] == EventOf(entries[i])
  {
    seq(|entries|, i requires 0 <= i < |entries| => EventOf(entries[i]))
  }

  predicate RealSched(s: Sched) {
    RealRow(s.row) && 0 <= WireDay(s.row.on) <= 7 && 0 <= WireDay(s.row.off) <= 7
  }

  lemma EntryIsReal(alm: Almanac, scheds: seq<Sched>, today: Date, e: Entry)
    requires EntryOf(alm, scheds, today, e) && forall s :: s in scheds ==> RealSched(s)
    ensures RealEntry(e) && (e.Recurring? ==> 0 <= e.day <= 7)
  {
  }

  /** A side sends one entry, recurring or dated. */
  lemma OneEntryASide(alm: Almanac, scheds: seq<Sched>, today: Date, a: Entry, b: Entry)
    requires Rising(scheds) && EntryOf(alm, scheds, today, a) && EntryOf(alm, scheds, today, b)
    requires a.sid == b.sid && a.on == b.on
    ensures a == b
  {
    var s :| s in scheds && SideEntry(alm, s, a.on, today) == Some(a);
    var t :| t in scheds && SideEntry(alm, t, b.on, today) == Some(b);
    var i :| 0 <= i < |scheds| && scheds[i] == s;
    var j :| 0 <= j < |scheds| && scheds[j] == t;
    assert i < j ==> s.id < t.id;
    assert j < i ==> t.id < s.id;
  }

  /** What the server sends meets what the executor's proofs ask of a payload. */
  lemma PayloadIsGood(alm: Almanac, scheds: seq<Sched>, today: Date, events: seq<Entry>, once: seq<Entry>)
    requires Rising(scheds) && Built(alm, scheds, today, events, once) && forall s :: s in scheds ==> RealSched(s)
    ensures forall e :: e in EventsOf(events) ==> e.Weekly? && F.RealEvent(e)
    ensures (forall d :: d in once ==> DayNumber(d.date) > 0) ==>
      forall e :: e in EventsOf(once) ==> e.Once? && F.RealEvent(e)
    ensures T.DistinctKeys(EventsOf(events) + EventsOf(once))
  {
    forall e | e in EventsOf(events)
      ensures e.Weekly? && F.RealEvent(e)
    {
      var i :| 0 <= i < |events| && EventsOf(events)[i] == e;
      assert events[i] in events;
      EntryIsReal(alm, scheds, today, events[i]);
    }
    forall e | e in EventsOf(once)
      ensures e.Once? && RealMinute(e.minutes) && exists d :: d in once && e.date == DayNumber(d.date)
    {
      var i :| 0 <= i < |once| && EventsOf(once)[i] == e;
      assert once[i] in once;
      EntryIsReal(alm, scheds, today, once[i]);
    }
    KeysAreDistinct(alm, scheds, today, events, once);
  }

  lemma KeysAreDistinct(alm: Almanac, scheds: seq<Sched>, today: Date, events: seq<Entry>, once: seq<Entry>)
    requires Rising(scheds) && Built(alm, scheds, today, events, once)
    ensures T.DistinctKeys(EventsOf(events) + EventsOf(once))
  {
    var all, list := EventsOf(events) + EventsOf(once), events + once;
    forall i, j | 0 <= i < j < |all|
      ensures all[i].sid != all[j].sid || all[i].on != all[j].on
    {
      assert all[i] == EventOf(list[i]) && all[j] == EventOf(list[j]);
      if i < |events| <= j {
        assert list[i] in events && list[j] in once;
        if list[i].sid == list[j].sid && list[i].on == list[j].on {
          OneEntryASide(alm, scheds, today, list[i], list[j]);
        }
      } else {
        assert InOrder(events) && InOrder(once);
      }
    }
  }

  // ---- Cron jobs against tick ----

  function RowsOf(scheds: seq<Sched>): (rows: seq<Row>)
    ensures |rows| == |scheds| && forall i :: 0 <= i < |scheds| ==> rows[i] == scheds[i].row
  {
    seq(|scheds|, i requires 0 <= i < |scheds| => scheds[i].row)
  }

  /** On a date without flips the unit's jobs fire exactly the calls the tick fires. */
  lemma JobsMirrorTick(alm: Almanac, scheds: seq<Sched>, off: int -> int, today: Date, date: Date, jobs: seq<Job>,
        minute: int, call: Call)
    requires Valid(today) && Valid(date) && IsNextAnniversary(date, today) && D.TameZone(off)
    requires Compiled(alm, RowsOf(scheds), today, jobs) && NoFlip(alm, RowsOf(scheds), today, date)
    requires forall s :: s in scheds ==> RealRow(s.row)
    ensures Fires(jobs, date, minute, call) <==>
      exists s :: s in scheds && TickFires(alm, s, off, date, Act(call.id + 1, call.on, minute))
  {
    var act := Act(call.id + 1, call.on, minute);
    MirrorsServer(alm, RowsOf(scheds), today, date, jobs, minute, call);
    forall s | s in scheds
      ensures ServerDoes(alm, s, date, act) <==> TickFires(alm, s, off, date, act)
    {
      DueMeansTickFires(alm, s, off, date, act);
    }
    var rows := RowsOf(scheds);
    if i :| 0 <= i < |rows| && RowDue(alm, rows[i], date, minute, call) {
      assert scheds[i] in scheds;
    }
    if s :| s in scheds && TickFires(alm, s, off, date, act) {
      var i :| 0 <= i < |scheds| && scheds[i] == s;
      assert RowDue(alm, rows[i], date, minute, call);
    }
  }

  // ---- The order of one minute ----

  function EventAt(o: D.Occurrence, relay: int): F.Event {
    F.Once(o.id, relay, o.date, o.minute, o.on)
  }

  /** The last due action of a relay is the one the executor would let win: no other of the relay
      is of a later minute, and none of its minute outranks it. */
  lemma LastDueWins(due: seq<D.Occurrence>, relayOf: int -> int, i: nat, j: nat)
    requires D.InApplyOrder(due) && i < |due| && j < |due| && relayOf(due[j].id) == relayOf(due[i].id)
    requires forall k :: i < k < |due| ==> relayOf(due[k].id) != relayOf(due[i].id)
    ensures due[j].date * 1440 + due[j].minute <= due[i].date * 1440 + due[i].minute
    ensures due[j].date * 1440 + due[j].minute == due[i].date * 1440 + due[i].minute ==>
      var relay := relayOf(due[i].id); !T.Outranks(EventAt(due[j], relay), EventAt(due[i], relay))
  {
  }
}
