/** The executor object and its runs: boot, then ticks and pushed schedules, for as long as the
    device is up (firmware/src/main.cpp). */
module FirmwareRun {
  import opened FirmwareModel
  import opened FirmwareTheory
  import opened FirmwareExecutor
  import opened Sorting

  // ---- A whole run's passages ----

  datatype Passage = Passage(minute: int, sid: int, relay: int, on: bool)

  predicate PassageBefore(a: Passage, b: Passage) {
    a.minute < b.minute || (a.minute == b.minute && (a.sid < b.sid || (a.sid == b.sid && a.on && !b.on)))
  }

  /** `log` is every passage of an event's minute in (from, to], once, in order. */
  ghost predicate Chronicle(entries: seq<Event>, from: int, to: int, log: seq<Passage>) {
    && (forall i, j :: 0 <= i < j < |log| ==> PassageBefore(log[i], log[j]))
    && (forall p :: p in log <==> exists e :: e in entries && PassesAt(e, from, to, p))
  }

  predicate PassesAt(e: Event, from: int, to: int, p: Passage) {
    from < p.minute <= to && Hits(e, p.minute) && p == Passage(p.minute, e.sid, e.relay, e.on)
  }

  function AsPassages(due: seq<DueEvt>, m: int): (log: seq<Passage>)
    ensures |log| == |due|
    ensures forall i :: 0 <= i < |due| ==> log[i] == Passage(m + due[i].pos, due[i].sid, due[i].relay, due[i].on)
  {
    seq(|due|, i requires 0 <= i < |due| => Passage(m + due[i].pos, due[i].sid, due[i].relay, due[i].on))
  }

  lemma PassagesAsChronicle(entries: seq<Event>, m: int, now: int, due: seq<DueEvt>)
    requires Passages(entries, m, now, due)
    ensures Chronicle(entries, m, now, AsPassages(due, m))
  {
    var log := AsPassages(due, m);
    forall p
      ensures p in log <==> exists e :: e in entries && PassesAt(e, m, now, p)
    {
      if i :| 0 <= i < |log| && log[i] == p {
        assert due[i] in due;
        var e :| e in entries && Passes(e, m, now, due[i].pos) && due[i] == AsDue(e, due[i].pos);
        assert PassesAt(e, m, now, p);
      }
      if e :| e in entries && PassesAt(e, m, now, p) {
        var d := AsDue(e, p.minute - m);
        assert Passes(e, m, now, d.pos);
        assert d in due;
        var i :| 0 <= i < |due| && due[i] == d;
        assert log[i] == p;
      }
    }
    forall i, j | 0 <= i < j < |log|
      ensures PassageBefore(log[i], log[j])
    {
      assert DueBefore(due[i], due[j]);
    }
  }

  /** Adjoining stretches of a run add up. */
  lemma ChronicleExtends(entries: seq<Event>, a: int, b: int, c: int, log: seq<Passage>, more: seq<Passage>)
    requires a <= b <= c && Chronicle(entries, a, b, log) && Chronicle(entries, b, c, more)
    ensures Chronicle(entries, a, c, log + more)
  {
    var all := log + more;
    forall p
      ensures p in all <==> exists e :: e in entries && PassesAt(e, a, c, p)
    {
      if p in log {
        var e :| e in entries && PassesAt(e, a, b, p);
        assert PassesAt(e, a, c, p);
      }
      if p in more {
        var e :| e in entries && PassesAt(e, b, c, p);
        assert PassesAt(e, a, c, p);
      }
      if e :| e in entries && PassesAt(e, a, c, p) {
        assert PassesAt(e, a, b, p) || PassesAt(e, b, c, p);
      }
    }
    forall i, j | 0 <= i < |log| && 0 <= j < |more|
      ensures PassageBefore(log[i], more[j])
    {
      assert log[i] in log && more[j] in more;
    }
  }

  /** Each passage was reported once, in order, at most 180 minutes after its minute. */
  ghost predicate Reported(log: seq<Passage>, reports: seq<Report>) {
    |reports| == |log| &&
    forall i :: 0 <= i < |log| ==>
      && reports[i].sid == log[i].sid && reports[i].relay == log[i].relay && reports[i].on == log[i].on
      && log[i].minute <= reports[i].minute <= log[i].minute + 180
  }

  lemma {:induction false} ReportsOfAt(due: seq<DueEvt>, clock: int)
    ensures |ReportsOf(due, clock)| == |due|
    ensures forall i :: 0 <= i < |due| ==> ReportsOf(due, clock)[i] == ReportOf(due[i], clock)
  {
    if due != [] {
      ReportsOfAt(due[1..], clock);
    }
  }

  lemma TickReports(entries: seq<Event>, m: int, clock: int, due: seq<DueEvt>)
    requires Passages(entries, m, clock / 60, due) && clock / 60 - m <= MAX_CATCH_UP
    ensures Reported(AsPassages(due, m), ReportsOf(due, clock))
  {
    ReportsOfAt(due, clock);
    forall i | 0 <= i < |due|
      ensures 1 <= due[i].pos <= clock / 60 - m
    {
      assert due[i] in due;
    }
  }

  /** The run up to `now` and the reports it added to `start`. */
  ghost predicate RunLog(entries: seq<Event>, m: int, now: int, log: seq<Passage>, start: seq<Report>,
        reports: seq<Report>) {
    m <= now && Chronicle(entries, m, now, log) && start <= reports && Reported(log, reports[|start|..])
  }

  lemma RunLogExtends(entries: seq<Event>, m: int, now: int, next: int, log: seq<Passage>, more: seq<Passage>,
      start: seq<Report>, before: seq<Report>, after: seq<Report>)
    requires RunLog(entries, m, now, log, start, before) && RunLog(entries, now, next, more, before, after)
    ensures RunLog(entries, m, next, log + more, start, after)
  {
    ChronicleExtends(entries, m, now, next, log, more);
    assert after[|start|..] == before[|start|..] + after[|before|..];
  }

  lemma ReportedTogether(log: seq<Passage>, more: seq<Passage>, told: seq<Report>, next: seq<Report>)
    requires Reported(log, told) && Reported(more, next)
    ensures Reported(log + more, told + next)
  {
  }

  lemma NothingToTell(entries: seq<Event>, m: int, reports: seq<Report>)
    ensures RunLog(entries, m, m, [], reports, reports)
  {
  }

  // ---- Payloads and the ticks they are in force for ----

  /** What applySchedulePayload stores. */
  datatype Payload = Payload(weekly: seq<Event>, once: seq<Event>, cfg: seq<RelayCfg>)

  predicate RealPayload(q: Payload) {
    && |q.cfg| == RELAY_SLOTS && DistinctKeys(q.weekly + q.once)
    && (forall e :: e in q.weekly ==> e.Weekly? && RealEvent(e))
    && (forall e :: e in q.once ==> e.Once? && RealEvent(e))
  }

  function EntriesOf(q: Payload): seq<Event> {
    q.weekly + q.once
  }

  function ActiveOf(cfg: seq<RelayCfg>, n: nat): set<int>
    requires n < |cfg|
  {
    set r | 1 <= r <= n && cfg[r].present
  }

  function ScheduledOf(cfg: seq<RelayCfg>, n: nat): set<int>
    requires n < |cfg|
  {
    set r | 1 <= r <= n && cfg[r].present && cfg[r].boot == 2
  }

  /** The local minute before tick `i` of a run that begins at minute `m`. */
  function Reached(m: int, clocks: seq<int>, i: nat): int
    requires i <= |clocks|
  {
    if i == 0 then m else clocks[i - 1] / 60
  }

  ghost predicate StepsOk(entries: seq<Event>, m: int, clocks: seq<int>) {
    forall i :: 0 <= i < |clocks| ==> StepOk(entries, Reached(m, clocks, i), clocks[i] / 60)
  }

  /** The last of the ticks that moved the minute was a prompt one; `before` says so of those
      before them. Ticks that do not move it do nothing. */
  predicate CalmAfter(m: int, clocks: seq<int>, before: bool)
    decreases |clocks|
  {
    if clocks == [] then before
    else
      var n := |clocks| - 1;
      if clocks[n] / 60 > Reached(m, clocks, n) then Prompt(clocks[n]) else CalmAfter(m, clocks[..n], before)
  }

  lemma CalmOneMore(m: int, clocks: seq<int>, before: bool, i: nat)
    requires i < |clocks|
    ensures CalmAfter(m, clocks[..i + 1], before) <==>
      if clocks[i] / 60 > Reached(m, clocks, i) then Prompt(clocks[i]) else CalmAfter(m, clocks[..i], before)
  {
    assert clocks[..i + 1][..i] == clocks[..i];
  }

  /** No scheduled relay's boot state at minute `p` is one that a tie misleads and that the next
      tick will not set in any case. */
  ghost predicate NoTieAtPush(entries: seq<Event>, scheduled: set<int>, m: int, p: int) {
    forall r :: r in scheduled ==> HitSince(entries, r, m, p) || BootAgrees(entries, r, p)
  }

  /** What the ticks make of the fire times. */
  predicate RunTimes(was: map<int, int>, m: int, clocks: seq<int>, now: map<int, int>) {
    Recent(was, m) ==>
      var last := Reached(m, clocks, |clocks|);
      Recent(now, last) && (CalmAfter(m, clocks, Unhurried(was, m)) ==> Unhurried(now, last))
  }

  lemma OneMoreTick(was: map<int, int>, m: int, clocks: seq<int>, i: nat, before: map<int, int>, after: map<int, int>)
    requires i < |clocks| && RunTimes(was, m, clocks[..i], before) && Reached(m, clocks, i) <= clocks[i] / 60
    requires FireTimes(before, Reached(m, clocks, i), after, clocks[i])
    ensures RunTimes(was, m, clocks[..i + 1], after)
  {
    CalmOneMore(m, clocks, Unhurried(was, m), i);
    assert Reached(m, clocks[..i], i) == Reached(m, clocks, i);
  }

  /** A schedule pushed at `clock`, and the ticks until the next one. */
  datatype Stretch = Stretch(payload: Payload, clock: int, clocks: seq<int>)

  function MinuteAfter(m: int, x: Stretch): int {
    Reached(m, x.clocks, |x.clocks|)
  }

  function SinceAfter(m: int, x: Stretch): int {
    if x.clocks == [] then x.clock / 60 else MinuteAfter(m, x)
  }

  /** The minute of the last tick before stretch `i`. */
  function From(m: int, stretches: seq<Stretch>, i: nat): int
    requires i <= |stretches|
  {
    if i == 0 then m else MinuteAfter(From(m, stretches, i - 1), stretches[i - 1])
  }

  ghost predicate StretchOk(x: Stretch, n: nat, m: int) {
    && RealPayload(x.payload) && n < RELAY_SLOTS && x.clock > SANE_EPOCH && m <= x.clock / 60
    && GoodPayload(EntriesOf(x.payload), ActiveOf(x.payload.cfg, n), RELAY_SLOTS)
    && NoTieAtPush(EntriesOf(x.payload), ScheduledOf(x.payload.cfg, n), m, x.clock / 60)
    && (x.clocks != [] ==> x.clock <= x.clocks[0]) && StepsOk(EntriesOf(x.payload), m, x.clocks)
  }

  /** The last tick before stretch `i` that moved the minute was a prompt one. */
  predicate Calm(m: int, stretches: seq<Stretch>, i: nat)
    requires i <= |stretches|
  {
    i == 0 || CalmAfter(From(m, stretches, i - 1), stretches[i - 1].clocks, Calm(m, stretches, i - 1))
  }

  /** The pushed schedule comes after a prompt tick, or has no event in the very next minute. */
  predicate ComesCalmly(x: Stretch, m: int, calm: bool) {
    calm || forall e :: e in EntriesOf(x.payload) ==> !Hits(e, m + 1)
  }

  ghost predicate PushOk(m: int, stretches: seq<Stretch>, i: nat, n: nat)
    requires i < |stretches|
  {
    && StretchOk(stretches[i], n, From(m, stretches, i))
    && ComesCalmly(stretches[i], From(m, stretches, i), Calm(m, stretches, i))
  }

  /** What the executor carries from stretch to stretch. */
  predicate Between(m: int, stretches: seq<Stretch>, i: nat, prevMow: int, firedAt: map<int, int>)
    requires i <= |stretches|
  {
    var now := From(m, stretches, i);
    && prevMow == now % MIN_PER_WEEK && Recent(firedAt, now)
    && (Calm(m, stretches, i) ==> Unhurried(firedAt, now))
  }

  lemma OneMoreStretch(m: int, stretches: seq<Stretch>, i: nat, prevMow: int, before: map<int, int>,
        after: map<int, int>)
    requires i < |stretches| && Recent(before, From(m, stretches, i))
    requires Calm(m, stretches, i) ==> Unhurried(before, From(m, stretches, i))
    requires RunTimes(before, From(m, stretches, i), stretches[i].clocks, after)
    requires prevMow == MinuteAfter(From(m, stretches, i), stretches[i]) % MIN_PER_WEEK
    ensures Between(m, stretches, i + 1, prevMow, after)
  {
    var x, now := stretches[i], From(m, stretches, i);
    if Calm(m, stretches, i + 1) {
      CalmGrows(now, x.clocks, Calm(m, stretches, i), Unhurried(before, now));
    }
  }

  lemma {:induction false} CalmGrows(m: int, clocks: seq<int>, a: bool, b: bool)
    requires (a ==> b) && CalmAfter(m, clocks, a)
    ensures CalmAfter(m, clocks, b)
    decreases |clocks|
  {
    if clocks != [] {
      var n := |clocks| - 1;
      if clocks[n] / 60 <= Reached(m, clocks, n) {
        CalmGrows(m, clocks[..n], a, b);
      }
    }
  }

  ghost predicate LogOf(m: int, stretches: seq<Stretch>, i: nat, log: seq<Passage>)
    requires i < |stretches|
  {
    Chronicle(EntriesOf(stretches[i].payload), From(m, stretches, i), From(m, stretches, i + 1), log)
  }

  /** Each stretch's log is every passage of the schedule then in force, and together they are
      what the reports since `start` told. */
  ghost predicate Told(m: int, stretches: seq<Stretch>, logs: seq<seq<Passage>>, start: seq<Report>,
        reports: seq<Report>) {
    && |logs| <= |stretches| && (forall i :: 0 <= i < |logs| ==> LogOf(m, stretches, i, logs[i]))
    && start <= reports && Reported(Flatten(logs), reports[|start|..])
  }

  lemma OneMoreLog(m: int, stretches: seq<Stretch>, logs: seq<seq<Passage>>, log: seq<Passage>, start: seq<Report>,
        before: seq<Report>, after: seq<Report>)
    requires |logs| < |stretches| && Told(m, stretches, logs, start, before)
    requires LogOf(m, stretches, |logs|, log) && before <= after && Reported(log, after[|before|..])
    ensures Told(m, stretches, logs + [log], start, after)
  {
    FlattenMore(logs, log);
    ReportedTogether(Flatten(logs), log, before[|start|..], after[|before|..]);
    assert after[|start|..] == before[|start|..] + after[|before|..];
  }

  // ---- Boot: folding the events of one relay ----

  /** What the boot scan has after some of the list: a time in the best minute, or nothing. */
  ghost predicate Scanned(entries: seq<Event>, r: int, now: int, bestT: int, bestOn: bool, best: int) {
    || (bestT == 0 && NeverHit(entries, r, now))
    || (0 < bestT && 60 * best <= bestT < 60 * best + 60 && Best(entries, r, now, best, bestOn))
  }

  lemma FirstOfMore(entries: seq<Event>, e: Event, r: int, t: int, i: int)
    ensures i < |entries| ==> (FirstOf(entries + [e], r, t, i) <==> FirstOf(entries, r, t, i))
  {
    assert forall j :: 0 <= j < |entries| ==> (entries + [e])[j] == entries[j];
  }

  /** Entry `e` was last at minute `latest`; the scan takes it only for a later minute. */
  lemma ScanOne(entries: seq<Event>, r: int, now: int, bestT: int, bestOn: bool, best: int, e: Event, t: int,
        latest: int)
    requires Scanned(entries, r, now, bestT, bestOn, best) && e.relay == r
    requires 0 < t && 60 * latest <= t < 60 * latest + 60 && latest <= now && Hits(e, latest)
    requires t > bestT > 0 ==> latest > best
    requires forall u :: latest < u <= now ==> !Hits(e, u)
    ensures if t > bestT then Scanned(entries + [e], r, now, t, e.on, latest)
      else Scanned(entries + [e], r, now, bestT, bestOn, best)
  {
    var more := entries + [e];
    assert more[|entries|] == e && forall j :: 0 <= j < |entries| ==> more[j] == entries[j];
    if t > bestT {
      NewIsFirst(entries, r, now, bestT, bestOn, best, e, latest);
    } else {
      var i :| FirstOf(entries, r, best, i) && entries[i].on == bestOn;
      FirstOfMore(entries, e, r, best, i);
      assert FirstOf(more, r, best, i) && more[i].on == bestOn;
    }
  }

  lemma NewIsFirst(entries: seq<Event>, r: int, now: int, bestT: int, bestOn: bool, best: int, e: Event, latest: int)
    requires Scanned(entries, r, now, bestT, bestOn, best) && e.relay == r && latest <= now && Hits(e, latest)
    requires bestT > 0 ==> latest > best
    requires forall u :: latest < u <= now ==> !Hits(e, u)
    ensures Best(entries + [e], r, now, latest, e.on)
  {
    var more := entries + [e];
    forall j | 0 <= j < |entries| && more[j].relay == r
      ensures !Hits(more[j], latest)
    {
      assert more[j] == entries[j] && entries[j] in entries;
    }
    assert FirstOf(more, r, latest, |entries|) && more[|entries|].on == e.on;
  }

  /** Entry `e` is another relay's, or has no minute up to now. */
  lemma ScanNone(entries: seq<Event>, r: int, now: int, bestT: int, bestOn: bool, best: int, e: Event)
    requires Scanned(entries, r, now, bestT, bestOn, best)
    requires e.relay != r || forall u :: u <= now ==> !Hits(e, u)
    ensures Scanned(entries + [e], r, now, bestT, bestOn, best)
  {
    if bestT != 0 {
      var i :| FirstOf(entries, r, best, i) && entries[i].on == bestOn;
      FirstOfMore(entries, e, r, best, i);
      assert FirstOf(entries + [e], r, best, i) && (entries + [e])[i].on == bestOn;
    }
  }

  lemma ScannedIsBootState(entries: seq<Event>, r: int, now: int, bestT: int, bestOn: bool, best: int)
    requires Scanned(entries, r, now, bestT, bestOn, best)
    ensures BootState(entries, r, now, bestT != 0 && bestOn)
  {
    if bestT != 0 {
      BestIsBootState(entries, r, now, best, bestOn);
    } else {
      assert forall i :: 0 <= i < |entries| ==> entries[i] in entries;
    }
  }

  /** The scan over weekly events. Its times lie as far into their minute as the clock does. */
  method ScanWeekly(weekly: seq<Event>, r: int, clock: int) returns (bestT: int, bestOn: bool, ghost best: int)
    requires clock > SANE_EPOCH && forall e :: e in weekly ==> e.Weekly? && RealEvent(e)
    ensures Scanned(weekly, r, clock / 60, bestT, bestOn, best)
  {
    bestT, bestOn, best := 0, false, 0;
    for i := 0 to |weekly|
      invariant Scanned(weekly[..i], r, clock / 60, bestT, bestOn, best)
      invariant bestT != 0 ==> bestT == clock - 60 * (clock / 60 - best)
    {
      var e := weekly[i];
      assert weekly[..i + 1] == weekly[..i] + [e];
      if e.relay == r {
        var t, latest := WeeklyLastOccurrence(e, clock);
        ScanOne(weekly[..i], r, clock / 60, bestT, bestOn, best, e, t, latest);
        if t > bestT {
          bestT, bestOn, best := t, e.on, latest;
        }
      } else {
        ScanNone(weekly[..i], r, clock / 60, bestT, bestOn, best, e);
      }
    }
    assert weekly[..|weekly|] == weekly;
  }

  /** The scan over once events, on top of what the first one found. */
  method ScanOnce(once: seq<Event>, r: int, clock: int, ghost weekly: seq<Event>, t0: int, on0: bool, ghost best0: int)
      returns (bestT: int, bestOn: bool, ghost best: int)
    requires forall e :: e in once ==> e.Once? && RealEvent(e)
    requires Scanned(weekly, r, clock / 60, t0, on0, best0)
    ensures Scanned(weekly + once, r, clock / 60, bestT, bestOn, best)
  {
    bestT, bestOn, best := t0, on0, best0;
    assert weekly + once[..0] == weekly;
    for i := 0 to |once|
      invariant Scanned(weekly + once[..i], r, clock / 60, bestT, bestOn, best)
    {
      var o := once[i];
      ghost var before := weekly + once[..i];
      assert weekly + once[..i + 1] == before + [o];
      var minute := o.date * MIN_PER_DAY + o.minutes;
      var t := minute * 60;
      if o.relay == r && t <= clock {
        ScanOne(before, r, clock / 60, bestT, bestOn, best, o, t, minute);
        if t > bestT {
          bestT, bestOn, best := t, o.on, minute;
        }
      } else {
        ScanNone(before, r, clock / 60, bestT, bestOn, best, o);
      }
    }
    assert once[..|once|] == once;
  }

  lemma StepDelta(m: int, now: int)
    requires 0 <= now - m <= MAX_CATCH_UP
    ensures Wrap(now % MIN_PER_WEEK - m % MIN_PER_WEEK) == now - m
  {
    WrapIsModulo(now % MIN_PER_WEEK - m % MIN_PER_WEEK);
    RemainderOfDifference(now, m);
  }

  /** What a tick that fires comes to. */
  lemma TickOutcome(entries: seq<Event>, scheduled: set<int>, active: set<int>, s: Fired, m: int, p: int, clock: int,
        due: seq<DueEvt>)
    requires GoodPayload(entries, active, |s.relays|) && SyncedSince(entries, scheduled, s, m, p)
    requires m <= p <= clock / 60 && m < clock / 60 && StepOk(entries, m, clock / 60)
    requires DueList(entries, m % MIN_PER_WEEK, clock / 60, clock / 60 - m, due)
    ensures var after := FireAll(s, active, due, clock);
      && |after.relays| == |s.relays| && Synced(entries, scheduled, after, clock / 60)
      && RunLog(entries, m, clock / 60, AsPassages(due, m), s.reports, after.reports)
      && FireTimes(s.firedAt, m, after.firedAt, clock)
  {
    DueListIsPassages(entries, m, clock / 60, due);
    TickStaysSynced(entries, scheduled, active, s, m, p, clock, due);
    PassagesAsChronicle(entries, m, clock / 60, due);
    TickReports(entries, m, clock, due);
    FiringFireTimes(s, active, due, m, clock);
  }

  class Executor {
    const relayCount: nat
    const relayState: array<bool>
    var weekly: seq<Event>
    var once: seq<Event>
    var relayCfg: seq<RelayCfg>
    var lastSaved: seq<bool>
    var timeValid: bool
    var prevMow: int
    var firedAt: map<int, int>
    ghost var reports: seq<Report>

    ghost predicate Valid()
      reads this
    {
      && relayCount < RELAY_SLOTS && relayState.Length == |relayCfg| == |lastSaved| == RELAY_SLOTS
      && (forall e :: e in weekly ==> e.Weekly? && RealEvent(e))
      && (forall e :: e in once ==> e.Once? && RealEvent(e))
      && DistinctKeys(weekly + once)
    }

    /** The globals at power-on, before anything is loaded. */
    constructor (n: nat)
      requires n < RELAY_SLOTS
      ensures Valid() && fresh(relayState) && relayCount == n && !timeValid && prevMow < 0
      ensures firedAt == map[] && reports == [] && weekly == [] && once == []
    {
      relayCount := n;
      relayState := new bool[RELAY_SLOTS](_ => false);
      weekly, once := [], [];
      relayCfg := seq(RELAY_SLOTS, _ => RelayCfg(false, 2));
      lastSaved := seq(RELAY_SLOTS, _ => false);
      timeValid, prevMow, firedAt, reports := false, -1, map[], [];
    }

    ghost function Entries(): seq<Event>
      reads this
    {
      weekly + once
    }

    function Active(): set<int>
      reads this
      requires |relayCfg| == RELAY_SLOTS && relayCount < RELAY_SLOTS
    {
      ActiveOf(relayCfg, relayCount)
    }

    function Scheduled(): set<int>
      reads this
      requires |relayCfg| == RELAY_SLOTS && relayCount < RELAY_SLOTS
    {
      ScheduledOf(relayCfg, relayCount)
    }

    ghost function State(): Fired
      reads this, relayState
    {
      Fired(relayState[..], firedAt, reports)
    }

    method SaveRelayStates()
      requires Valid()
      modifies this`lastSaved
      ensures Valid() && lastSaved == relayState[..]
    {
      lastSaved := relayState[..];
    }

    method FireEvent(d: DueEvt, clock: int)
      requires Valid()
      modifies this`firedAt, this`reports, this`lastSaved, relayState
      ensures Valid() && State() == Fire(old(State()), Active(), d, clock)
    {
      var key := FireKey(d.sid, d.on);
      if key in firedAt && clock - firedAt[key] < DEDUPE_SECONDS {
        return;
      }
      firedAt := firedAt[key := clock];
      if |firedAt| > 512 {
        firedAt := map[];
      }
      if 1 <= d.relay <= relayCount && relayCfg[d.relay].present {
        relayState[d.relay] := d.on;
        SaveRelayStates();
        reports := reports + [ReportOf(d, clock)];
      }
    }

    /** executionTick: every branch of it. */
    method ExecutionTick(clock: int) returns (ghost due: seq<DueEvt>)
      requires Valid()
      modifies this`prevMow, this`firedAt, this`reports, this`lastSaved, relayState
      ensures Valid()
      ensures var mow := clock / 60 % MIN_PER_WEEK; var delta := Wrap(mow - old(prevMow));
        if !timeValid || (0 <= old(prevMow) && delta == 0) then
          State() == old(State()) && prevMow == old(prevMow) && due == []
        else if old(prevMow) < 0 || delta > 180 then
          State() == old(State()) && prevMow == mow && due == []
        else
          && DueList(Entries(), old(prevMow), clock / 60, delta, due)
          && State() == FireAll(old(State()), Active(), due, clock) && prevMow == mow
    {
      due := [];
      if !timeValid {
        return;
      }
      var now := clock / 60;
      MinuteOfWeek(now);
      var mow := now / MIN_PER_DAY % 7 * MIN_PER_DAY + now % MIN_PER_DAY;
      if prevMow < 0 {
        prevMow := mow;
        return;
      }
      var delta := Wrap(mow - prevMow);
      if delta == 0 {
        return;
      }
      if delta > MAX_CATCH_UP {
        prevMow := mow;
        return;
      }
      var found := CollectDue(weekly, once, prevMow, now, delta);
      var sorted := SortDue(found);
      due := sorted;
      assert sorted[0..] == sorted;
      for i := 0 to |sorted|
        invariant Valid() && prevMow == old(prevMow)
        invariant FireAll(State(), Active(), sorted[i..], clock) == FireAll(old(State()), Active(), sorted, clock)
      {
        assert sorted[i..][1..] == sorted[i + 1..];
        FireEvent(sorted[i], clock);
      }
      prevMow := mow;
    }

    /** The scan of applyBootBehavior for one relay in schedule mode. */
    method MostRecentState(r: int, clock: int) returns (on: bool)
      requires Valid() && clock > SANE_EPOCH
      ensures BootState(Entries(), r, clock / 60, on)
    {
      var bestT, bestOn, best := ScanWeekly(weekly, r, clock);
      bestT, bestOn, best := ScanOnce(once, r, clock, weekly, bestT, bestOn, best);
      on := bestT != 0 && bestOn;
      ScannedIsBootState(Entries(), r, clock / 60, bestT, bestOn, best);
    }

    /** applyBootBehavior: each relay by its boot mode; unconfigured relays off. */
    method ApplyBootBehavior(clock: int)
      requires Valid() && (timeValid ==> clock > SANE_EPOCH)
      modifies this`lastSaved, relayState
      ensures Valid() && lastSaved == relayState[..]
      ensures forall r :: 1 <= r <= relayCount && (!relayCfg[r].present || relayCfg[r].boot == 0) ==> !relayState[r]
      ensures forall r :: 1 <= r <= relayCount && relayCfg[r].present && relayCfg[r].boot == 1 ==>
        relayState[r] == old(lastSaved)[r]
      ensures forall r :: 1 <= r <= relayCount && relayCfg[r].present && relayCfg[r].boot !in {0, 1} ==>
        if timeValid then BootState(Entries(), r, clock / 60, relayState[r]) else !relayState[r]
    {
      for r := 1 to relayCount + 1
        invariant Valid() && lastSaved == old(lastSaved)
        invariant forall k :: 1 <= k < r && (!relayCfg[k].present || relayCfg[k].boot == 0) ==> !relayState[k]
        invariant forall k ::
          1 <= k < r && relayCfg[k].present && relayCfg[k].boot == 1 ==> relayState[k] == lastSaved[k]
        invariant forall k :: 1 <= k < r && relayCfg[k].present && relayCfg[k].boot !in {0, 1} ==>
          if timeValid then BootState(Entries(), k, clock / 60, relayState[k]) else !relayState[k]
      {
        if !relayCfg[r].present || relayCfg[r].boot == 0 {
          relayState[r] := false;
        } else if relayCfg[r].boot == 1 {
          relayState[r] := lastSaved[r];
        } else if !timeValid {
          relayState[r] := false;
        } else {
          var on := MostRecentState(r, clock);
          relayState[r] := on;
        }
      }
      SaveRelayStates();
    }

    /** Everything in step with the clock at local minute `m`. */
    ghost predicate InStep(m: int)
      reads this, relayState
      requires Valid()
    {
      && timeValid && prevMow == m % MIN_PER_WEEK && 0 <= prevMow
      && GoodPayload(Entries(), Active(), RELAY_SLOTS)
      && Synced(Entries(), Scheduled(), State(), m)
    }

    /** In step but for what the tick after minute `p` will set in any case: the last tick was at
        minute `m`, and the schedule may have been replaced since. */
    ghost predicate InStepSince(m: int, p: int)
      reads this, relayState
      requires Valid()
    {
      && timeValid && prevMow == m % MIN_PER_WEEK && 0 <= prevMow && m <= p
      && GoodPayload(Entries(), Active(), RELAY_SLOTS)
      && SyncedSince(Entries(), Scheduled(), State(), m, p)
    }

    lemma InStepNow(m: int)
      requires Valid()
      ensures InStep(m) <==> InStepSince(m, m)
    {
      SyncedNow(Entries(), Scheduled(), State(), m);
    }

    /** No scheduled relay's most recent minute is one in which the boot pass and the ticks
        would choose differently. */
    ghost predicate NoTieAtBoot(m: int)
      reads this
      requires Valid()
    {
      forall r :: r in Scheduled() ==> BootAgrees(Entries(), r, m)
    }

    /** The clock becomes valid: the boot pass and the first tick, in one minute, put a fresh
        executor in step exactly when no scheduled relay is tied at that minute. */
    method Start(bootClock: int, tickClock: int)
      requires Valid() && bootClock > SANE_EPOCH && bootClock / 60 == tickClock / 60
      requires prevMow < 0 && firedAt == map[] && GoodPayload(Entries(), Active(), RELAY_SLOTS)
      modifies this`timeValid, this`prevMow, this`firedAt, this`reports, this`lastSaved, relayState
      ensures Valid() && reports == old(reports) && timeValid && prevMow == tickClock / 60 % MIN_PER_WEEK
      ensures firedAt == map[]
      ensures InStep(tickClock / 60) <==> NoTieAtBoot(tickClock / 60)
    {
      timeValid := true;
      ApplyBootBehavior(bootClock);
      label booted:
      var _ := ExecutionTick(tickClock);
      assert relayState[..] == old@booted(relayState[..]);
      forall r | r in Scheduled()
        ensures Right(Entries(), r, tickClock / 60, relayState[r]) <==> BootAgrees(Entries(), r, tickClock / 60)
      {
        assert relayState[r] == old@booted(relayState[..])[r];
        BootIsRightExactly(Entries(), r, tickClock / 60, relayState[r]);
      }
    }

    /** What being in step means for each relay: a configured one in schedule mode is in its right
        state, whatever its number. */
    lemma RelaysFollow(m: int, r: int)
      requires Valid() && InStep(m) && 1 <= r <= relayCount && relayCfg[r].present && relayCfg[r].boot == 2
      ensures Right(Entries(), r, m, relayState[r])
    {
      assert r in Scheduled() && State().relays[r] == relayState[r];
    }

    /** Without ties there is none at boot. */
    lemma UntiedBoots(m: int)
      requires Valid() && NoTies(Entries())
      ensures NoTieAtBoot(m)
    {
      forall r | r in Scheduled()
        ensures BootAgrees(Entries(), r, m)
      {
        NoTiesAgree(Entries(), r, m);
      }
    }

    /** One tick keeps step and reports the passages since the last one. */
    method TickInStep(clock: int, ghost m: int, ghost p: int) returns (ghost log: seq<Passage>)
      requires Valid() && InStepSince(m, p) && p <= clock / 60 && StepOk(Entries(), m, clock / 60)
      modifies this`prevMow, this`firedAt, this`reports, this`lastSaved, relayState
      ensures Valid() && InStep(clock / 60)
      ensures RunLog(Entries(), m, clock / 60, log, old(reports), reports)
      ensures FireTimes(old(firedAt), m, firedAt, clock)
    {
      StepDelta(m, clock / 60);
      var due := ExecutionTick(clock);
      log := AsPassages(due, m);
      if clock / 60 > m {
        TickOutcome(Entries(), Scheduled(), Active(), old(State()), m, p, clock, due);
      } else {
        assert due == [] && State() == old(State());
        SyncedNow(Entries(), Scheduled(), State(), m);
        NothingToTell(Entries(), m, reports);
      }
    }

    method NextTick(clocks: seq<int>, i: nat, ghost m: int, ghost since: int, ghost log: seq<Passage>,
        ghost start: seq<Report>, ghost was: map<int, int>) returns (ghost log': seq<Passage>)
      requires Valid() && i < |clocks| && InStepSince(Reached(m, clocks, i), since) && since <= clocks[i] / 60
      requires StepOk(Entries(), Reached(m, clocks, i), clocks[i] / 60)
      requires RunLog(Entries(), m, Reached(m, clocks, i), log, start, reports)
      requires RunTimes(was, m, clocks[..i], firedAt)
      modifies this`prevMow, this`firedAt, this`reports, this`lastSaved, relayState
      ensures Valid() && InStep(clocks[i] / 60)
      ensures RunLog(Entries(), m, clocks[i] / 60, log', start, reports) && RunTimes(was, m, clocks[..i + 1], firedAt)
    {
      ghost var before, fired := reports, firedAt;
      var more := TickInStep(clocks[i], Reached(m, clocks, i), since);
      RunLogExtends(Entries(), m, Reached(m, clocks, i), clocks[i] / 60, log, more, start, before, reports);
      OneMoreTick(was, m, clocks, i, fired, firedAt);
      log' := log + more;
    }

    /** Every run: after any number of ticks every relay in schedule mode is in the state of
        its most recent event, and every passage of an event's minute since `m` was reported
        exactly once, in order. */
    method Run(clocks: seq<int>, ghost m: int, ghost p: int) returns (ghost log: seq<Passage>)
      requires Valid() && InStepSince(m, p) && StepsOk(Entries(), m, clocks) && (clocks != [] ==> p <= clocks[0] / 60)
      modifies this`prevMow, this`firedAt, this`reports, this`lastSaved, relayState
      ensures var last := Reached(m, clocks, |clocks|);
        && Valid() && (if clocks == [] then InStepSince(m, p) else InStep(last))
        && RunLog(Entries(), m, last, log, old(reports), reports)
        && RunTimes(old(firedAt), m, clocks, firedAt)
    {
      log := [];
      ghost var now, since := m, p;
      for i := 0 to |clocks|
        invariant now == Reached(m, clocks, i) && since == if i == 0 then p else now
        invariant Valid() && InStepSince(now, since) && StepsOk(Entries(), m, clocks)
        invariant RunLog(Entries(), m, now, log, old(reports), reports)
        invariant RunTimes(old(firedAt), m, clocks[..i], firedAt)
      {
        assert StepOk(Entries(), Reached(m, clocks, i), clocks[i] / 60);
        log := NextTick(clocks, i, m, since, log, old(reports), old(firedAt));
        now, since := clocks[i] / 60, clocks[i] / 60;
        InStepNow(now);
      }
      assert clocks[..|clocks|] == clocks;
      InStepNow(now);
    }

    /** applySchedulePayload: everything stored is replaced, and relays the payload does not name
        go off. */
    method ApplySchedulePayload(q: Payload)
      requires Valid() && RealPayload(q)
      modifies this`weekly, this`once, this`relayCfg, this`lastSaved, relayState
      ensures Valid() && weekly == q.weekly && once == q.once && relayCfg == q.cfg && lastSaved == relayState[..]
      ensures forall r :: 1 <= r <= relayCount ==> relayState[r] == (relayCfg[r].present && old(relayState[..])[r])
    {
      weekly, once, relayCfg := q.weekly, q.once, q.cfg;
      for r := 1 to relayCount + 1
        invariant Valid() && weekly == q.weekly && once == q.once && relayCfg == q.cfg
        invariant forall k :: r <= k < RELAY_SLOTS ==> relayState[k] == old(relayState[..])[k]
        invariant forall k :: 1 <= k < r ==> relayState[k] == (relayCfg[k].present && old(relayState[..])[k])
      {
        if !relayCfg[r].present && relayState[r] {
          relayState[r] := false;
        }
      }
      SaveRelayStates();
    }

    /** handleSchedule, once the hash is right: the schedule is replaced wholesale, relays it does
        not name go off, and the boot pass runs again. The executor is in step with the new
        schedule exactly when no tie misleads the boot pass and no event of the new schedule
        comes too soon after a fire of its old namesake. */
    method ReplaceSchedule(q: Payload, clock: int, ghost m: int)
      requires Valid() && RealPayload(q) && timeValid && clock > SANE_EPOCH && m <= clock / 60
      requires prevMow == m % MIN_PER_WEEK && GoodPayload(EntriesOf(q), ActiveOf(q.cfg, relayCount), RELAY_SLOTS)
      modifies this`weekly, this`once, this`relayCfg, this`lastSaved, relayState
      ensures Valid() && weekly == q.weekly && once == q.once && relayCfg == q.cfg
      ensures forall r :: 1 <= r <= relayCount && (!relayCfg[r].present || relayCfg[r].boot == 0) ==> !relayState[r]
      ensures forall r :: 1 <= r <= relayCount && relayCfg[r].present && relayCfg[r].boot == 1 ==>
        relayState[r] == old(relayState[..])[r]
      ensures InStepSince(m, clock / 60) <==>
        NoTieAtPush(Entries(), Scheduled(), m, clock / 60) && Rested(Entries(), firedAt, m)
    {
      ApplySchedulePayload(q);
      ApplyBootBehavior(clock);
      forall r | r in Scheduled()
        ensures Settled(Entries(), r, m, clock / 60, relayState[r])
          <==> HitSince(Entries(), r, m, clock / 60) || BootAgrees(Entries(), r, clock / 60)
      {
        BootSettles(Entries(), r, m, clock / 60, relayState[r]);
      }
      assert forall r :: r in Scheduled() ==> State().relays[r] == relayState[r];
    }

    /** One pushed schedule and its ticks. */
    method RunStretch(x: Stretch, ghost m: int) returns (ghost log: seq<Passage>)
      requires Valid() && timeValid && prevMow == m % MIN_PER_WEEK && Recent(firedAt, m)
      requires StretchOk(x, relayCount, m) && ComesCalmly(x, m, Unhurried(firedAt, m))
      modifies this`weekly, this`once, this`relayCfg, this`prevMow, this`firedAt, this`reports, this`lastSaved
      modifies relayState
      ensures Valid() && Entries() == EntriesOf(x.payload) && RunTimes(old(firedAt), m, x.clocks, firedAt)
      ensures InStepSince(MinuteAfter(m, x), SinceAfter(m, x))
      ensures RunLog(Entries(), m, MinuteAfter(m, x), log, old(reports), reports)
    {
      RecentRests(EntriesOf(x.payload), firedAt, m);
      ReplaceSchedule(x.payload, x.clock, m);
      log := Run(x.clocks, m, x.clock / 60);
      InStepNow(MinuteAfter(m, x));
    }

    /** In step with the last stretch's schedule. */
    ghost predicate Through(m: int, stretches: seq<Stretch>, i: nat)
      reads this, relayState
      requires Valid() && i <= |stretches|
    {
      i > 0 ==>
        && Entries() == EntriesOf(stretches[i - 1].payload)
        && InStepSince(From(m, stretches, i), SinceAfter(From(m, stretches, i - 1), stretches[i - 1]))
    }

    method NextStretch(stretches: seq<Stretch>, i: nat, ghost m: int, ghost logs: seq<seq<Passage>>,
        ghost start: seq<Report>) returns (ghost log: seq<Passage>)
      requires Valid() && timeValid && i < |stretches| && PushOk(m, stretches, i, relayCount)
      requires Between(m, stretches, i, prevMow, firedAt) && |logs| == i && Told(m, stretches, logs, start, reports)
      modifies this`weekly, this`once, this`relayCfg, this`prevMow, this`firedAt, this`reports, this`lastSaved
      modifies relayState
      ensures Valid() && Between(m, stretches, i + 1, prevMow, firedAt) && Through(m, stretches, i + 1)
      ensures Told(m, stretches, logs + [log], start, reports)
    {
      ghost var before, fired := reports, firedAt;
      log := RunStretch(stretches[i], From(m, stretches, i));
      OneMoreStretch(m, stretches, i, prevMow, fired, firedAt);
      assert LogOf(m, stretches, i, log);
      OneMoreLog(m, stretches, logs, log, start, before, reports);
    }

    /** Runs with any number of pushed schedules, each after a prompt tick or without an event in
        the very next minute: at the end the executor is in step with the schedule in force, and
        every passage of each was reported exactly once, in order. */
    method RunWithPushes(stretches: seq<Stretch>, ghost m: int) returns (ghost logs: seq<seq<Passage>>)
      requires Valid() && timeValid && prevMow == m % MIN_PER_WEEK && Unhurried(firedAt, m)
      requires forall i :: 0 <= i < |stretches| ==> PushOk(m, stretches, i, relayCount)
      modifies this`weekly, this`once, this`relayCfg, this`prevMow, this`firedAt, this`reports, this`lastSaved
      modifies relayState
      ensures Valid() && |logs| == |stretches| && Told(m, stretches, logs, old(reports), reports)
      ensures stretches != [] ==>
        var n := |stretches| - 1;
        && Entries() == EntriesOf(stretches[n].payload)
        && InStepSince(From(m, stretches, n + 1), SinceAfter(From(m, stretches, n), stretches[n]))
    {
      logs := [];
      for i := 0 to |stretches|
        invariant Valid() && timeValid && Between(m, stretches, i, prevMow, firedAt) && Through(m, stretches, i)
        invariant |logs| == i && Told(m, stretches, logs, old(reports), reports)
      {
        var log := NextStretch(stretches, i, m, logs, old(reports));
        logs := logs + [log];
      }
    }
  }

  /** From power-on: the schedule of the last session is loaded, the clock arrives, and the first
      tick follows. The executor is in step exactly when no tie misleads the boot pass, so always
      with an untied schedule. */
  method PowerOn(n: nat, q: Payload, bootClock: int, tickClock: int) returns (e: Executor)
    requires n < RELAY_SLOTS && RealPayload(q) && GoodPayload(EntriesOf(q), ActiveOf(q.cfg, n), RELAY_SLOTS)
    requires bootClock > SANE_EPOCH && bootClock / 60 == tickClock / 60
    ensures fresh(e) && fresh(e.relayState) && e.Valid() && e.relayCount == n && e.Entries() == EntriesOf(q)
    ensures e.timeValid && e.firedAt == map[] && e.reports == []
    ensures e.InStep(tickClock / 60) <==> e.NoTieAtBoot(tickClock / 60)
    ensures NoTies(EntriesOf(q)) ==> e.InStep(tickClock / 60)
  {
    e := new Executor(n);
    e.ApplySchedulePayload(q);
    e.Start(bootClock, tickClock);
    if NoTies(EntriesOf(q)) {
      e.UntiedBoots(tickClock / 60);
    }
  }
}
