/** What the firmware's boot pass and ticks amount to over a whole run, on values: the state
    a relay should be in, one tick's firings, and the invariant they keep. */
module FirmwareTheory {
  import opened FirmwareModel

  // ---- What state a relay should be in ----

  /** No event of the relay comes after minute `t`, up to and including minute `m`. */
  ghost predicate NoneLater(entries: seq<Event>, relay: int, t: int, m: int) {
    forall e, u :: e in entries && e.relay == relay && t < u <= m ==> !Hits(e, u)
  }

  /** Event `e` at minute `t` is the most recent one of its relay at minute `m`. */
  ghost predicate MostRecent(entries: seq<Event>, e: Event, t: int, m: int) {
    e in entries && Hits(e, t) && t <= m && NoneLater(entries, e.relay, t, m)
  }

  ghost predicate NeverHit(entries: seq<Event>, relay: int, m: int) {
    forall e, u :: e in entries && e.relay == relay && u <= m ==> !Hits(e, u)
  }

  /** At the same minute `f` is applied after `e`: higher sid, or OFF after ON. */
  predicate Outranks(f: Event, e: Event) {
    f.sid > e.sid || (f.sid == e.sid && e.on && !f.on)
  }

  /** Of the relay's events of its most recent minute, the one applied last. */
  ghost predicate Deciding(entries: seq<Event>, e: Event, t: int, m: int) {
    && MostRecent(entries, e, t, m)
    && forall f :: f in entries && f.relay == e.relay && Hits(f, t) ==> !Outranks(f, e)
  }

  /** `state` is the action of the relay's most recent event at minute `m`, or off; in a tie
      of ON and OFF, of the one applied last. */
  ghost predicate Right(entries: seq<Event>, relay: int, m: int, state: bool) {
    && (forall e, t :: Deciding(entries, e, t, m) && e.relay == relay ==> state == e.on)
    && (NeverHit(entries, relay, m) ==> !state)
  }

  // ---- There is exactly one such state ----

  /** From the last minute up to `m` that an event of the relay has, some entry has it. */
  lemma {:induction false} LastMinute(entries: seq<Event>, relay: int, u: int, m: int) returns (t: int)
    requires u <= m && AnyAt(entries, relay, u)
    ensures u <= t <= m && AnyAt(entries, relay, t) && NoneLater(entries, relay, t, m)
    decreases m - u
  {
    if AnyAt(entries, relay, m) {
      t := m;
    } else {
      t := LastMinute(entries, relay, u, m - 1);
    }
  }

  ghost predicate AnyAt(entries: seq<Event>, relay: int, t: int) {
    exists e :: e in entries && e.relay == relay && Hits(e, t)
  }

  ghost predicate AppliedLast(entries: seq<Event>, relay: int, t: int, e: Event) {
    && e in entries && e.relay == relay && Hits(e, t)
    && forall f :: f in entries && f.relay == relay && Hits(f, t) ==> !Outranks(f, e)
  }

  lemma {:induction false} SomeAppliedLast(entries: seq<Event>, relay: int, t: int) returns (e: Event)
    requires AnyAt(entries, relay, t)
    ensures AppliedLast(entries, relay, t, e)
    decreases |entries|
  {
    var n := |entries| - 1;
    assert entries == entries[..n] + [entries[n]];
    if AnyAt(entries[..n], relay, t) {
      e := SomeAppliedLast(entries[..n], relay, t);
      if entries[n].relay == relay && Hits(entries[n], t) && Outranks(entries[n], e) {
        e := entries[n];
      }
    } else {
      e := entries[n];
    }
  }

  /** A relay that ever had an event has a deciding one. */
  lemma SomeDeciding(entries: seq<Event>, relay: int, m: int)
    ensures NeverHit(entries, relay, m) || exists e, t :: Deciding(entries, e, t, m) && e.relay == relay
  {
    if !NeverHit(entries, relay, m) {
      var f, u :| f in entries && f.relay == relay && u <= m && Hits(f, u);
      var t := LastMinute(entries, relay, u, m);
      var e := SomeAppliedLast(entries, relay, t);
      assert Deciding(entries, e, t, m);
    }
  }

  /** Deciding events are of one minute, and of two that do not outrank each other neither
      differs in its action. */
  lemma DecidingActAlike(entries: seq<Event>, e: Event, t: int, f: Event, u: int, m: int)
    requires Deciding(entries, e, t, m) && Deciding(entries, f, u, m) && e.relay == f.relay
    ensures t == u && e.on == f.on
  {
  }

  /** Right names one state, whatever the payload. */
  lemma RightIsUnique(entries: seq<Event>, relay: int, m: int) returns (state: bool)
    ensures Right(entries, relay, m, state) && !Right(entries, relay, m, !state)
  {
    SomeDeciding(entries, relay, m);
    if NeverHit(entries, relay, m) {
      state := false;
    } else {
      var e, t :| Deciding(entries, e, t, m) && e.relay == relay;
      state := e.on;
      forall f, u | Deciding(entries, f, u, m) && f.relay == relay
        ensures state == f.on
      {
        DecidingActAlike(entries, e, t, f, u, m);
      }
    }
  }

  // ---- What state the boot pass gives it ----

  /** The relay's first entry in the list that has minute `t`. */
  ghost predicate FirstOf(entries: seq<Event>, relay: int, t: int, i: int) {
    && 0 <= i < |entries| && entries[i].relay == relay && Hits(entries[i], t)
    && forall j :: 0 <= j < i && entries[j].relay == relay ==> !Hits(entries[j], t)
  }

  /** The boot pass keeps the first entry of the most recent minute: later ones must be
      strictly later. */
  ghost predicate BootState(entries: seq<Event>, relay: int, m: int, state: bool) {
    && (forall i, t :: FirstOf(entries, relay, t, i) && t <= m && NoneLater(entries, relay, t, m) ==>
      state == entries[i].on)
    && (NeverHit(entries, relay, m) ==> !state)
  }

  /** The first entry of the relay's most recent minute acts like the one applied last. */
  ghost predicate BootAgrees(entries: seq<Event>, relay: int, m: int) {
    forall i, e, t :: FirstOf(entries, relay, t, i) && Deciding(entries, e, t, m) && e.relay == relay
      ==> entries[i].on == e.on
  }

  lemma {:induction false} FirstExists(entries: seq<Event>, relay: int, t: int, k: nat) returns (i: int)
    requires k < |entries| && entries[k].relay == relay && Hits(entries[k], t)
    ensures FirstOf(entries, relay, t, i)
  {
    if j :| 0 <= j < k && entries[j].relay == relay && Hits(entries[j], t) {
      i := FirstExists(entries, relay, t, j);
    } else {
      i := k;
    }
  }

  /** The boot pass gives the right state exactly when those two act alike. */
  lemma BootIsRightExactly(entries: seq<Event>, relay: int, m: int, state: bool)
    requires BootState(entries, relay, m, state)
    ensures Right(entries, relay, m, state) <==> BootAgrees(entries, relay, m)
  {
    if BootAgrees(entries, relay, m) {
      forall e, t | Deciding(entries, e, t, m) && e.relay == relay
        ensures state == e.on
      {
        var k :| 0 <= k < |entries| && entries[k] == e;
        var i := FirstExists(entries, relay, t, k);
      }
    }
  }

  /** No relay has an ON and an OFF in the same minute. */
  ghost predicate NoTies(entries: seq<Event>) {
    forall e, f, t :: e in entries && f in entries && e.relay == f.relay && Hits(e, t) && Hits(f, t) ==> e.on == f.on
  }

  lemma NoTiesAgree(entries: seq<Event>, relay: int, m: int)
    requires NoTies(entries)
    ensures BootAgrees(entries, relay, m)
  {
    forall i, e, t | FirstOf(entries, relay, t, i) && Deciding(entries, e, t, m) && e.relay == relay
      ensures entries[i].on == e.on
    {
      assert entries[i] in entries;
    }
  }

  /** A tie that misleads the boot pass: a daily OFF and, of a later schedule, a daily ON of one
      minute. The ticks leave the relay on, the boot pass leaves it off. */
  lemma TieMisleadsBoot(m: int)
    ensures var entries := [Weekly(1, 1, 0, m % MIN_PER_DAY, false), Weekly(2, 1, 0, m % MIN_PER_DAY, true)];
      DistinctKeys(entries) && !BootAgrees(entries, 1, m)
  {
    var entries := [Weekly(1, 1, 0, m % MIN_PER_DAY, false), Weekly(2, 1, 0, m % MIN_PER_DAY, true)];
    assert Hits(entries[0], m) && Hits(entries[1], m);
    assert FirstOf(entries, 1, m, 0) && Deciding(entries, entries[1], m, m);
  }

  /** What the server sends: one ON and one OFF entry per schedule at most. */
  predicate DistinctKeys(entries: seq<Event>) {
    forall i, j :: 0 <= i < j < |entries| ==> entries[i].sid != entries[j].sid || entries[i].on != entries[j].on
  }

  // ---- One tick ----

  datatype DueEvt = DueEvt(pos: int, sid: int, relay: int, on: bool)

  /** The comparator of executionTick: position, then sid, ON before OFF. */
  predicate DueBefore(a: DueEvt, b: DueEvt) {
    a.pos < b.pos || (a.pos == b.pos && (a.sid < b.sid || (a.sid == b.sid && a.on && !b.on)))
  }

  predicate DueSorted(due: seq<DueEvt>) {
    forall i, j :: 0 <= i < j < |due| ==> DueBefore(due[i], due[j])
  }

  function AsDue(e: Event, pos: int): DueEvt {
    DueEvt(pos, e.sid, e.relay, e.on)
  }

  /** `due` is exactly the events the tick at local minute `now` finds, in order. */
  ghost predicate DueList(entries: seq<Event>, prevMow: int, now: int, delta: int, due: seq<DueEvt>) {
    && DueSorted(due)
    && (forall d :: d in due <==>
      exists e :: e in entries && EntryDue(e, prevMow, now, delta, d.pos) && d == AsDue(e, d.pos))
  }

  /** `due` is exactly the events whose minute lies in (m, now], in order: each passage of
      an event's minute once. */
  ghost predicate Passages(entries: seq<Event>, m: int, now: int, due: seq<DueEvt>) {
    && DueSorted(due)
    && (forall d :: d in due <==> exists e :: e in entries && Passes(e, m, now, d.pos) && d == AsDue(e, d.pos))
  }

  predicate Passes(e: Event, m: int, now: int, pos: int) {
    1 <= pos <= now - m && Hits(e, m + pos)
  }

  /** The step the tick can account for: forward, at most 180 minutes, and not past midnight
      between a once event and the tick. */
  ghost predicate StepOk(entries: seq<Event>, m: int, now: int) {
    && 0 <= now - m <= MAX_CATCH_UP
    && (forall e, t :: e in entries && e.Once? && m < t <= now && Hits(e, t) ==> e.date == now / MIN_PER_DAY)
  }

  lemma DueIsPassing(e: Event, m: int, now: int, pos: int)
    requires RealEvent(e) && 0 < now - m <= MAX_CATCH_UP
    requires e.Once? && Passes(e, m, now, pos) ==> e.date == now / MIN_PER_DAY
    ensures EntryDue(e, m % MIN_PER_WEEK, now, now - m, pos) <==> Passes(e, m, now, pos)
  {
    match e
    case Weekly(_, _, _, _, _) => WeeklyDueMeansPassing(e, m, now, pos);
    case Once(_, _, _, _, _) => OnceDueMeansPassing(e, m, now, pos);
  }

  /** The modular window finds each passage of an event's minute, once. */
  lemma DueListIsPassages(entries: seq<Event>, m: int, now: int, due: seq<DueEvt>)
    requires forall e :: e in entries ==> RealEvent(e)
    requires 0 < now - m && StepOk(entries, m, now)
    requires DueList(entries, m % MIN_PER_WEEK, now, now - m, due)
    ensures Passages(entries, m, now, due)
  {
    forall e, pos | e in entries
      ensures EntryDue(e, m % MIN_PER_WEEK, now, now - m, pos) <==> Passes(e, m, now, pos)
    {
      DueIsPassing(e, m, now, pos);
    }
  }

  // ---- Firing ----

  datatype Report = Report(sid: int, relay: int, on: bool, minute: int)

  /** What fireEvent touches. */
  datatype Fired = Fired(relays: seq<bool>, firedAt: map<int, int>, reports: seq<Report>)

  function FireKey(sid: int, on: bool): int {
    sid * 2 + if on then 1 else 0
  }

  /** fireEvent: dedupe by the last fire, prune, drive and report a configured relay. */
  function Fire(s: Fired, active: set<int>, d: DueEvt, clock: int): Fired {
    var key := FireKey(d.sid, d.on);
    if key in s.firedAt && clock - s.firedAt[key] < DEDUPE_SECONDS then s
    else
      var firedAt := s.firedAt[key := clock];
      var pruned := if |firedAt| > 512 then map[] else firedAt;
      if d.relay in active && 0 <= d.relay < |s.relays| then
        Fired(s.relays[d.relay := d.on], pruned, s.reports + [ReportOf(d, clock)])
      else s.(firedAt := pruned)
  }

  /** fireEvent, effect by effect: within 55 seconds of its last fire an event does nothing;
      otherwise it is remembered, unless more than 512 would be, and a configured relay is set and
      reported. */
  lemma FireExactly(s: Fired, active: set<int>, d: DueEvt, clock: int)
    ensures var t, key := Fire(s, active, d, clock), d.sid * 2 + if d.on then 1 else 0;
      if key in s.firedAt && clock < s.firedAt[key] + 55 then t == s
      else
        && (t.firedAt == if |s.firedAt.Keys + {key}| <= 512 then s.firedAt[key := clock] else map[])
        && (d.relay in active && 0 <= d.relay < |s.relays| ==>
              t.relays == s.relays[d.relay := d.on]
              && t.reports == s.reports + [Report(d.sid, d.relay, d.on, clock / 60)])
        && (!(d.relay in active && 0 <= d.relay < |s.relays|) ==> t.relays == s.relays && t.reports == s.reports)
  {
    var key := d.sid * 2 + if d.on then 1 else 0;
    assert s.firedAt[key := clock].Keys == s.firedAt.Keys + {key};
  }

  /** The due list in its fields: by position, then by schedule, ON before OFF. */
  lemma DueInFields(due: seq<DueEvt>, i: nat, j: nat)
    requires DueSorted(due) && i < j < |due|
    ensures due[i].pos <= due[j].pos
    ensures due[i].pos == due[j].pos ==> due[i].sid <= due[j].sid
    ensures due[i].pos == due[j].pos && due[i].sid == due[j].sid ==> due[i].on && !due[j].on
  {
    assert DueBefore(due[i], due[j]);
  }

  function FireAll(s: Fired, active: set<int>, due: seq<DueEvt>, clock: int): Fired
    decreases |due|
  {
    if due == [] then s else FireAll(Fire(s, active, due[0], clock), active, due[1..], clock)
  }

  function ReportOf(d: DueEvt, clock: int): Report {
    Report(d.sid, d.relay, d.on, clock / 60)
  }

  function ReportsOf(due: seq<DueEvt>, clock: int): seq<Report> {
    if due == [] then [] else [ReportOf(due[0], clock)] + ReportsOf(due[1..], clock)
  }

  predicate DistinctDue(due: seq<DueEvt>) {
    forall i, j :: 0 <= i < j < |due| ==> FireKey(due[i].sid, due[i].on) != FireKey(due[j].sid, due[j].on)
  }

  /** None of the due events was fired within the last 55 seconds. */
  predicate Cooled(firedAt: map<int, int>, due: seq<DueEvt>, clock: int) {
    forall i :: 0 <= i < |due| && FireKey(due[i].sid, due[i].on) in firedAt ==>
      firedAt[FireKey(due[i].sid, due[i].on)] + DEDUPE_SECONDS <= clock
  }

  predicate AllActive(due: seq<DueEvt>, active: set<int>, n: int) {
    forall i :: 0 <= i < |due| ==> due[i].relay in active && 0 <= due[i].relay < n
  }

  /** The state of relay `r` after the due events in order. */
  function LastAction(due: seq<DueEvt>, r: int, before: bool): bool {
    if due == [] then before
    else if due[|due| - 1].relay == r then due[|due| - 1].on
    else LastAction(due[..|due| - 1], r, before)
  }

  lemma {:induction false} LastActionFromFront(due: seq<DueEvt>, r: int, before: bool)
    requires due != []
    ensures LastAction(due, r, before) == LastAction(due[1..], r, if due[0].relay == r then due[0].on else before)
  {
    if |due| > 1 && due[|due| - 1].relay != r {
      assert due[..|due| - 1][1..] == due[1..][..|due| - 2];
      LastActionFromFront(due[..|due| - 1], r, before);
    }
  }

  /** Each due event may be fired: not fired lately, and on a configured relay. */
  predicate Fireable(s: Fired, active: set<int>, due: seq<DueEvt>, clock: int) {
    DistinctDue(due) && Cooled(s.firedAt, due, clock) && AllActive(due, active, |s.relays|)
  }

  lemma FireFirst(s: Fired, active: set<int>, due: seq<DueEvt>, clock: int)
    requires due != [] && Fireable(s, active, due, clock)
    ensures var s1 := Fire(s, active, due[0], clock); var d := due[0];
      && s1.relays == s.relays[d.relay := d.on]
      && s1.reports == s.reports + [ReportOf(d, clock)]
      && Fireable(s1, active, due[1..], clock)
  {
    var s1 := Fire(s, active, due[0], clock);
    assert FireKey(due[0].sid, due[0].on) in s.firedAt ==>
      s.firedAt[FireKey(due[0].sid, due[0].on)] + DEDUPE_SECONDS <= clock;
    forall i | 0 <= i < |due[1..]| && FireKey(due[1..][i].sid, due[1..][i].on) in s1.firedAt
      ensures s1.firedAt[FireKey(due[1..][i].sid, due[1..][i].on)] + DEDUPE_SECONDS <= clock
    {
      assert due[1..][i] == due[i + 1];
    }
  }

  lemma {:induction false} FireAllReports(s: Fired, active: set<int>, due: seq<DueEvt>, clock: int)
    requires Fireable(s, active, due, clock)
    ensures FireAll(s, active, due, clock).reports == s.reports + ReportsOf(due, clock)
    ensures |FireAll(s, active, due, clock).relays| == |s.relays|
    decreases |due|
  {
    if due != [] {
      FireFirst(s, active, due, clock);
      var first, rest := [ReportOf(due[0], clock)], ReportsOf(due[1..], clock);
      FireAllReports(Fire(s, active, due[0], clock), active, due[1..], clock);
      assert (s.reports + first) + rest == s.reports + (first + rest);
    }
  }

  lemma {:induction false} FireAllDrives(s: Fired, active: set<int>, due: seq<DueEvt>, clock: int, r: int)
    requires Fireable(s, active, due, clock) && 0 <= r < |s.relays|
    ensures r < |FireAll(s, active, due, clock).relays|
    ensures FireAll(s, active, due, clock).relays[r] == LastAction(due, r, s.relays[r])
    decreases |due|
  {
    if due != [] {
      FireFirst(s, active, due, clock);
      FireAllDrives(Fire(s, active, due[0], clock), active, due[1..], clock, r);
      LastActionFromFront(due, r, s.relays[r]);
    }
  }

  /** What a tick leaves in firedAt: old entries, and this tick's clock for fired events. */
  lemma {:induction false} FiredAtAfter(s: Fired, active: set<int>, due: seq<DueEvt>, clock: int, key: int)
    requires key in FireAll(s, active, due, clock).firedAt
    ensures var t := FireAll(s, active, due, clock).firedAt[key];
      (key in s.firedAt && t == s.firedAt[key])
      || (t == clock && exists i :: 0 <= i < |due| && FireKey(due[i].sid, due[i].on) == key)
    decreases |due|
  {
    if due != [] {
      var s1 := Fire(s, active, due[0], clock);
      FiredAtAfter(s1, active, due[1..], clock, key);
    }
  }

  // ---- The invariant ----

  /** A passage later than minute `m` comes at least 55 seconds after the last fire. */
  ghost predicate Rested(entries: seq<Event>, firedAt: map<int, int>, m: int) {
    forall e, t :: e in entries && FireKey(e.sid, e.on) in firedAt && Hits(e, t) && m < t ==>
      firedAt[FireKey(e.sid, e.on)] + DEDUPE_SECONDS <= 60 * t
  }

  /** Everything a synchronized executor knows at local minute `m`. */
  ghost predicate Synced(entries: seq<Event>, scheduled: set<int>, s: Fired, m: int) {
    && Rested(entries, s.firedAt, m)
    && (forall r :: r in scheduled && 0 <= r < |s.relays| ==> Right(entries, r, m, s.relays[r]))
  }

  /** The relay has an event after minute `m`, up to `p`. */
  ghost predicate HitSince(entries: seq<Event>, relay: int, m: int, p: int) {
    exists t :: m < t <= p && AnyAt(entries, relay, t)
  }

  /** Right at minute `m`, or to be set by an event that the next tick finds in any case. */
  ghost predicate Settled(entries: seq<Event>, relay: int, m: int, p: int, state: bool) {
    Right(entries, relay, m, state) || HitSince(entries, relay, m, p)
  }

  /** The last tick was at minute `m`; until minute `p` the schedule may have been replaced. */
  ghost predicate SyncedSince(entries: seq<Event>, scheduled: set<int>, s: Fired, m: int, p: int) {
    && Rested(entries, s.firedAt, m)
    && (forall r :: r in scheduled && 0 <= r < |s.relays| ==> Settled(entries, r, m, p, s.relays[r]))
  }

  lemma SyncedNow(entries: seq<Event>, scheduled: set<int>, s: Fired, m: int)
    ensures SyncedSince(entries, scheduled, s, m, m) <==> Synced(entries, scheduled, s, m)
  {
  }

  ghost predicate GoodPayload(entries: seq<Event>, active: set<int>, n: int) {
    && (forall e :: e in entries ==> RealEvent(e) && e.relay in active && 0 <= e.relay < n)
    && DistinctKeys(entries)
  }

  lemma KeysAreInjective(sid1: int, on1: bool, sid2: int, on2: bool)
    ensures FireKey(sid1, on1) == FireKey(sid2, on2) <==> sid1 == sid2 && on1 == on2
  {
  }

  /** A fire key names one event of the payload. */
  lemma KeyNamesEvent(entries: seq<Event>, e: Event, f: Event)
    requires DistinctKeys(entries) && e in entries && f in entries && FireKey(e.sid, e.on) == FireKey(f.sid, f.on)
    ensures e == f
  {
    KeysAreInjective(e.sid, e.on, f.sid, f.on);
  }

  /** An event comes round at most once in a tick's window, and not again within a day. */
  lemma DayApart(e: Event, t: int, u: int)
    requires RealEvent(e) && Hits(e, t) && Hits(e, u) && t < u
    ensures t + MIN_PER_DAY <= u && e.Weekly?
  {
  }

  /** No event has two passages in one window. */
  lemma OnePassage(e: Event, m: int, now: int, pos1: int, pos2: int)
    requires RealEvent(e) && now - m <= MAX_CATCH_UP && Passes(e, m, now, pos1) && Passes(e, m, now, pos2)
    ensures pos1 == pos2
  {
    if pos1 < pos2 {
      DayApart(e, m + pos1, m + pos2);
    } else if pos2 < pos1 {
      DayApart(e, m + pos2, m + pos1);
    }
  }

  lemma KeysDiffer(entries: seq<Event>, m: int, now: int, a: DueEvt, b: DueEvt, e: Event, f: Event)
    requires DistinctKeys(entries) && e in entries && f in entries && RealEvent(e) && now - m <= MAX_CATCH_UP
    requires Passes(e, m, now, a.pos) && a == AsDue(e, a.pos) && Passes(f, m, now, b.pos) && b == AsDue(f, b.pos)
    requires DueBefore(a, b)
    ensures FireKey(a.sid, a.on) != FireKey(b.sid, b.on)
  {
    if FireKey(a.sid, a.on) == FireKey(b.sid, b.on) {
      KeyNamesEvent(entries, e, f);
      OnePassage(e, m, now, a.pos, b.pos);
    }
  }

  lemma PassagesDistinct(entries: seq<Event>, m: int, now: int, due: seq<DueEvt>)
    requires DistinctKeys(entries) && (forall e :: e in entries ==> RealEvent(e))
    requires 0 <= now - m <= MAX_CATCH_UP && Passages(entries, m, now, due)
    ensures DistinctDue(due)
  {
    forall i, j | 0 <= i < j < |due|
      ensures FireKey(due[i].sid, due[i].on) != FireKey(due[j].sid, due[j].on)
    {
      var e := WhosePassage(entries, m, now, due, i);
      var f := WhosePassage(entries, m, now, due, j);
      KeysDiffer(entries, m, now, due[i], due[j], e, f);
    }
  }

  lemma WhosePassage(entries: seq<Event>, m: int, now: int, due: seq<DueEvt>, i: nat) returns (e: Event)
    requires Passages(entries, m, now, due) && i < |due|
    ensures e in entries && Passes(e, m, now, due[i].pos) && due[i] == AsDue(e, due[i].pos)
  {
    assert due[i] in due;
    e :| e in entries && Passes(e, m, now, due[i].pos) && due[i] == AsDue(e, due[i].pos);
  }

  /** In a synchronized state everything the window finds may be fired. */
  lemma PassagesFireable(entries: seq<Event>, active: set<int>, s: Fired, m: int, clock: int, due: seq<DueEvt>)
    requires GoodPayload(entries, active, |s.relays|) && Rested(entries, s.firedAt, m)
    requires 0 <= clock / 60 - m <= MAX_CATCH_UP && Passages(entries, m, clock / 60, due)
    ensures Fireable(s, active, due, clock)
  {
    PassagesDistinct(entries, m, clock / 60, due);
    forall i | 0 <= i < |due|
      ensures due[i].relay in active && 0 <= due[i].relay < |s.relays|
      ensures var key := FireKey(due[i].sid, due[i].on);
        key in s.firedAt ==> s.firedAt[key] + DEDUPE_SECONDS <= clock
    {
      assert due[i] in due;
      var e :| e in entries && Passes(e, m, clock / 60, due[i].pos) && due[i] == AsDue(e, due[i].pos);
      assert 60 * (m + due[i].pos) <= clock;
    }
  }

  lemma FiredRests(entries: seq<Event>, m: int, clock: int, due: seq<DueEvt>, i: nat, e: Event, t: int)
    requires DistinctKeys(entries) && (forall e :: e in entries ==> RealEvent(e)) && e in entries
    requires 0 <= clock / 60 - m <= MAX_CATCH_UP && Passages(entries, m, clock / 60, due)
    requires i < |due| && FireKey(due[i].sid, due[i].on) == FireKey(e.sid, e.on) && Hits(e, t) && clock / 60 < t
    ensures clock + DEDUPE_SECONDS <= 60 * t
  {
    assert due[i] in due;
    var f :| f in entries && Passes(f, m, clock / 60, due[i].pos) && due[i] == AsDue(f, due[i].pos);
    KeyNamesEvent(entries, e, f);
    DayApart(e, m + due[i].pos, t);
  }

  /** Firing keeps the rest time: a fired event does not come round within 21 hours. */
  lemma StaysRested(entries: seq<Event>, s: Fired, active: set<int>, m: int, clock: int, due: seq<DueEvt>)
    requires DistinctKeys(entries) && (forall e :: e in entries ==> RealEvent(e)) && Rested(entries, s.firedAt, m)
    requires 0 <= clock / 60 - m <= MAX_CATCH_UP && Passages(entries, m, clock / 60, due)
    ensures Rested(entries, FireAll(s, active, due, clock).firedAt, clock / 60)
  {
    var after := FireAll(s, active, due, clock).firedAt;
    forall e, t | e in entries && FireKey(e.sid, e.on) in after && Hits(e, t) && clock / 60 < t
      ensures after[FireKey(e.sid, e.on)] + DEDUPE_SECONDS <= 60 * t
    {
      var key := FireKey(e.sid, e.on);
      FiredAtAfter(s, active, due, clock, key);
      if i :| 0 <= i < |due| && FireKey(due[i].sid, due[i].on) == key {
        FiredRests(entries, m, clock, due, i, e, t);
      }
    }
  }

  // ---- Relay states follow the most recent event ----

  lemma {:induction false} LastIsSome(due: seq<DueEvt>, r: int, before: bool) returns (i: int)
    ensures -1 <= i < |due|
    ensures if i == -1 then LastAction(due, r, before) == before
      else due[i].relay == r && LastAction(due, r, before) == due[i].on
    ensures forall j :: i < j < |due| ==> due[j].relay != r
  {
    if due == [] {
      i := -1;
    } else if due[|due| - 1].relay == r {
      i := |due| - 1;
    } else {
      i := LastIsSome(due[..|due| - 1], r, before);
    }
  }

  /** Applying the passages of (m, now] in order turns the right state at `m` into the right
      state at `now`; and any state, of a relay that has one. */
  lemma StaysRight(entries: seq<Event>, m: int, now: int, due: seq<DueEvt>, r: int, before: bool)
    requires m <= now && Passages(entries, m, now, due) && Settled(entries, r, m, now, before)
    ensures Right(entries, r, now, LastAction(due, r, before))
  {
    var i := LastIsSome(due, r, before);
    forall e, t | Deciding(entries, e, t, now) && e.relay == r
      ensures LastAction(due, r, before) == e.on
    {
      if t <= m {
        NoDueAfter(entries, m, now, due, e, t);
        assert Deciding(entries, e, t, m);
      } else {
        LatestDecides(entries, m, now, due, e, t, i);
      }
    }
  }

  lemma NoDueAfter(entries: seq<Event>, m: int, now: int, due: seq<DueEvt>, e: Event, t: int)
    requires Passages(entries, m, now, due) && MostRecent(entries, e, t, now) && t <= m
    ensures forall j :: 0 <= j < |due| ==> due[j].relay != e.relay
  {
    forall j | 0 <= j < |due|
      ensures due[j].relay != e.relay
    {
      assert due[j] in due;
      var f :| f in entries && Passes(f, m, now, due[j].pos) && due[j] == AsDue(f, due[j].pos);
    }
  }

  /** Nothing of the relay is applied after the deciding event. */
  lemma NothingAfter(entries: seq<Event>, m: int, now: int, e: Event, t: int, f: Event, d: DueEvt)
    requires Deciding(entries, e, t, now) && f in entries && f.relay == e.relay
    requires Passes(f, m, now, d.pos) && d == AsDue(f, d.pos)
    ensures !DueBefore(AsDue(e, t - m), d)
  {
    assert m + d.pos <= t;
    if m + d.pos == t {
      assert Hits(f, t) && !Outranks(f, e);
    }
  }

  lemma LatestDecides(entries: seq<Event>, m: int, now: int, due: seq<DueEvt>, e: Event, t: int, i: int)
    requires Passages(entries, m, now, due) && Deciding(entries, e, t, now) && m < t
    requires -1 <= i < |due| && (i != -1 ==> due[i].relay == e.relay)
    requires forall j :: i < j < |due| ==> due[j].relay != e.relay
    ensures i != -1 && due[i].on == e.on
  {
    var mine := AsDue(e, t - m);
    assert Passes(e, m, now, mine.pos);
    assert mine in due;
    var k :| 0 <= k < |due| && due[k] == mine;
    assert i != -1 && k <= i;
    var f := WhosePassage(entries, m, now, due, i);
    NothingAfter(entries, m, now, e, t, f, due[i]);
  }

  /** One tick from a synchronized state: it is synchronized again at the new minute, and
      has reported each passage of (m, now] once, in order. */
  lemma TickStaysSynced(entries: seq<Event>, scheduled: set<int>, active: set<int>, s: Fired, m: int, p: int,
        clock: int, due: seq<DueEvt>)
    requires GoodPayload(entries, active, |s.relays|)
    requires m <= p <= clock / 60 && SyncedSince(entries, scheduled, s, m, p)
    requires 0 <= clock / 60 - m <= MAX_CATCH_UP && Passages(entries, m, clock / 60, due)
    ensures var after := FireAll(s, active, due, clock);
      && |after.relays| == |s.relays|
      && Synced(entries, scheduled, after, clock / 60)
      && after.reports == s.reports + ReportsOf(due, clock)
  {
    PassagesFireable(entries, active, s, m, clock, due);
    FireAllReports(s, active, due, clock);
    StaysRested(entries, s, active, m, clock, due);
    forall r | r in scheduled && 0 <= r < |s.relays|
      ensures Right(entries, r, clock / 60, FireAll(s, active, due, clock).relays[r])
    {
      FireAllDrives(s, active, due, clock, r);
      StaysRight(entries, m, clock / 60, due, r, s.relays[r]);
    }
  }

  // ---- A schedule pushed between two ticks ----

  /** Minutes without an event of the relay change nothing. */
  lemma QuietBetween(entries: seq<Event>, relay: int, m: int, p: int, state: bool)
    requires m <= p && !HitSince(entries, relay, m, p)
    ensures Right(entries, relay, m, state) <==> Right(entries, relay, p, state)
  {
    forall e, t | e in entries && e.relay == relay && m < t <= p
      ensures !Hits(e, t)
    {
      assert !AnyAt(entries, relay, t);
    }
    assert NeverHit(entries, relay, m) <==> NeverHit(entries, relay, p);
    forall e: Event, t | e.relay == relay
      ensures Deciding(entries, e, t, m) <==> Deciding(entries, e, t, p)
    {
    }
  }

  /** The boot pass at minute `p` leaves a relay settled exactly when the next tick will set it
      in any case or no tie misleads the boot pass. */
  lemma BootSettles(entries: seq<Event>, relay: int, m: int, p: int, state: bool)
    requires m <= p && BootState(entries, relay, p, state)
    ensures Settled(entries, relay, m, p, state) <==> HitSince(entries, relay, m, p) || BootAgrees(entries, relay, p)
  {
    BootIsRightExactly(entries, relay, p, state);
    if !HitSince(entries, relay, m, p) {
      QuietBetween(entries, relay, m, p, state);
    }
  }

  /** No fire is later than minute `m`. */
  predicate Recent(firedAt: map<int, int>, m: int) {
    forall key :: key in firedAt ==> firedAt[key] < 60 * (m + 1)
  }

  /** Fires are over early enough for any event of a later minute. */
  predicate Unhurried(firedAt: map<int, int>, m: int) {
    forall key :: key in firedAt ==> firedAt[key] + DEDUPE_SECONDS <= 60 * (m + 1)
  }

  /** The first five seconds of a minute. */
  predicate Prompt(clock: int) {
    clock % 60 <= 60 - DEDUPE_SECONDS
  }

  /** A schedule finds its next events rested when the fires were early in their minute, or when
      it has no event in the very next minute. */
  lemma RecentRests(entries: seq<Event>, firedAt: map<int, int>, m: int)
    requires Recent(firedAt, m)
    requires Unhurried(firedAt, m) || forall e :: e in entries ==> !Hits(e, m + 1)
    ensures Rested(entries, firedAt, m)
  {
  }

  /** Otherwise it may not: a daily event fired half a minute into minute `m` and is moved by a
      push to the next one, where the 55 seconds are not over. */
  lemma LateFireUnrests(m: int)
    ensures !Rested([Weekly(1, 1, 0, (m + 1) % MIN_PER_DAY, true)], map[FireKey(1, true) := 60 * m + 30], m)
  {
    var e := Weekly(1, 1, 0, (m + 1) % MIN_PER_DAY, true);
    assert e in [e] && Hits(e, m + 1);
  }

  /** What a tick makes of the fire times: none is ahead of the clock, a minute that has not moved
      leaves them alone, and after one that has only a late tick leaves late ones. */
  predicate FireTimes(was: map<int, int>, m: int, now: map<int, int>, clock: int) {
    && (Recent(was, m) ==> Recent(now, clock / 60))
    && (clock / 60 == m ==> now == was)
    && (clock / 60 > m && Recent(was, m) && Prompt(clock) ==> Unhurried(now, clock / 60))
  }

  lemma FiringFireTimes(s: Fired, active: set<int>, due: seq<DueEvt>, m: int, clock: int)
    requires m < clock / 60
    ensures FireTimes(s.firedAt, m, FireAll(s, active, due, clock).firedAt, clock)
  {
    var after := FireAll(s, active, due, clock).firedAt;
    forall key | key in after && Recent(s.firedAt, m)
      ensures after[key] < 60 * (clock / 60 + 1)
      ensures Prompt(clock) ==> after[key] + DEDUPE_SECONDS <= 60 * (clock / 60 + 1)
    {
      FiredAtAfter(s, active, due, clock, key);
    }
  }

  // ---- Boot ----

  /** What the boot pass knows after some of the list: the latest minute an entry of the relay
      had up to now and the action of the first one that had it. */
  ghost predicate Best(entries: seq<Event>, relay: int, now: int, best: int, on: bool) {
    && (exists i :: FirstOf(entries, relay, best, i) && entries[i].on == on) && best <= now
    && forall e, t :: e in entries && e.relay == relay && Hits(e, t) && t <= now ==> t <= best
  }

  lemma BestIsBootState(entries: seq<Event>, relay: int, now: int, best: int, on: bool)
    requires Best(entries, relay, now, best, on)
    ensures BootState(entries, relay, now, on)
  {
    var k :| FirstOf(entries, relay, best, k) && entries[k].on == on;
    assert entries[k] in entries;
    forall i, t | FirstOf(entries, relay, t, i) && t <= now && NoneLater(entries, relay, t, now)
      ensures on == entries[i].on
    {
      assert entries[i] in entries;
      assert t == best;
      assert i == k;
    }
  }
}
