/** The fleet-wide firmware-update lock (src/monitor/fw-update.js). Probes of different units
    interleave at their awaits; the probes of one unit follow each other. At most one unit may
    be inside the budget of its update. Times are milliseconds. */
module FirmwareUpdateLock {
  import opened Common
  import opened Runs
  import opened Sorting

  const BUDGET := 10 * 60000
  const VERIFY_AFTER := 90000
  const LATE_WATCH := 2 * 3600000

  /** The module variable `inflight`. */
  datatype Lock = Free | Held(unit: int, at: int)

  predicate Active(lock: Lock, clock: int) {
    lock.Held? && clock - lock.at < BUDGET
  }

  function Released(lock: Lock, unit: int): Lock {
    if lock.Held? && lock.unit == unit then Free else lock
  }

  /** Where the probe of a unit stands; `now` is the clock when it began, `reached` whether
      the unit answered. */
  datatype Probe =
    | Seeding(now: int, reached: bool)
    | Ready(now: int, reached: bool)
    | Checking(now: int)
    | Asking(now: int)
    | Verifying(now: int)

  /** `diary` holds the hops that were started before this process began and that nobody has
      judged yet. */
  datatype State = State(clock: int, lock: Lock, fleetSeeded: bool, diary: map<int, int>,
                         seeded: set<int>, pending: map<int, int>, probes: map<int, Probe>)

  datatype Step =
    | Passes(ms: nat)
    | SeedsFleet(newest: Option<int>) // the newest open hop of the diary takes the lock
    | MissesDiary                     // the fleet query failed: nothing is known
    | Begins(u: int, reached: bool)
    | SeedsUnit(u: int)
    | MissesUnit(u: int)
    | Ends(u: int)                    // a gate said no, or nothing is due
    | Checks(u: int)                  // gates passed, the schedule and version are read
    | Reserves(u: int)
    | IsRefused(u: int)               // an explicit no
    | Goes(u: int)                    // a yes, or a reply that was lost
    | StartsVerify(u: int)
    | Succeeds(u: int)                // the target version answers
    | Waits(u: int)
    | Fails(u: int)                   // the budget is spent

  predicate At(s: State, u: int) {
    u in s.probes
  }

  predicate OpenInDiary(s: State, u: int) {
    u in s.diary && s.clock - s.diary[u] < BUDGET
  }

  predicate IsNewest(s: State, newest: Option<int>) {
    if newest.None? then forall u :: u in s.diary ==> !OpenInDiary(s, u)
    else
      OpenInDiary(s, newest.value)
      && forall u :: u in s.diary && OpenInDiary(s, u) ==> s.diary[u] <= s.diary[newest.value]
  }

  /** The probe of a unit that answered waits for the fleet to be seeded. */
  predicate FleetKnown(s: State, u: int) {
    At(s, u) && s.probes[u].Seeding? && (s.probes[u].reached ==> s.fleetSeeded)
  }

  predicate OldEnough(s: State, u: int) {
    At(s, u) && u in s.pending && s.probes[u].now - s.pending[u] >= VERIFY_AFTER
  }

  /** The version was asked for, or the unit did not answer at all. */
  predicate Judging(s: State, u: int) {
    At(s, u) && (s.probes[u].Verifying? || (s.probes[u].Ready? && !s.probes[u].reached))
  }

  predicate Enabled(s: State, step: Step) {
    match step
    case Passes(_) => true
    case SeedsFleet(newest) => !s.fleetSeeded && IsNewest(s, newest)
    case MissesDiary => !s.fleetSeeded
    case Begins(u, _) => !At(s, u)
    case SeedsUnit(u) => FleetKnown(s, u)
    case MissesUnit(u) => FleetKnown(s, u)
    case Ends(u) => At(s, u) && (s.probes[u].Ready? || s.probes[u].Checking?)
    case Checks(u) => At(s, u) && s.probes[u].Ready? && s.probes[u].reached && s.fleetSeeded && u !in s.pending
    case Reserves(u) => At(s, u) && s.probes[u].Checking? && !Active(s.lock, s.clock)
    case IsRefused(u) => At(s, u) && s.probes[u].Asking?
    case Goes(u) => At(s, u) && s.probes[u].Asking?
    case StartsVerify(u) => At(s, u) && s.probes[u].Ready? && s.probes[u].reached && s.fleetSeeded && OldEnough(s, u)
    case Succeeds(u) => At(s, u) && s.probes[u].Verifying?
    case Waits(u) => At(s, u) && s.probes[u].Verifying? && u in s.pending && s.probes[u].now - s.pending[u] < BUDGET
    case Fails(u) => Judging(s, u) && u in s.pending && s.probes[u].now - s.pending[u] >= BUDGET
  }

  function To(s: State, u: int, p: Probe): State {
    s.(probes := s.probes[u := p])
  }

  function Done(s: State, u: int): State {
    s.(probes := s.probes - {u})
  }

  /** A verdict closes the unit's hop, in memory and in the diary, and frees its lock. */
  function Judged(s: State, u: int): State {
    Done(s, u).(pending := s.pending - {u}, diary := s.diary - {u}, lock := Released(s.lock, u))
  }

  function After(s: State, step: Step): State
    requires Enabled(s, step)
  {
    match step
    case Passes(ms) => s.(clock := s.clock + ms)
    case SeedsFleet(newest) =>
      var t := s.(fleetSeeded := true);
      if newest.Some? && (s.lock.Free? || s.diary[newest.value] > s.lock.at)
        then t.(lock := Held(newest.value, s.diary[newest.value])) else t
    case MissesDiary => s.(fleetSeeded := true)
    case Begins(u, reached) => To(s, u, if u in s.seeded then Ready(s.clock, reached) else Seeding(s.clock, reached))
    case SeedsUnit(u) =>
      var t := To(s, u, Ready(s.probes[u].now, s.probes[u].reached)).(seeded := s.seeded + {u});
      if u in s.diary && s.clock - s.diary[u] < BUDGET + LATE_WATCH then
        t.(pending := s.pending[u := s.diary[u]],
           lock := if s.lock.Free? || s.lock.unit == u then Held(u, s.diary[u]) else s.lock)
      else t
    case MissesUnit(u) => To(s, u, Ready(s.probes[u].now, s.probes[u].reached)).(seeded := s.seeded + {u})
    case Ends(u) => Done(s, u)
    case Checks(u) => To(s, u, Checking(s.probes[u].now))
    case Reserves(u) => To(s, u, Asking(s.probes[u].now)).(lock := Held(u, s.probes[u].now))
    case IsRefused(u) => Done(s, u).(lock := Released(s.lock, u))
    case Goes(u) => Done(s, u).(pending := s.pending[u := s.probes[u].now])
    case StartsVerify(u) => To(s, u, Verifying(s.probes[u].now))
    case Succeeds(u) => Judged(s, u)
    case Waits(u) => Done(s, u)
    case Fails(u) => Judged(s, u)
  }

  // ---- What holds in every state ----

  /** The unit has been told to update, or is being told, or was before this process began,
      and the budget of its update is not spent. */
  predicate Updating(s: State, u: int) {
    || (u in s.pending && s.clock - s.pending[u] < BUDGET)
    || (At(s, u) && s.probes[u].Asking? && s.clock - s.probes[u].now < BUDGET)
    || OpenInDiary(s, u)
  }

  predicate AtMostOneOpen(s: State) {
    forall u, v :: u in s.diary && v in s.diary && OpenInDiary(s, u) && OpenInDiary(s, v) ==> u == v
  }

  /** A unit still inside its budget has the lock, with its own start time. */
  predicate Covered(s: State, u: int) {
    && (u in s.pending && s.clock - s.pending[u] < BUDGET ==> s.lock == Held(u, s.pending[u]))
    && (At(s, u) && s.probes[u].Asking? && s.clock - s.probes[u].now < BUDGET ==> s.lock == Held(u, s.probes[u].now))
    && (OpenInDiary(s, u) ==> s.lock == Held(u, s.diary[u]))
  }

  /** Until the fleet is seeded, all there is comes from the diary. */
  ghost predicate FromDiary(s: State) {
    && (forall u :: u in s.pending && s.clock - s.pending[u] < BUDGET ==> u in s.diary && s.pending[u] == s.diary[u])
    && (forall u :: At(s, u) ==> !s.probes[u].Checking? && !s.probes[u].Asking? && !s.probes[u].Verifying?)
    && (Active(s.lock, s.clock) ==> s.lock.unit in s.diary && s.lock.at == s.diary[s.lock.unit])
  }

  predicate OneThingAtATime(s: State, u: int) {
    && (At(s, u) && (s.probes[u].Checking? || s.probes[u].Asking?) ==> u !in s.pending && u in s.seeded)
    && (At(s, u) && s.probes[u].Seeding? ==> u !in s.seeded && u !in s.pending)
    && (At(s, u) && s.probes[u].Ready? ==> u in s.seeded)
    && (At(s, u) && s.probes[u].Verifying? ==> u in s.pending)
    && (u in s.pending ==> u in s.seeded)
    && (At(s, u) ==> s.probes[u].now <= s.clock)
    && (At(s, u) && s.probes[u].Asking? ==> !OpenInDiary(s, u))
  }

  ghost predicate Inv(s: State) {
    && AtMostOneOpen(s) && (forall u :: OneThingAtATime(s, u))
    && (s.fleetSeeded ==> forall u :: Covered(s, u))
    && (!s.fleetSeeded ==> FromDiary(s))
  }

  /** A process starts knowing nothing. */
  predicate Fresh(s: State) {
    s.lock == Free && !s.fleetSeeded && s.seeded == {} && s.pending == map[] && s.probes == map[]
  }

  predicate Init(s: State) {
    Fresh(s) && AtMostOneOpen(s)
  }

  lemma InitIsFine(s: State)
    requires Init(s)
    ensures Inv(s)
  {
  }

  lemma StepKeepsOrder(s: State, step: Step, u: int)
    requires Enabled(s, step) && Inv(s)
    ensures OneThingAtATime(After(s, step), u)
  {
    assert OneThingAtATime(s, u);
    assert s.fleetSeeded ==> Covered(s, u);
  }

  lemma StepKeepsCover(s: State, step: Step, u: int)
    requires Enabled(s, step) && Inv(s) && s.fleetSeeded
    ensures Covered(After(s, step), u)
  {
    assert Covered(s, u) && OneThingAtATime(s, u);
  }

  lemma SeedingCovers(s: State, newest: Option<int>, u: int)
    requires Enabled(s, SeedsFleet(newest)) && Inv(s)
    ensures Covered(After(s, SeedsFleet(newest)), u)
  {
    assert OneThingAtATime(s, u);
  }

  lemma StepKeepsDiary(s: State, step: Step)
    requires Enabled(s, step) && Inv(s) && !After(s, step).fleetSeeded
    ensures FromDiary(After(s, step))
  {
  }

  /** The lock already carries every open hop of the diary. */
  ghost predicate Carried(s: State) {
    forall u :: OpenInDiary(s, u) ==> s.lock == Held(u, s.diary[u])
  }

  lemma MissCovers(s: State, u: int)
    requires Enabled(s, MissesDiary) && Inv(s) && Carried(s)
    ensures Covered(After(s, MissesDiary), u)
  {
    assert OneThingAtATime(s, u);
  }

  /** Every step keeps the lock with the unit inside its budget, a failed fleet query too when
      there is nothing it would have found that the lock does not carry. */
  lemma StepKeeps(s: State, step: Step)
    requires Enabled(s, step) && Inv(s) && (step.MissesDiary? ==> Carried(s))
    ensures Inv(After(s, step))
  {
    var t := After(s, step);
    forall u
      ensures OneThingAtATime(t, u)
    {
      StepKeepsOrder(s, step, u);
    }
    if t.fleetSeeded {
      forall u
        ensures Covered(t, u)
      {
        if s.fleetSeeded {
          StepKeepsCover(s, step, u);
        } else if step.MissesDiary? {
          MissCovers(s, u);
        } else {
          SeedingCovers(s, step.newest, u);
        }
      }
    } else {
      StepKeepsDiary(s, step);
    }
  }

  /** No two units are inside the budgets of their updates at the same time. */
  lemma OneAtATime(s: State, u: int, v: int)
    requires Inv(s) && Updating(s, u) && Updating(s, v)
    ensures u == v
    ensures s.fleetSeeded ==> s.lock.Held? && s.lock.unit == u && Active(s.lock, s.clock)
  {
    if s.fleetSeeded {
      assert Covered(s, u) && Covered(s, v);
    } else {
      assert OpenInDiary(s, u) && OpenInDiary(s, v);
    }
  }

  /** The unit whose probe makes the step; none for the clock and the fleet seeding. */
  function Actor(step: Step): Option<int> {
    match step
    case Passes(_) => None
    case SeedsFleet(_) => None
    case MissesDiary => None
    case _ => Some(step.u)
  }

  /** While a unit's lock is in force, nobody else's step takes or frees it. */
  lemma OnlyTheHolderReleases(s: State, step: Step)
    requires Enabled(s, step) && Inv(s) && Active(s.lock, s.clock)
    requires Actor(step) != Some(s.lock.unit)
    ensures After(s, step).lock == s.lock
  {
    if step.SeedsFleet? {
      assert OpenInDiary(s, s.lock.unit);
    }
  }

  // ---- The lock is passed on ----

  /** A refusal or a verdict: the unit's attempt is over. */
  predicate IsOver(step: Step) {
    step.IsRefused? || step.Succeeds? || step.Fails?
  }

  /** It frees the unit's own lock, closes its hop, and lets a unit that passed the gates reserve. */
  lemma LockIsPassedOn(s: State, step: Step, v: int)
    requires Enabled(s, step) && Inv(s) && IsOver(step) && (s.lock.Held? ==> s.lock.unit == step.u)
    requires At(s, v) && s.probes[v].Checking? && v != step.u
    ensures After(s, step).lock == Free && !At(After(s, step), step.u)
    ensures !step.IsRefused? ==> step.u !in After(s, step).pending && step.u !in After(s, step).diary
    ensures Enabled(After(s, step), Reserves(v))
  {
  }

  /** Nor does a unit that never reports back hold it for ever: after ten minutes another may
      reserve. */
  lemma LockExpires(s: State, v: int, ms: nat)
    requires At(s, v) && s.probes[v].Checking? && (s.lock.Held? ==> s.clock + ms - s.lock.at >= 600000)
    ensures Enabled(After(s, Passes(ms)), Reserves(v))
  {
  }

  // ---- Runs ----

  function Next(s: State, step: Step): State {
    if Enabled(s, step) then After(s, step) else s
  }

  const PROTOCOL := Machine((s: State, step: Step) => Enabled(s, step), (s: State, step: Step) => Next(s, step))

  /** The fleet query fails, if it does, only when nothing is lost by it. */
  ghost predicate HarmlessMiss(s: State, step: Step) {
    step.MissesDiary? ==> Carried(s)
  }

  ghost function Careful(): Machine<State, Step> {
    Under(PROTOCOL, (s: State, step: Step) => HarmlessMiss(s, step))
  }

  lemma RunKeepsLock(s: State, steps: seq<Step>)
    requires Inv(s) && CanRun(Careful(), s, steps)
    ensures Inv(Run(PROTOCOL, s, steps))
  {
    var inv := (t: State) => Inv(t);
    forall t, step | inv(t) && Careful().enabled(t, step)
      ensures inv(Careful().next(t, step))
    {
      StepKeeps(t, step);
    }
    RunKeeps(Careful(), inv, s, steps);
    RuledRun(PROTOCOL, (s: State, step: Step) => HarmlessMiss(s, step), s, steps);
  }

  /** In one process lifetime, under any interleaving, with lost replies, refusals and
      failures: at most one unit is inside the budget of its update. */
  lemma OneUpdateInTheFleet(s: State, steps: seq<Step>, u: int, v: int)
    requires Init(s) && CanRun(Careful(), s, steps)
    requires Updating(Run(PROTOCOL, s, steps), u) && Updating(Run(PROTOCOL, s, steps), v)
    ensures u == v
  {
    InitIsFine(s);
    RunKeepsLock(s, steps);
    OneAtATime(Run(PROTOCOL, s, steps), u, v);
  }

  // ---- When a failed fleet query is harmless ----

  ghost predicate OneUpdate(s: State) {
    forall u, v :: Updating(s, u) && Updating(s, v) ==> u == v
  }

  /** However the run goes on, at most one unit is updating. */
  ghost predicate SafeFrom(s: State) {
    forall steps :: CanRun(PROTOCOL, s, steps) ==> OneUpdate(Run(PROTOCOL, s, steps))
  }

  lemma NoTwo(s: State)
    requires Inv(s)
    ensures OneUpdate(s)
  {
    forall u, v | Updating(s, u) && Updating(s, v)
      ensures u == v
    {
      OneAtATime(s, u, v);
    }
  }

  /** Once the fleet is seeded the query is over, whatever came of it. */
  lemma SeededStaysSafe(s: State, steps: seq<Step>)
    requires Inv(s) && s.fleetSeeded && CanRun(PROTOCOL, s, steps)
    ensures OneUpdate(Run(PROTOCOL, s, steps))
  {
    var inv := (t: State) => Inv(t) && t.fleetSeeded;
    forall t, step | inv(t) && PROTOCOL.enabled(t, step)
      ensures inv(PROTOCOL.next(t, step))
    {
      StepKeeps(t, step);
    }
    RunKeeps(PROTOCOL, inv, s, steps);
    NoTwo(Run(PROTOCOL, s, steps));
  }

  /** The run, if it is one whose query fails only without harm, ends with one update at most. */
  ghost predicate StaysOne(s: State, steps: seq<Step>) {
    CanRun(Careful(), s, steps) ==> OneUpdate(Run(PROTOCOL, s, steps))
  }

  /** A process start is safe, whatever follows, exactly when the diary has one open hop at
      most. With two it is the start itself that has two units updating. */
  lemma StartIsSafeExactly(s: State)
    requires Fresh(s)
    ensures (forall steps :: StaysOne(s, steps)) <==> AtMostOneOpen(s)
  {
    if AtMostOneOpen(s) {
      InitIsFine(s);
      forall steps
        ensures StaysOne(s, steps)
      {
        if CanRun(Careful(), s, steps) {
          RunKeepsLock(s, steps);
          NoTwo(Run(PROTOCOL, s, steps));
        }
      }
    } else {
      var u, v :| u in s.diary && v in s.diary && OpenInDiary(s, u) && OpenInDiary(s, v) && u != v;
      assert Updating(s, u) && Updating(s, v);
      assert !OneUpdate(s) && Run(PROTOCOL, s, []) == s;
      assert !StaysOne(s, []);
    }
  }

  /** A unit nobody has heard of. */
  lemma FreshUnit(taken: set<int>) returns (v: int)
    ensures v !in taken
  {
    if taken == {} {
      v := 0;
    } else {
      var top := Greatest(taken);
      v := top + 1;
    }
  }

  lemma {:induction false} Greatest(s: set<int>) returns (top: int)
    requires s != {}
    ensures top in s && forall x :: x in s ==> x <= top
    decreases |s|
  {
    var some := SomeElement(s);
    var others := s - {some};
    assert forall x :: x in s ==> x == some || x in others;
    top := some;
    if others != {} {
      var rest := Greatest(others);
      top := if rest > some then rest else some;
    } else {
      assert forall x :: x in s ==> x == some;
    }
  }

  lemma Go(s0: State, steps: seq<Step>, s: State, step: Step) returns (more: seq<Step>, t: State)
    requires CanRun(PROTOCOL, s0, steps) && Run(PROTOCOL, s0, steps) == s && Enabled(s, step)
    ensures more == steps + [step] && t == After(s, step)
    ensures CanRun(PROTOCOL, s0, more) && Run(PROTOCOL, s0, more) == t
  {
    Extend(PROTOCOL, s0, steps, step);
    more, t := steps + [step], After(s, step);
  }

  /** The open hop of the diary takes the lock when the fleet is seeded. */
  lemma SeedingTakes(s: State, u: int)
    requires Init(s) && OpenInDiary(s, u)
    ensures Enabled(s, SeedsFleet(Some(u))) && After(s, SeedsFleet(Some(u))).lock == Held(u, s.diary[u])
  {
  }

  /** An update from beginning to end: the unit passes the gates, reserves, goes, and 90 seconds
      later answers with the new version; then nothing is pending and the lock is free. */
  lemma FullUpdate(u: int) returns (steps: seq<Step>, s: State)
    ensures CanRun(PROTOCOL, State(0, Free, false, map[], {}, map[], map[]), steps)
    ensures Run(PROTOCOL, State(0, Free, false, map[], {}, map[], map[]), steps) == s
    ensures s.lock == Free && s.pending == map[] && s.probes == map[] && s.clock == 90000
  {
    var s0 := State(0, Free, false, map[], {}, map[], map[]);
    steps, s := UpdateGoes(u);
    steps, s := Go(s0, steps, s, Passes(90000));
    steps, s := Go(s0, steps, s, Begins(u, true));
    steps, s := Go(s0, steps, s, StartsVerify(u));
    steps, s := Go(s0, steps, s, Succeeds(u));
    assert s.probes == map[] && s.pending == map[];
  }

  lemma UpdateGoes(u: int) returns (steps: seq<Step>, s: State)
    ensures CanRun(PROTOCOL, State(0, Free, false, map[], {}, map[], map[]), steps)
    ensures Run(PROTOCOL, State(0, Free, false, map[], {}, map[], map[]), steps) == s
    ensures s == State(0, Held(u, 0), true, map[], {u}, map[u := 0], map[])
  {
    var s0 := State(0, Free, false, map[], {}, map[], map[]);
    steps, s := Go(s0, [], s0, SeedsFleet(None));
    steps, s := Go(s0, steps, s, Begins(u, true));
    steps, s := Go(s0, steps, s, SeedsUnit(u));
    steps, s := Go(s0, steps, s, Checks(u));
    steps, s := Go(s0, steps, s, Reserves(u));
    steps, s := Go(s0, steps, s, Goes(u));
    assert s.probes == map[] && s.seeded == {u};
  }

  /** After a failed query a new unit begins its update, if the lock is not in force. */
  lemma AnotherBegins(s: State, v: int) returns (steps: seq<Step>, t: State)
    requires s.fleetSeeded && !Active(s.lock, s.clock) && !At(s, v) && v !in s.seeded && v !in s.pending
    ensures CanRun(PROTOCOL, s, steps) && Run(PROTOCOL, s, steps) == t && Updating(t, v)
    ensures t.diary == s.diary && t.clock == s.clock
  {
    steps, t := Go(s, [], s, Begins(v, true));
    steps, t := Go(s, steps, t, MissesUnit(v));
    steps, t := Go(s, steps, t, Checks(v));
    steps, t := Go(s, steps, t, Reserves(v));
  }

  /** When the query fails while an open hop is not carried by the lock, two units can be
      inside their budgets. */
  lemma UncarriedHopBreaks(s: State, u: int)
    requires Inv(s) && Enabled(s, MissesDiary) && OpenInDiary(s, u) && s.lock != Held(u, s.diary[u])
    ensures !SafeFrom(After(s, MissesDiary))
  {
    var t := After(s, MissesDiary);
    var v := FreshUnit(s.probes.Keys + s.seeded + s.pending.Keys + s.diary.Keys);
    assert !Active(s.lock, s.clock) by {
      if Active(s.lock, s.clock) {
        assert OpenInDiary(s, s.lock.unit);
      }
    }
    var steps, last := AnotherBegins(t, v);
    assert Updating(last, u) && Updating(last, v) && u != v;
    assert !OneUpdate(Run(PROTOCOL, t, steps));
  }

  /** The one query at process start may fail without harm exactly when the lock carries every
      open hop it would have found. */
  lemma MissIsHarmlessExactly(s: State)
    requires Inv(s) && Enabled(s, MissesDiary)
    ensures SafeFrom(After(s, MissesDiary)) <==> Carried(s)
  {
    if Carried(s) {
      StepKeeps(s, MissesDiary);
      forall steps | CanRun(PROTOCOL, After(s, MissesDiary), steps)
        ensures OneUpdate(Run(PROTOCOL, After(s, MissesDiary), steps))
      {
        SeededStaysSafe(After(s, MissesDiary), steps);
      }
    } else {
      var u :| OpenInDiary(s, u) && s.lock != Held(u, s.diary[u]);
      UncarriedHopBreaks(s, u);
    }
  }

  /** One second after a restart, with unit 1 one second into its hop: the query must not
      fail. */
  lemma UnreadDiaryLosesTheLock()
    ensures var s := State(1000, Free, false, map[1 := 0], {}, map[], map[]);
      Init(s) && !SafeFrom(After(s, MissesDiary))
  {
    var s := State(1000, Free, false, map[1 := 0], {}, map[], map[]);
    InitIsFine(s);
    UncarriedHopBreaks(s, 1);
  }
}
