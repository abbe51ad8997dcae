/** serialByKey (src/whatsapp/queue.js): the jobs of one key run one after the other although
    everything happens in separate callbacks, and the key's lane is dropped and made anew. */
module JobLanes {
  import opened Common
  import opened Runs

  /** A job waits for its lane's tail, runs, settles either way, is taken off `pending` by its
      own tail, and lets the last callback see whether the lane can go. */
  datatype Phase = Waiting | Running | Settled | Retired | Cleaned

  datatype Job = Job(lane: nat, phase: Phase)

  /** `first` is the index of the lane's first job: it has no tail to wait for. */
  datatype Lane = Lane(first: nat, pending: int)

  /** One key: the lane in the table, if any, all lanes ever made, and all accepted jobs. */
  datatype Lanes = Lanes(current: Option<nat>, made: seq<Lane>, jobs: seq<Job>)

  const EMPTY := Lanes(None, [], [])

  datatype Step = Submit(max: int) | Start(i: nat) | Finish(i: nat) | Retire(i: nat) | Clean(i: nat)

  predicate Over(phase: Phase) {
    phase == Retired || phase == Cleaned
  }

  predicate InPhase(s: Lanes, i: nat, phase: Phase) {
    i < |s.jobs| && s.jobs[i].phase == phase && s.jobs[i].lane < |s.made|
  }

  predicate Ready(s: Lanes) {
    s.current.Some? ==> s.current.value < |s.made|
  }

  predicate Enabled(s: Lanes, step: Step) {
    match step
    case Submit(_) => Ready(s)
    case Start(i) => InPhase(s, i, Waiting)
      && (i == s.made[s.jobs[i].lane].first || (i > 0 && Over(s.jobs[i - 1].phase)))
    case Finish(i) => InPhase(s, i, Running)
    case Retire(i) => InPhase(s, i, Settled)
    case Clean(i) => InPhase(s, i, Retired)
  }

  function WithPhase(s: Lanes, i: nat, phase: Phase): Lanes
    requires i < |s.jobs|
  {
    s.(jobs := s.jobs[i := s.jobs[i].(phase := phase)])
  }

  /** The lane a submission joins, and whether it must be refused. */
  function Target(s: Lanes): nat {
    if s.current.Some? then s.current.value else |s.made|
  }

  /** pendingIn */
  function PendingIn(s: Lanes): int {
    if s.current.Some? && s.current.value < |s.made| then s.made[s.current.value].pending else 0
  }

  function Submitted(s: Lanes, max: int): Lanes
    requires Ready(s)
  {
    if PendingIn(s) >= max then s
    else
      var lane := Target(s);
      var made := if s.current.Some? then s.made else s.made + [Lane(|s.jobs|, 0)];
      Lanes(Some(lane), made[lane := made[lane].(pending := made[lane].pending + 1)], s.jobs + [Job(lane, Waiting)])
  }

  function After(s: Lanes, step: Step): Lanes
    requires Enabled(s, step)
  {
    match step
    case Submit(max) => Submitted(s, max)
    case Start(i) => WithPhase(s, i, Running)
    case Finish(i) => WithPhase(s, i, Settled)
    case Retire(i) =>
      var l := s.jobs[i].lane;
      WithPhase(s, i, Retired).(made := s.made[l := s.made[l].(pending := s.made[l].pending - 1)])
    case Clean(i) =>
      var l := s.jobs[i].lane;
      WithPhase(s, i, Cleaned).(current := if s.current == Some(l) && s.made[l].pending == 0 then None else s.current)
  }

  // ---- Invariant ----

  /** How many jobs of a lane have not been taken off yet. */
  function Open(jobs: seq<Job>, lane: nat): nat {
    if jobs == [] then 0
    else
      Open(jobs[..|jobs| - 1], lane)
      + if jobs[|jobs| - 1].lane == lane && !Over(jobs[|jobs| - 1].phase) then 1 else 0
  }

  predicate Counted(s: Lanes) {
    forall l :: 0 <= l < |s.made| ==> s.made[l].pending == Open(s.jobs, l)
  }

  /** Only the last lane can be in the table, and a lane out of it has no open job. */
  predicate OthersDone(s: Lanes) {
    && (s.current.Some? ==> s.current.value == |s.made| - 1)
    && forall l :: 0 <= l < |s.made| && s.current != Some(l) ==> s.made[l].pending == 0
  }

  predicate Placed(s: Lanes) {
    && (forall i :: 0 <= i < |s.jobs| ==> s.jobs[i].lane < |s.made| && s.made[s.jobs[i].lane].first <= i)
    && (forall l :: 0 <= l < |s.made| ==> s.made[l].first <= |s.jobs|)
    && forall i, j :: 0 <= i < j < |s.jobs| ==> s.jobs[i].lane <= s.jobs[j].lane
  }

  /** A job begins only when every job submitted before it is over. */
  predicate InOrder(s: Lanes) {
    forall i, j :: 0 <= i < j < |s.jobs| && s.jobs[j].phase != Waiting ==> Over(s.jobs[i].phase)
  }

  predicate Limited(s: Lanes, max: int) {
    forall l :: 0 <= l < |s.made| ==> s.made[l].pending <= max
  }

  predicate Inv(s: Lanes, max: int) {
    Counted(s) && OthersDone(s) && Placed(s) && InOrder(s) && Limited(s, max)
  }

  lemma {:induction false} OpenChange(jobs: seq<Job>, i: nat, job: Job, lane: nat)
    requires i < |jobs| && job.lane == jobs[i].lane
    ensures Open(jobs[i := job], lane) - Open(jobs, lane)
      == if job.lane != lane || Over(job.phase) == Over(jobs[i].phase) then 0 else if Over(job.phase) then -1 else 1
  {
    var n := |jobs| - 1;
    if i < n {
      assert jobs[i := job][..n] == jobs[..n][i := job];
      OpenChange(jobs[..n], i, job, lane);
    } else {
      assert jobs[i := job][..n] == jobs[..n];
    }
  }

  lemma {:induction false} OpenZero(jobs: seq<Job>, lane: nat, i: nat)
    requires i < |jobs| && jobs[i].lane == lane && Open(jobs, lane) == 0
    ensures Over(jobs[i].phase)
  {
    if i < |jobs| - 1 {
      OpenZero(jobs[..|jobs| - 1], lane, i);
    }
  }

  lemma {:induction false} OpenNone(jobs: seq<Job>, lane: nat)
    requires forall i :: 0 <= i < |jobs| ==> jobs[i].lane != lane
    ensures Open(jobs, lane) == 0
  {
    if jobs != [] {
      OpenNone(jobs[..|jobs| - 1], lane);
    }
  }

  lemma OpenPush(jobs: seq<Job>, job: Job, lane: nat)
    ensures Open(jobs + [job], lane) == Open(jobs, lane) + if job.lane == lane && !Over(job.phase) then 1 else 0
  {
    assert (jobs + [job])[..|jobs|] == jobs;
  }

  lemma OpenPositive(jobs: seq<Job>, i: nat)
    requires i < |jobs| && !Over(jobs[i].phase)
    ensures Open(jobs, jobs[i].lane) > 0
  {
    if Open(jobs, jobs[i].lane) == 0 {
      OpenZero(jobs, jobs[i].lane, i);
    }
  }

  lemma SubmitCounts(s: Lanes, max: int)
    requires Counted(s) && Placed(s) && Ready(s)
    ensures Counted(Submitted(s, max))
  {
    var t := Submitted(s, max);
    if PendingIn(s) < max {
      forall l | 0 <= l < |t.made|
        ensures t.made[l].pending == Open(t.jobs, l)
      {
        OpenPush(s.jobs, Job(Target(s), Waiting), l);
        if l == |s.made| {
          OpenNone(s.jobs, l);
        }
      }
    }
  }

  lemma SubmitPlaces(s: Lanes, max: int)
    requires Placed(s) && OthersDone(s) && InOrder(s) && Ready(s)
    ensures Placed(Submitted(s, max)) && InOrder(Submitted(s, max))
  {
  }

  lemma SubmitLimits(s: Lanes, max: int, bound: int)
    requires OthersDone(s) && Limited(s, bound) && Ready(s) && max <= bound
    ensures OthersDone(Submitted(s, max)) && Limited(Submitted(s, max), bound)
  {
  }

  lemma SubmitKeeps(s: Lanes, max: int, bound: int)
    requires Inv(s, bound) && max <= bound
    ensures Ready(s) && Inv(Submitted(s, max), bound)
  {
    SubmitCounts(s, max);
    SubmitPlaces(s, max);
    SubmitLimits(s, max, bound);
  }

  lemma PhaseChangesCount(s: Lanes, i: nat, phase: Phase, l: nat)
    requires i < |s.jobs|
    ensures Open(WithPhase(s, i, phase).jobs, l) - Open(s.jobs, l)
      == if s.jobs[i].lane != l || Over(phase) == Over(s.jobs[i].phase) then 0 else if Over(phase) then -1 else 1
  {
    OpenChange(s.jobs, i, s.jobs[i].(phase := phase), l);
  }

  /** When a job may start, everything before it is over, in this lane and in older ones. */
  lemma StartIsAlone(s: Lanes, max: int, i: nat, k: nat)
    requires Inv(s, max) && Enabled(s, Start(i)) && k < i
    ensures Over(s.jobs[k].phase)
  {
    var lane := s.jobs[i].lane;
    if i == s.made[lane].first {
      OpenPositive(s.jobs, i);
      assert s.current == Some(lane);
      assert s.jobs[k].lane != lane;
      OpenZero(s.jobs, s.jobs[k].lane, k);
    } else {
      assert Over(s.jobs[i - 1].phase);
      assert k < i - 1 ==> Over(s.jobs[k].phase);
    }
  }

  lemma CallbackCounts(s: Lanes, step: Step)
    requires Counted(s) && !step.Submit? && Enabled(s, step)
    ensures Counted(After(s, step))
  {
    var t := After(s, step);
    forall l | 0 <= l < |t.made|
      ensures t.made[l].pending == Open(t.jobs, l)
    {
      PhaseChangesCount(s, step.i, t.jobs[step.i].phase, l);
    }
  }

  lemma CallbackOrders(s: Lanes, step: Step, max: int)
    requires Inv(s, max) && !step.Submit? && Enabled(s, step)
    ensures InOrder(After(s, step))
  {
    var t := After(s, step);
    forall a, b | 0 <= a < b < |t.jobs| && t.jobs[b].phase != Waiting
      ensures Over(t.jobs[a].phase)
    {
      if step.Start? && b == step.i {
        StartIsAlone(s, max, b, a);
      } else {
        assert Over(s.jobs[a].phase);
      }
    }
  }

  lemma CallbackPlaces(s: Lanes, step: Step)
    requires Placed(s) && !step.Submit? && Enabled(s, step)
    ensures Placed(After(s, step))
  {
    var t := After(s, step);
    assert |t.jobs| == |s.jobs| && |t.made| == |s.made|;
    assert forall k :: 0 <= k < |s.jobs| ==> t.jobs[k].lane == s.jobs[k].lane;
    assert forall l :: 0 <= l < |s.made| ==> t.made[l].first == s.made[l].first;
  }

  /** A retired job was counted, so its lane is the one in the table. */
  lemma CallbackLimits(s: Lanes, step: Step, max: int)
    requires Inv(s, max) && !step.Submit? && Enabled(s, step)
    ensures OthersDone(After(s, step)) && Limited(After(s, step), max)
  {
    if step.Retire? {
      OpenPositive(s.jobs, step.i);
    }
  }

  lemma CallbackKeeps(s: Lanes, step: Step, max: int)
    requires Inv(s, max) && !step.Submit? && Enabled(s, step)
    ensures Inv(After(s, step), max)
  {
    CallbackCounts(s, step);
    CallbackOrders(s, step, max);
    CallbackPlaces(s, step);
    CallbackLimits(s, step, max);
  }

  lemma StepKeeps(s: Lanes, step: Step, bound: int)
    requires Inv(s, bound) && Enabled(s, step) && (step.Submit? ==> step.max <= bound)
    ensures Inv(After(s, step), bound)
  {
    if step.Submit? {
      SubmitKeeps(s, step.max, bound);
    } else {
      CallbackKeeps(s, step, bound);
    }
  }

  // ---- Runs ----

  function Next(s: Lanes, step: Step): Lanes {
    if Enabled(s, step) then After(s, step) else s
  }

  const PROTOCOL := Machine((s: Lanes, step: Step) => Enabled(s, step), (s: Lanes, step: Step) => Next(s, step))

  /** The largest limit a submission came with. */
  function LargestLimit(steps: seq<Step>): nat {
    if steps == [] then 0
    else
      var rest := LargestLimit(steps[1..]);
      if steps[0].Submit? && steps[0].max > rest then steps[0].max else rest
  }

  ghost function Within(bound: int): Machine<Lanes, Step> {
    Under(PROTOCOL, (s: Lanes, step: Step) => step.Submit? ==> step.max <= bound)
  }

  lemma {:induction false} LimitsWithin(s: Lanes, steps: seq<Step>, bound: int)
    requires CanRun(PROTOCOL, s, steps) && LargestLimit(steps) <= bound
    ensures CanRun(Within(bound), s, steps)
    decreases |steps|
  {
    if steps != [] {
      LimitsWithin(After(s, steps[0]), steps[1..], bound);
    }
  }

  lemma RunKeepsLanes(s: Lanes, steps: seq<Step>, bound: int)
    requires Inv(s, bound) && CanRun(PROTOCOL, s, steps) && LargestLimit(steps) <= bound
    ensures Inv(Run(PROTOCOL, s, steps), bound)
  {
    var inv := (t: Lanes) => Inv(t, bound);
    forall t, step | inv(t) && Within(bound).enabled(t, step)
      ensures inv(Within(bound).next(t, step))
    {
      StepKeeps(t, step, bound);
    }
    LimitsWithin(s, steps, bound);
    RunKeeps(Within(bound), inv, s, steps);
    RuledRun(PROTOCOL, (s: Lanes, step: Step) => step.Submit? ==> step.max <= bound, s, steps);
  }

  /** Accepted jobs that no tail has taken off, over all the key's lanes. */
  function Outstanding(jobs: seq<Job>): nat {
    if jobs == [] then 0 else Outstanding(jobs[..|jobs| - 1]) + if Over(jobs[|jobs| - 1].phase) then 0 else 1
  }

  lemma {:induction false} OutstandingInOneLane(jobs: seq<Job>, lane: nat)
    requires forall i :: 0 <= i < |jobs| && jobs[i].lane != lane ==> Over(jobs[i].phase)
    ensures Outstanding(jobs) == Open(jobs, lane)
  {
    if jobs != [] {
      OutstandingInOneLane(jobs[..|jobs| - 1], lane);
    }
  }

  lemma PendingIsOutstanding(s: Lanes, max: int)
    requires Inv(s, max)
    ensures PendingIn(s) == Outstanding(s.jobs)
  {
    var lane := Target(s);
    forall i | 0 <= i < |s.jobs| && s.jobs[i].lane != lane
      ensures Over(s.jobs[i].phase)
    {
      OpenZero(s.jobs, s.jobs[i].lane, i);
    }
    OutstandingInOneLane(s.jobs, lane);
    if s.current.None? {
      OpenNone(s.jobs, lane);
    }
  }

  lemma PendingWithin(s: Lanes, bound: nat)
    requires Inv(s, bound)
    ensures InOrder(s) && PendingIn(s) == Outstanding(s.jobs) <= bound
  {
    PendingIsOutstanding(s, bound);
  }

  lemma EmptyIsFine(bound: nat)
    ensures Inv(EMPTY, bound)
  {
  }

  lemma SerialFrom(s: Lanes, steps: seq<Step>, bound: nat)
    requires Inv(s, bound) && CanRun(PROTOCOL, s, steps) && LargestLimit(steps) <= bound
    ensures InOrder(Run(PROTOCOL, s, steps))
    ensures PendingIn(Run(PROTOCOL, s, steps)) == Outstanding(Run(PROTOCOL, s, steps).jobs) <= bound
  {
    RunKeepsLanes(s, steps, bound);
    PendingWithin(Run(PROTOCOL, s, steps), bound);
  }

  /** In every run, with whatever limits submissions come: jobs of a key never overlap and begin
      in submission order, `pending` is the number accepted and not yet retired, and it never
      passes the largest limit used. */
  lemma LanesAreSerial(s: Lanes, steps: seq<Step>)
    requires s == EMPTY && CanRun(PROTOCOL, s, steps)
    ensures InOrder(Run(PROTOCOL, s, steps))
    ensures PendingIn(Run(PROTOCOL, s, steps)) == Outstanding(Run(PROTOCOL, s, steps).jobs) <= LargestLimit(steps)
  {
    EmptyIsFine(LargestLimit(steps));
    SerialFrom(s, steps, LargestLimit(steps));
  }

  /** Each submission is refused exactly when `pending` has reached its own limit. */
  lemma RefusedAtItsLimit(s: Lanes, max: int, bound: int)
    requires Inv(s, bound)
    ensures Submitted(s, max).jobs == s.jobs <==> Outstanding(s.jobs) >= max
    ensures Outstanding(s.jobs) >= max ==> Submitted(s, max) == s
  {
    PendingIsOutstanding(s, bound);
  }

  lemma OneAtATime(s: Lanes, i: nat, j: nat)
    requires InOrder(s) && InPhase(s, i, Running) && InPhase(s, j, Running)
    ensures i == j
  {
    assert i < j ==> Over(s.jobs[i].phase);
    assert j < i ==> Over(s.jobs[j].phase);
  }

  /** A lane leaves the table only when none of the key's jobs is open. */
  lemma NoLaneDroppedWithWork(s: Lanes, step: Step, max: nat, k: nat)
    requires Inv(s, max) && Enabled(s, step) && s.current.Some? && After(s, step).current.None? && k < |s.jobs|
    ensures Over(s.jobs[k].phase)
  {
    OpenZero(s.jobs, s.jobs[k].lane, k);
  }

  /** Nothing gets stuck, whatever failed: an open job always has some job that can move. */
  lemma NeverStuck(s: Lanes, max: nat, k: nat) returns (step: Step)
    requires Inv(s, max) && k < |s.jobs| && !Over(s.jobs[k].phase)
    ensures !step.Submit? && !step.Clean? && Enabled(s, step) && step.i <= k
    decreases k
  {
    match s.jobs[k].phase
    case Running => step := Finish(k);
    case Settled => step := Retire(k);
    case Waiting =>
      if k == s.made[s.jobs[k].lane].first || Over(s.jobs[k - 1].phase) {
        step := Start(k);
      } else {
        step := NeverStuck(s, max, k - 1);
      }
  }

  // ---- The queue object ----

  function NextPhase(phase: Phase): Phase {
    match phase
    case Waiting => Running
    case Running => Settled
    case Settled => Retired
    case Retired => Cleaned
    case Cleaned => Cleaned
  }

  class JobQueue<Key(==)> {
    var keys: map<Key, Lanes>
    ghost var largest: nat // the largest limit a submission came with

    constructor ()
      ensures Valid() && keys == map[] && largest == 0
    {
      keys, largest := map[], 0;
    }

    /** The lanes of a key; a key never seen has none. */
    function Of(key: Key): Lanes
      reads this
    {
      Lookup(keys, key)
    }

    ghost predicate Valid()
      reads this
    {
      AllInv(keys, largest)
    }

    /** What Valid says of one key: order, no overlap, and an exact bounded count. */
    lemma KeyIsSerial(key: Key)
      requires Valid()
      ensures InOrder(Of(key)) && PendingIn(Of(key)) == Outstanding(Of(key).jobs) <= largest
    {
      LookupInv(keys, key, largest);
      PendingWithin(Of(key), largest);
    }

    /** serialByKey: refused exactly when the key's open jobs have reached this call's limit,
        else queued behind the key's last job. */
    method SerialByKey(key: Key, max: int) returns (accepted: bool)
      requires Valid()
      modifies this
      ensures Valid() && largest == if max > old(largest) then max else old(largest)
      ensures accepted <==> Outstanding(old(Of(key)).jobs) < max
      ensures !accepted ==> keys == old(keys)
      ensures accepted ==> key in keys && keys == old(keys)[key := keys[key]]
      ensures accepted ==> Appended(old(Of(key)), Of(key))
    {
      ghost var bound: nat := if max > largest then max else largest;
      SubmitToKey(keys, key, max, largest, bound);
      largest := bound;
      var s := Of(key);
      if PendingIn(s) >= max {
        return false;
      }
      keys := keys[key := Submitted(s, max)];
      accepted := true;
    }

    /** One of a job's callbacks, on its own turn of the event loop: the job moves on by one
        phase and no other job changes. It starts only when every earlier job is over, and only
        its tail takes it off the count. */
    method Callback(key: Key, step: Step)
      requires Valid() && key in keys && !step.Submit? && Enabled(keys[key], step)
      modifies this
      ensures Valid() && largest == old(largest)
      ensures key in keys && keys == old(keys)[key := keys[key]]
      ensures MovedOn(old(keys)[key], keys[key], step)
    {
      CallbackMoves(keys[key], step, largest);
      keys := keys[key := After(keys[key], step)];
    }
  }

  function Lookup<Key(==)>(keys: map<Key, Lanes>, key: Key): Lanes {
    if key in keys then keys[key] else EMPTY
  }

  predicate AllInv<Key>(keys: map<Key, Lanes>, bound: int) {
    forall key :: key in keys ==> Inv(keys[key], bound)
  }

  lemma LookupInv<Key>(keys: map<Key, Lanes>, key: Key, bound: nat)
    requires AllInv(keys, bound)
    ensures Inv(Lookup(keys, key), bound)
  {
    EmptyIsFine(bound);
  }

  /** What a submission to a key keeps, for all keys. */
  lemma SubmitToKey<Key>(keys: map<Key, Lanes>, key: Key, max: int, was: nat, bound: nat)
    requires AllInv(keys, was) && was <= bound && max <= bound
    ensures var s := Lookup(keys, key);
      && AllInv(keys, bound) && Ready(s) && (PendingIn(s) < max <==> Outstanding(s.jobs) < max)
      && (PendingIn(s) < max ==> AllInv(keys[key := Submitted(s, max)], bound) && Appended(s, Submitted(s, max)))
  {
    var s := Lookup(keys, key);
    forall k | k in keys
      ensures Inv(keys[k], bound)
    {
      WiderBound(keys[k], was, bound);
    }
    LookupInv(keys, key, bound);
    SubmitCases(s, max, bound);
  }

  lemma WiderBound(s: Lanes, was: nat, now: nat)
    requires was <= now && Inv(s, was)
    ensures Inv(s, now)
  {
  }

  /** One more job, waiting behind all the others. */
  predicate Appended(was: Lanes, now: Lanes) {
    && |now.jobs| == |was.jobs| + 1 && now.jobs[..|was.jobs|] == was.jobs
    && now.jobs[|was.jobs|].phase == Waiting && Outstanding(now.jobs) == Outstanding(was.jobs) + 1
  }

  lemma SubmitCases(s: Lanes, max: int, bound: nat)
    requires Inv(s, bound) && max <= bound
    ensures Ready(s) && (PendingIn(s) < max <==> Outstanding(s.jobs) < max)
    ensures PendingIn(s) < max ==> Inv(Submitted(s, max), bound) && Appended(s, Submitted(s, max))
  {
    PendingIsOutstanding(s, bound);
    SubmitKeeps(s, max, bound);
    var job := Job(Target(s), Waiting);
    assert (s.jobs + [job])[..|s.jobs|] == s.jobs;
  }

  /** The job moved on and no other did; it started only when all before it were over, and only
      its tail took it off the count. */
  predicate MovedOn(was: Lanes, now: Lanes, step: Step)
    requires !step.Submit?
  {
    && |now.jobs| == |was.jobs| && step.i < |was.jobs|
    && now.jobs == was.jobs[step.i := Job(was.jobs[step.i].lane, NextPhase(was.jobs[step.i].phase))]
    && (step.Start? ==> forall j :: 0 <= j < step.i ==> Over(now.jobs[j].phase))
    && Outstanding(now.jobs) == Outstanding(was.jobs) - if step.Retire? then 1 else 0
  }

  lemma JobAdvances(s: Lanes, step: Step)
    requires !step.Submit? && Enabled(s, step)
    ensures var job := s.jobs[step.i];
      After(s, step).jobs == s.jobs[step.i := Job(job.lane, NextPhase(job.phase))]
      && (Over(NextPhase(job.phase)) != Over(job.phase) <==> step.Retire?)
  {
  }

  lemma CallbackMoves(s: Lanes, step: Step, bound: nat)
    requires Inv(s, bound) && !step.Submit? && Enabled(s, step)
    ensures Inv(After(s, step), bound) && MovedOn(s, After(s, step), step)
  {
    CallbackKeeps(s, step, bound);
    MoveCounts(s, step);
    EarlierAreOver(s, step, bound);
  }

  lemma MoveCounts(s: Lanes, step: Step)
    requires !step.Submit? && Enabled(s, step)
    ensures var job := s.jobs[step.i];
      After(s, step).jobs == s.jobs[step.i := Job(job.lane, NextPhase(job.phase))]
    ensures Outstanding(After(s, step).jobs) == Outstanding(s.jobs) - if step.Retire? then 1 else 0
  {
    JobAdvances(s, step);
    PhaseChangesOutstanding(s.jobs, step.i, NextPhase(s.jobs[step.i].phase));
  }

  lemma EarlierAreOver(s: Lanes, step: Step, bound: nat)
    requires Inv(s, bound) && !step.Submit? && Enabled(s, step)
    ensures step.Start? ==> forall j :: 0 <= j < step.i < |s.jobs| ==> Over(s.jobs[j].phase)
  {
    if step.Start? {
      forall j | 0 <= j < step.i
        ensures Over(s.jobs[j].phase)
      {
        StartIsAlone(s, bound, step.i, j);
      }
    }
  }

  lemma {:induction false} PhaseChangesOutstanding(jobs: seq<Job>, i: nat, phase: Phase)
    requires i < |jobs|
    ensures Outstanding(jobs[i := jobs[i].(phase := phase)]) - Outstanding(jobs)
      == if Over(phase) == Over(jobs[i].phase) then 0 else if Over(phase) then -1 else 1
  {
    var n := |jobs| - 1;
    var after := jobs[i := jobs[i].(phase := phase)];
    if i < n {
      assert after[..n] == jobs[..n][i := jobs[i].(phase := phase)];
      PhaseChangesOutstanding(jobs[..n], i, phase);
    } else {
      assert after[..n] == jobs[..n];
    }
  }
}
