/** The table of due occurrences, schedule_executions (src/services/executions.js), and the
    activities that write it while others are half done (src/scheduler/tick.js): the tick, its
    backup command, the retry, device reports, the reconcile and the catch-up. Each UPDATE or
    INSERT with its guard is one atomic write. */
module ExecutionRows {
  import opened Common
  import opened Runs

  datatype Status = Pending | Unverified | Failed | Executed
  datatype Author = Nobody | Device | Server
  datatype Row = Row(status: Status, author: Author)

  /** The unique key of the table. */
  datatype Key = Key(schedule: int, occurrence: int, off: bool)

  type Table = map<Key, Row>

  // ---- Writes ----

  datatype Write =
    | InsertIgnore(row: Row)
    | Upsert
    | Settle(open: set<Status>, author: Author)
    | Fail(open: set<Status>)

  /** One write to the row of `key`. */
  function Apply(rows: Table, key: Key, w: Write): Table {
    match w
    case InsertIgnore(row) => if key in rows then rows else rows[key := row]
    case Upsert =>
      rows[key := Row(Executed, if key in rows && rows[key].status == Executed then rows[key].author else Device)]
    case Settle(open, author) => if key in rows && rows[key].status in open
      then rows[key := Row(Executed, author)] else rows
    case Fail(open) => if key in rows && rows[key].status in open then rows[key := Row(Failed, Nobody)] else rows
  }

  function Rank(status: Status): int {
    match status
    case Pending => 0
    case Unverified => 0
    case Failed => 1
    case Executed => 2
  }

  /** Only an executed row names who did it, and a pending one the server that is trying. */
  predicate GoodRow(row: Row) {
    match row.status
    case Pending => row.author == Server
    case Executed => row.author != Nobody
    case _ => row.author == Nobody
  }

  predicate GoodTable(rows: Table) {
    forall k :: k in rows ==> GoodRow(rows[k])
  }

  /** Rows are never lost, never step back, and an executed one never changes again. */
  predicate Onward(was: Table, now: Table) {
    forall k :: k in was ==> k in now && RowOnward(was[k], now[k])
  }

  predicate RowOnward(was: Row, now: Row) {
    Rank(was.status) <= Rank(now.status) && (was.status == Executed ==> now == was)
    && (now.status == Unverified ==> was == now) && (now.status == Pending ==> was == now)
  }

  /** A write the code makes: guards exclude rows that are already settled. */
  predicate Lawful(w: Write) {
    match w
    case InsertIgnore(row) => GoodRow(row)
    case Upsert => true
    case Settle(open, author) => Executed !in open && author != Nobody
    case Fail(open) => Executed !in open
  }

  lemma WriteKeeps(rows: Table, key: Key, w: Write)
    requires GoodTable(rows) && Lawful(w)
    ensures GoodTable(Apply(rows, key, w)) && Onward(rows, Apply(rows, key, w))
    ensures forall k :: k != key ==>
      (k in rows <==> k in Apply(rows, key, w)) && (k in rows ==> Apply(rows, key, w)[k] == rows[k])
  {
  }

  // ---- Activities and their interleaving ----

  /** Where an activity stands between two of its awaits. */
  datatype Activity =
    | Judging(key: Key)
    | Inserted(key: Key)
    | Attempting(key: Key)
    | Retrying(key: Key)
    | Reconciling(key: Key)
    | Restoring(key: Key)

  /** What the outside world said, and the processes that died. */
  datatype Evidence = Reported(key: Key) | Acked(key: Key) | StateMatched(key: Key) | Abandoned(key: Key)

  datatype State = State(rows: Table, active: map<int, Activity>, heard: set<Evidence>)

  datatype Step =
    | SeesNoRow(p: int, key: Key)      // tick or startup scan: no row yet for a due occurrence
    | FindsItDone(p: int)              // tick: a demo unit, or the channel already in that state
    | CannotReach(p: int, row: Row)    // tick or startup scan: no command is possible now
    | InsertsPending(p: int)           // tick: takes the occurrence on
    | ReadsBack(p: int)                // tick: fires only when the row it reads is pending
    | RetryPicks(p: int, key: Key)     // retry: a failed row
    | RetryFindsItDone(p: int)
    | RetryFires(p: int)
    | BackupAcked(p: int)
    | BackupRefused(p: int)
    | DeviceReports(key: Key)
    | ReconcilePicks(p: int, key: Key) // reconcile: an unverified row
    | ReconcileMatches(p: int)
    | CatchUpPicks(p: int, key: Key)   // catch-up: the latest due row of a relay
    | CatchUpAcked(p: int)
    | CatchUpRefused(p: int)
    | Gives(p: int)                    // an exception or a crash ends the activity

  predicate Idle(s: State, p: int) {
    p !in s.active
  }

  predicate Enabled(s: State, step: Step) {
    match step
    case SeesNoRow(p, key) => Idle(s, p) && key !in s.rows
    case FindsItDone(p) => p in s.active && s.active[p].Judging?
    case CannotReach(p, row) => p in s.active && s.active[p].Judging?
      && (row == Row(Failed, Nobody) || row == Row(Unverified, Nobody))
    case InsertsPending(p) => p in s.active && s.active[p].Judging?
    case ReadsBack(p) => p in s.active && s.active[p].Inserted?
    case RetryPicks(p, key) => Idle(s, p) && key in s.rows && s.rows[key].status == Failed
    case RetryFindsItDone(p) => p in s.active && s.active[p].Retrying?
    case RetryFires(p) => p in s.active && s.active[p].Retrying?
    case BackupAcked(p) => p in s.active && s.active[p].Attempting?
    case BackupRefused(p) => p in s.active && s.active[p].Attempting?
    case DeviceReports(_) => true
    case ReconcilePicks(p, key) => Idle(s, p) && key in s.rows && s.rows[key].status == Unverified
    case ReconcileMatches(p) => p in s.active && s.active[p].Reconciling?
    case CatchUpPicks(p, key) => Idle(s, p) && key in s.rows
    case CatchUpAcked(p) => p in s.active && s.active[p].Restoring?
    case CatchUpRefused(p) => p in s.active && s.active[p].Restoring?
    case Gives(p) => p in s.active
  }

  function Begin(s: State, p: int, a: Activity): State {
    s.(active := s.active[p := a])
  }

  /** The activity's last write, and what it learnt. */
  function End(s: State, p: int, w: Write, learnt: set<Evidence>): State
    requires p in s.active
  {
    State(Apply(s.rows, s.active[p].key, w), s.active - {p}, s.heard + learnt)
  }

  function After(s: State, step: Step): State
    requires Enabled(s, step)
  {
    match step
    case SeesNoRow(p, key) => Begin(s, p, Judging(key))
    case FindsItDone(p) => End(s, p, InsertIgnore(Row(Executed, Device)), {StateMatched(s.active[p].key)})
    case CannotReach(p, row) => End(s, p, InsertIgnore(row), {})
    case InsertsPending(p) =>
      Begin(s, p, Inserted(s.active[p].key)).(
        rows := Apply(s.rows, s.active[p].key, InsertIgnore(Row(Pending, Server))))
    case ReadsBack(p) =>
      var key := s.active[p].key;
      if key in s.rows && s.rows[key].status == Pending
        then Begin(s, p, Attempting(key)) else s.(active := s.active - {p})
    case RetryPicks(p, key) => Begin(s, p, Retrying(key))
    case RetryFindsItDone(p) => End(s, p, Settle({Failed}, Device), {StateMatched(s.active[p].key)})
    case RetryFires(p) => Begin(s, p, Attempting(s.active[p].key))
    case BackupAcked(p) => End(s, p, Settle({Pending, Failed}, Server), {Acked(s.active[p].key)})
    case BackupRefused(p) => End(s, p, Fail({Pending, Failed}), {})
    case DeviceReports(key) => s.(rows := Apply(s.rows, key, Upsert), heard := s.heard + {Reported(key)})
    case ReconcilePicks(p, key) => Begin(s, p, Reconciling(key))
    case ReconcileMatches(p) => End(s, p, Settle({Unverified}, Device), {StateMatched(s.active[p].key)})
    case CatchUpPicks(p, key) => Begin(s, p, Restoring(key))
    case CatchUpAcked(p) => End(s, p, Settle({Unverified, Failed, Pending}, Server), {Acked(s.active[p].key)})
    case CatchUpRefused(p) => End(s, p, Fail({Unverified, Pending}), {})
    case Gives(p) => State(s.rows, s.active - {p}, s.heard + {Abandoned(s.active[p].key)})
  }

  /** What an activity may rely on although others write in between. */
  predicate Relies(rows: Table, a: Activity) {
    match a
    case Judging(_) => true
    case Attempting(key) => key in rows && rows[key].status != Unverified
    case Retrying(key) => key in rows && Rank(rows[key].status) > 0
    case _ => a.key in rows
  }

  ghost predicate AllRely(s: State) {
    forall p :: p in s.active ==> Relies(s.rows, s.active[p])
  }

  /** Who a settled row names is who settled it, and an ack or a report always settles. */
  ghost predicate Justified(s: State, k: Key) {
    && (k in s.rows && s.rows[k] == Row(Executed, Device) ==> Reported(k) in s.heard || StateMatched(k) in s.heard)
    && (k in s.rows && s.rows[k] == Row(Executed, Server) ==> Acked(k) in s.heard)
    && (Acked(k) in s.heard || Reported(k) in s.heard ==> k in s.rows && s.rows[k].status == Executed)
  }

  predicate Owns(a: Activity, k: Key) {
    (a.Inserted? || a.Attempting?) && a.key == k
  }

  /** A pending row has someone working on it, or its worker died. */
  ghost predicate Owned(s: State, k: Key) {
    k in s.rows && s.rows[k].status == Pending ==>
      Abandoned(k) in s.heard || exists p :: p in s.active && Owns(s.active[p], k)
  }

  ghost predicate Inv(s: State) {
    GoodTable(s.rows) && AllRely(s) && forall k :: Justified(s, k) && Owned(s, k)
  }

  // ---- Every step keeps it ----

  /** The row a step writes, if any. */
  function WriteOf(s: State, step: Step): Option<(Key, Write)>
    requires Enabled(s, step)
  {
    match step
    case FindsItDone(p) => Some((s.active[p].key, InsertIgnore(Row(Executed, Device))))
    case CannotReach(p, row) => Some((s.active[p].key, InsertIgnore(row)))
    case InsertsPending(p) => Some((s.active[p].key, InsertIgnore(Row(Pending, Server))))
    case RetryFindsItDone(p) => Some((s.active[p].key, Settle({Failed}, Device)))
    case BackupAcked(p) => Some((s.active[p].key, Settle({Pending, Failed}, Server)))
    case BackupRefused(p) => Some((s.active[p].key, Fail({Pending, Failed})))
    case DeviceReports(key) => Some((key, Upsert))
    case ReconcileMatches(p) => Some((s.active[p].key, Settle({Unverified}, Device)))
    case CatchUpAcked(p) => Some((s.active[p].key, Settle({Unverified, Failed, Pending}, Server)))
    case CatchUpRefused(p) => Some((s.active[p].key, Fail({Unverified, Pending})))
    case _ => None
  }

  lemma StepWrites(s: State, step: Step)
    requires Enabled(s, step)
    ensures var w := WriteOf(s, step);
      After(s, step).rows == if w.Some? then Apply(s.rows, w.value.0, w.value.1) else s.rows
    ensures WriteOf(s, step).Some? ==> Lawful(WriteOf(s, step).value.1)
  {
  }

  lemma StepKeepsRows(s: State, step: Step)
    requires Enabled(s, step) && GoodTable(s.rows)
    ensures GoodTable(After(s, step).rows) && Onward(s.rows, After(s, step).rows)
  {
    StepWrites(s, step);
    var w := WriteOf(s, step);
    if w.Some? {
      WriteKeeps(s.rows, w.value.0, w.value.1);
    }
  }

  lemma ReliesOnward(was: Table, now: Table, a: Activity)
    requires Onward(was, now) && Relies(was, a)
    ensures Relies(now, a)
  {
  }

  lemma StepKeepsRelies(s: State, step: Step)
    requires Enabled(s, step) && Inv(s)
    ensures AllRely(After(s, step))
  {
    StepKeepsRows(s, step);
    var t := After(s, step);
    forall p | p in t.active
      ensures Relies(t.rows, t.active[p])
    {
      if p in s.active && s.active[p] == t.active[p] {
        ReliesOnward(s.rows, t.rows, t.active[p]);
      }
    }
  }

  lemma StepKeepsJustified(s: State, step: Step, k: Key)
    requires Enabled(s, step) && Inv(s)
    ensures Justified(After(s, step), k)
  {
    StepKeepsRows(s, step);
    assert Justified(s, k);
  }

  lemma StepKeepsOwned(s: State, step: Step, k: Key)
    requires Enabled(s, step) && Inv(s)
    ensures Owned(After(s, step), k)
  {
    StepKeepsRows(s, step);
    var t := After(s, step);
    assert Owned(s, k);
    if k in t.rows && t.rows[k].status == Pending {
      if k !in s.rows {
        assert step.InsertsPending? && Owns(t.active[step.p], k);
      } else {
        assert s.rows[k] == t.rows[k];
        if p :| p in s.active && Owns(s.active[p], k) && Abandoned(k) !in t.heard {
          OwnerStays(s, step, k, p);
        }
      }
    }
  }

  lemma OwnerStays(s: State, step: Step, k: Key, p: int)
    requires Enabled(s, step) && p in s.active && Owns(s.active[p], k)
    requires k in s.rows && k in After(s, step).rows && s.rows[k].status == Pending
      && After(s, step).rows[k].status == Pending
    requires Abandoned(k) !in After(s, step).heard
    ensures p in After(s, step).active && Owns(After(s, step).active[p], k)
  {
  }

  lemma StepKeeps(s: State, step: Step)
    requires Enabled(s, step) && Inv(s)
    ensures Inv(After(s, step)) && Onward(s.rows, After(s, step).rows) && s.heard <= After(s, step).heard
  {
    StepKeepsRows(s, step);
    StepKeepsRelies(s, step);
    forall k
      ensures Justified(After(s, step), k) && Owned(After(s, step), k)
    {
      StepKeepsJustified(s, step, k);
      StepKeepsOwned(s, step, k);
    }
  }

  // ---- Whole runs ----

  function Next(s: State, step: Step): State {
    if Enabled(s, step) then After(s, step) else s
  }

  const PROTOCOL := Machine((s: State, step: Step) => Enabled(s, step), (s: State, step: Step) => Next(s, step))

  /** A state the rows of `s` can have come to. */
  ghost predicate Follows(s: State, t: State) {
    Inv(t) && Onward(s.rows, t.rows) && s.heard <= t.heard
  }

  /** Under every interleaving rows only move forward, an executed row keeps its author for
      ever, and the author is one that really acknowledged, reported or was seen to have acted. */
  lemma RunKeepsRows(s: State, steps: seq<Step>)
    requires Inv(s) && CanRun(PROTOCOL, s, steps)
    ensures Inv(Run(PROTOCOL, s, steps)) && Onward(s.rows, Run(PROTOCOL, s, steps).rows)
    ensures s.heard <= Run(PROTOCOL, s, steps).heard
  {
    var inv := (t: State) => Follows(s, t);
    forall t, step | inv(t) && PROTOCOL.enabled(t, step)
      ensures inv(PROTOCOL.next(t, step))
    {
      StepKeeps(t, step);
    }
    RunKeeps(PROTOCOL, inv, s, steps);
  }

  const EMPTY := State(map[], map[], {})

  lemma EmptyIsFine()
    ensures Inv(EMPTY)
  {
  }

  predicate IsExecuted(rows: Table, k: Key) {
    k in rows && rows[k].status == Executed
  }

  /** From a report or an ack on, the row is executed, with one author, whatever follows. */
  lemma SettledForGood(s: State, steps: seq<Step>, k: Key)
    requires Inv(s) && CanRun(PROTOCOL, s, steps) && (Reported(k) in s.heard || Acked(k) in s.heard)
    ensures IsExecuted(s.rows, k) && IsExecuted(Run(PROTOCOL, s, steps).rows, k)
    ensures Run(PROTOCOL, s, steps).rows[k] == s.rows[k] && s.rows[k].author != Nobody
  {
    RunKeepsRows(s, steps);
    assert Justified(s, k);
  }

  // ---- What a matching channel state settles ----

  predicate SeesItDone(step: Step) {
    step.FindsItDone? || step.RetryFindsItDone? || step.ReconcileMatches?
  }

  /** When a channel found in the expected state leaves its row executed: the tick's, unless
      another row was inserted that is not executed; the reconcile's, unless a catch-up was
      refused or an attempt is pending; the retry's, always. */
  predicate SightSettles(s: State, step: Step)
    requires SeesItDone(step) && Enabled(s, step)
  {
    var k := s.active[step.p].key;
    match step
    case FindsItDone(_) => k !in s.rows || s.rows[k].status == Executed
    case ReconcileMatches(_) => k in s.rows && s.rows[k].status != Failed && s.rows[k].status != Pending
    case RetryFindsItDone(_) => true
  }

  /** Exactly then; and otherwise the table stays as it was. */
  lemma SightSettlesExactly(s: State, step: Step)
    requires Inv(s) && SeesItDone(step) && Enabled(s, step)
    ensures IsExecuted(After(s, step).rows, s.active[step.p].key) <==> SightSettles(s, step)
    ensures !SightSettles(s, step) ==> After(s, step).rows == s.rows
  {
    var k := s.active[step.p].key;
    assert Relies(s.rows, s.active[step.p]);
    assert k in s.rows ==> GoodRow(s.rows[k]);
  }

  /** The run so far, and the state it reached. */
  ghost predicate Reaches(steps: seq<Step>, s: State) {
    CanRun(PROTOCOL, EMPTY, steps) && Run(PROTOCOL, EMPTY, steps) == s
  }

  lemma Go(steps: seq<Step>, s: State, step: Step) returns (more: seq<Step>, t: State)
    requires Reaches(steps, s) && Enabled(s, step)
    ensures more == steps + [step] && t == After(s, step) && Reaches(more, t)
  {
    Extend(PROTOCOL, EMPTY, steps, step);
    more, t := steps + [step], After(s, step);
  }

  /** A row that cannot be verified is there, and activity 1 is over. */
  lemma RowUnverified(k: Key) returns (steps: seq<Step>, s: State)
    ensures Reaches(steps, s) && s == State(map[k := Row(Unverified, Nobody)], map[], {})
  {
    steps, s := [], EMPTY;
    steps, s := Go(steps, s, SeesNoRow(1, k));
    steps, s := Go(steps, s, CannotReach(1, Row(Unverified, Nobody)));
    assert s.active == map[];
  }

  // ---- In one process the tick's sight always settles ----

  predicate IsJudging(s: State, p: int, k: Key) {
    p in s.active && s.active[p] == Judging(k)
  }

  /** The windows of one process's scan and ticks lie side by side, and its ticks do not
      overlap: nobody begins to judge an occurrence that is being judged. */
  ghost predicate OneJudge(s: State, step: Step) {
    step.SeesNoRow? ==> forall q :: !IsJudging(s, q, step.key)
  }

  ghost function OneProcess(): Machine<State, Step> {
    Under(PROTOCOL, (s: State, step: Step) => OneJudge(s, step))
  }

  /** Nobody else inserts a row that is being judged, but the device may report it. */
  ghost predicate JudgedAlone(s: State) {
    && (forall p, k :: IsJudging(s, p, k) ==> k !in s.rows || s.rows[k].status == Executed)
    && forall p, q, k :: IsJudging(s, p, k) && IsJudging(s, q, k) ==> p == q
  }

  lemma StepKeepsAlone(s: State, step: Step)
    requires Enabled(s, step) && Inv(s) && JudgedAlone(s) && OneJudge(s, step)
    ensures JudgedAlone(After(s, step))
  {
    StepKeepsRows(s, step);
    var t := After(s, step);
    forall p, k | IsJudging(t, p, k)
      ensures k !in t.rows || t.rows[k].status == Executed
    {
      if IsJudging(s, p, k) {
        StepLeavesJudged(s, step, p, k);
      }
    }
    forall p, q, k | IsJudging(t, p, k) && IsJudging(t, q, k)
      ensures p == q
    {
      assert IsJudging(s, p, k) || step == SeesNoRow(p, k);
      assert IsJudging(s, q, k) || step == SeesNoRow(q, k);
    }
  }

  lemma StepLeavesJudged(s: State, step: Step, p: int, k: Key)
    requires Enabled(s, step) && Inv(s) && JudgedAlone(s) && IsJudging(s, p, k) && IsJudging(After(s, step), p, k)
    ensures k !in After(s, step).rows || After(s, step).rows[k].status == Executed
  {
    StepWrites(s, step);
    StepKeepsRows(s, step);
    var w := WriteOf(s, step);
    if k !in s.rows && w.Some? && w.value.0 == k && !step.DeviceReports? {
      assert Relies(s.rows, s.active[step.p]);
      assert IsJudging(s, step.p, k);
    }
  }

  /** In every run of one process, a channel the tick finds in the expected state leaves its row
      executed. */
  lemma TickSightSettles(steps: seq<Step>, s: State, p: int)
    requires CanRun(OneProcess(), EMPTY, steps) && Run(PROTOCOL, EMPTY, steps) == s && Enabled(s, FindsItDone(p))
    ensures IsExecuted(After(s, FindsItDone(p)).rows, s.active[p].key)
  {
    var inv := (t: State) => Inv(t) && JudgedAlone(t);
    forall t, step | inv(t) && OneProcess().enabled(t, step)
      ensures inv(OneProcess().next(t, step))
    {
      StepKeeps(t, step);
      StepKeepsAlone(t, step);
    }
    EmptyIsFine();
    RunKeeps(OneProcess(), inv, EMPTY, steps);
    RuledRun(PROTOCOL, (t: State, step: Step) => OneJudge(t, step), EMPTY, steps);
    assert IsJudging(s, p, s.active[p].key);
    SightSettlesExactly(s, FindsItDone(p));
  }

  /** Such runs there are: the tick sees no row, finds the channel as it should be, and the row is
      executed by the device. */
  lemma TickFindsItDone(k: Key) returns (steps: seq<Step>, s: State)
    ensures CanRun(OneProcess(), EMPTY, steps)
    ensures Reaches(steps, s) && s.rows == map[k := Row(Executed, Device)]
  {
    steps, s := [], EMPTY;
    steps, s := Go(steps, s, SeesNoRow(1, k));
    steps, s := Go(steps, s, FindsItDone(1));
    var m := OneProcess();
    assert steps[1..][0] == FindsItDone(1) && steps[1..][1..] == [];
    assert m.enabled(EMPTY, steps[0]) && m.enabled(m.next(EMPTY, steps[0]), steps[1]);
    assert CanRun(m, m.next(m.next(EMPTY, steps[0]), steps[1]), []);
  }

  /** Two processes at work: the other's scan inserts the row as unverified while this one's tick
      looks at the channel, the tick's INSERT IGNORE is dropped and the row stays open. */
  lemma SeenButNotInserted(k: Key) returns (steps: seq<Step>, s: State)
    ensures Reaches(steps, s) && StateMatched(k) in s.heard && k in s.rows && s.rows[k] == Row(Unverified, Nobody)
  {
    steps, s := [], EMPTY;
    steps, s := Go(steps, s, SeesNoRow(1, k));
    steps, s := Go(steps, s, SeesNoRow(2, k));
    steps, s := Go(steps, s, CannotReach(2, Row(Unverified, Nobody)));
    steps, s := Go(steps, s, FindsItDone(1));
  }

  /** A catch-up is refused while the reconcile looks at the channel: the guard of the
      reconcile's UPDATE no longer holds and the row stays failed. */
  lemma SeenButRefused(k: Key) returns (steps: seq<Step>, s: State)
    ensures Reaches(steps, s) && StateMatched(k) in s.heard && k in s.rows && s.rows[k] == Row(Failed, Nobody)
  {
    steps, s := RowUnverified(k);
    steps, s := Go(steps, s, ReconcilePicks(2, k));
    steps, s := Go(steps, s, CatchUpPicks(3, k));
    steps, s := Go(steps, s, CatchUpRefused(3));
    steps, s := Go(steps, s, ReconcileMatches(2));
  }

  // ---- The statements themselves ----

  const WINDOW_MS := 24 * 3600000
  const EARLY_MS := 5 * 60000

  /** A device's report, as far as it could be read. */
  datatype Report = Report(sid: Option<int>, off: Option<bool>, occurrence: Option<int>, relay: int)

  datatype Ingested = Accepted | Rejected(reason: string)

  class ExecutionTable {
    var rows: Table

    constructor ()
      ensures rows == map[]
    {
      rows := map[];
    }

    /** insertOccurrenceRow: the first insertion of a key stays. */
    method InsertOccurrenceRow(key: Key, row: Row) returns (stored: Row)
      modifies this
      ensures rows == Apply(old(rows), key, InsertIgnore(row))
      ensures key in rows && stored == rows[key]
    {
      if key !in rows {
        rows := rows[key := row];
      }
      stored := rows[key];
    }

    /** ingestExecReport: a report is taken for a schedule of this device, on its relay, in the
        last day, and then always settles its row. `relayOf` has the device's schedules. */
    method IngestExecReport(report: Report, relayOf: map<int, int>, now: int) returns (r: Ingested)
      modifies this
      ensures r.Accepted? <==>
        && report.sid.Some? && report.off.Some? && report.occurrence.Some?
        && report.sid.value in relayOf && relayOf[report.sid.value] == report.relay
        && -5 * 60 * 1000 <= now - report.occurrence.value <= 24 * 60 * 60 * 1000
      ensures r.Rejected? ==> rows == old(rows)
      ensures r.Accepted? ==>
        rows == Apply(old(rows), Key(report.sid.value, report.occurrence.value, report.off.value), Upsert)
    {
      if report.sid.None? || report.off.None? {
        return Rejected("malformed");
      }
      if report.sid.value !in relayOf {
        return Rejected("sid_not_on_device");
      }
      if report.relay != relayOf[report.sid.value] {
        return Rejected("relay_mismatch");
      }
      if report.occurrence.None? {
        return Rejected("bad_occurrence");
      }
      var age := now - report.occurrence.value;
      if age > WINDOW_MS || age < -EARLY_MS {
        return Rejected("outside_window");
      }
      var key := Key(report.sid.value, report.occurrence.value, report.off.value);
      if key in rows {
        rows := rows[key := Row(Executed, if rows[key].status == Executed then rows[key].author else Device)];
      } else {
        rows := rows[key := Row(Executed, Device)];
      }
      r := Accepted;
    }

    /** reconcileDevice: of the device's unverified rows of the last day, exactly those whose
        relay is in the expected state are settled by the device. */
    method ReconcileDevice(relayOf: map<int, int>, isOff: map<int, bool>, now: int)
      modifies this
      ensures rows.Keys == old(rows).Keys
      ensures forall k :: k in rows ==>
        rows[k] ==
          if old(rows)[k].status == Unverified && k.occurrence > now - 24 * 60 * 60 * 1000 && k.schedule in relayOf
             && (if k.off then IsIn(isOff, relayOf[k.schedule], true) else IsIn(isOff, relayOf[k.schedule], false))
          then Row(Executed, Device) else old(rows)[k]
    {
      var todo := set k | k in rows && Unproven(rows, relayOf, now, k);
      ghost var all := todo;
      while todo != {}
        invariant todo <= all && all == set k | k in old(rows) && Unproven(old(rows), relayOf, now, k)
        invariant rows.Keys == old(rows).Keys
        invariant forall k :: k in rows && k !in all - todo ==> rows[k] == old(rows)[k]
        invariant forall k ::
          k in all - todo ==> rows[k] == if Matches(relayOf, isOff, k) then Row(Executed, Device) else old(rows)[k]
        decreases todo
      {
        var k :| k in todo;
        if Matches(relayOf, isOff, k) && rows[k].status == Unverified {
          rows := rows[k := Row(Executed, Device)];
        }
        todo := todo - {k};
      }
    }
  }

  predicate Unproven(rows: Table, relayOf: map<int, int>, now: int, k: Key) {
    k in rows && k.schedule in relayOf && rows[k].status == Unverified && k.occurrence > now - WINDOW_MS
  }

  predicate Matches(relayOf: map<int, int>, isOff: map<int, bool>, k: Key) {
    k.schedule in relayOf && relayOf[k.schedule] in isOff && isOff[relayOf[k.schedule]] == k.off
  }

  /** The relay was read, and read so. */
  predicate IsIn(isOff: map<int, bool>, relay: int, off: bool) {
    relay in isOff && isOff[relay] == off
  }

  // ---- latestDueByRelay ----

  datatype Due = Due(relay: int, at: int, off: bool)
  datatype Last = Last(at: int, off: bool, conflict: bool)

  /** `last` sums up the relay's rows: its latest moment, and whether ON and OFF tie there. */
  ghost predicate SumsUp(rows: seq<Due>, relay: int, last: Last) {
    && Due(relay, last.at, last.off) in rows
    && (forall r :: r in rows && r.relay == relay ==> r.at <= last.at)
    && (last.conflict <==> Due(relay, last.at, !last.off) in rows)
  }

  method LatestDueByRelay(rows: seq<Due>) returns (latest: map<int, Option<Last>>)
    ensures forall relay :: relay in latest <==> exists r :: r in rows && r.relay == relay
    ensures forall relay :: relay in latest && latest[relay].Some? ==>
      SumsUp(rows, relay, latest[relay].value) && !latest[relay].value.conflict
    ensures forall relay :: relay in latest && latest[relay].None? ==>
      exists last :: SumsUp(rows, relay, last) && last.conflict
  {
    var byRelay: map<int, Last> := map[];
    for i := 0 to |rows|
      invariant forall relay :: relay in byRelay <==> exists r :: r in rows[..i] && r.relay == relay
      invariant forall relay :: relay in byRelay ==> SumsUp(rows[..i], relay, byRelay[relay])
    {
      var r := rows[i];
      assert rows[..i + 1] == rows[..i] + [r];
      if r.relay !in byRelay || r.at > byRelay[r.relay].at {
        byRelay := byRelay[r.relay := Last(r.at, r.off, false)];
      } else if r.at == byRelay[r.relay].at && r.off != byRelay[r.relay].off {
        byRelay := byRelay[r.relay := byRelay[r.relay].(conflict := true)];
      }
    }
    assert rows[..|rows|] == rows;
    latest := map relay | relay in byRelay :: if byRelay[relay].conflict then None else Some(byRelay[relay]);
  }
}
