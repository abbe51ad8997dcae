/** The unit's job table as the sync compares it (`canonical`, src/services/shelly-schedules.js),
    and what the table fires once a sync is through. */
module UnitTable {
  import opened Common
  import opened Civil
  import opened Exclusions
  import opened ShellyCompile
  import opened ShellyFit
  import opened ShellySync

  /** A timespec the compiler writes, or any other cron line found on a unit. */
  datatype Timespec = Ours(spec: Spec) | Other(text: string)

  /** `verb` is the RPC method, in lower case. */
  datatype UnitCall = UnitCall(verb: string, id: int, on: bool)
  datatype UnitJob = UnitJob(enabled: bool, timespec: Timespec, calls: seq<UnitCall>)

  const SWITCH := "switch.set"

  // ---- canonical ----

  predicate CallAfter(a: UnitCall, b: UnitCall) {
    b.id < a.id || (b.id == a.id && b.on && !a.on)
  }

  /** A stable sort by channel, ON before OFF. */
  function Insert(calls: seq<UnitCall>, c: UnitCall): (r: seq<UnitCall>)
    ensures multiset(r) == multiset(calls) + multiset{c}
  {
    if calls == [] then [c]
    else
      var n := |calls| - 1;
      assert calls == calls[..n] + [calls[n]];
      if CallAfter(calls[n], c) then Insert(calls[..n], c) + [calls[n]] else calls + [c]
  }

  function SortCalls(calls: seq<UnitCall>): (r: seq<UnitCall>)
    ensures multiset(r) == multiset(calls)
  {
    if calls == [] then []
    else
      var n := |calls| - 1;
      assert calls == calls[..n] + [calls[n]];
      Insert(SortCalls(calls[..n]), calls[n])
  }

  /** What two jobs must share to be the same job to the sync. */
  function Canonical(j: UnitJob): UnitJob {
    j.(calls := SortCalls(j.calls))
  }

  predicate InOrder(calls: seq<UnitCall>) {
    forall i, j :: 0 <= i < j < |calls| ==> !CallAfter(calls[i], calls[j])
  }

  /** No two calls of one channel and action, as the compiler leaves them. */
  ghost predicate OneOfEach(calls: multiset<UnitCall>) {
    && (forall c :: calls[c] <= 1)
    && forall c, d :: c in calls && d in calls && c.id == d.id && c.on == d.on ==> c == d
  }

  lemma {:induction false} InsertKeepsOrder(calls: seq<UnitCall>, c: UnitCall)
    requires InOrder(calls)
    ensures InOrder(Insert(calls, c))
    decreases |calls|
  {
    if calls != [] {
      var n := |calls| - 1;
      if CallAfter(calls[n], c) {
        InsertKeepsOrder(calls[..n], c);
        var front := Insert(calls[..n], c);
        forall i | 0 <= i < |front|
          ensures !CallAfter(front[i], calls[n])
        {
          assert front[i] in multiset(front);
          assert front[i] in multiset(calls[..n]) || front[i] == c;
        }
      }
    }
  }

  lemma {:induction false} SortOrders(calls: seq<UnitCall>)
    ensures InOrder(SortCalls(calls))
    decreases |calls|
  {
    if calls != [] {
      SortOrders(calls[..|calls| - 1]);
      InsertKeepsOrder(SortCalls(calls[..|calls| - 1]), calls[|calls| - 1]);
    }
  }

  lemma {:induction false} OneOrder(a: seq<UnitCall>, b: seq<UnitCall>)
    requires |a| == |b| && InOrder(a) && InOrder(b) && multiset(a) == multiset(b) && OneOfEach(multiset(a))
    ensures a == b
    decreases |a|
  {
    if a != [] {
      var n := |a| - 1;
      var x, y := a[..n], b[..n];
      SameLast(a, b);
      WithoutLast(a);
      WithoutLast(b);
      FewerOfEach(multiset(a), a[n]);
      OneOrder(x, y);
    }
  }

  lemma WithoutLast(a: seq<UnitCall>)
    requires a != [] && InOrder(a)
    ensures a == a[..|a| - 1] + [a[|a| - 1]]
    ensures multiset(a[..|a| - 1]) == multiset(a) - multiset{a[|a| - 1]} && InOrder(a[..|a| - 1])
  {
    assert a == a[..|a| - 1] + [a[|a| - 1]];
  }

  lemma FewerOfEach(calls: multiset<UnitCall>, c: UnitCall)
    requires OneOfEach(calls)
    ensures OneOfEach(calls - multiset{c})
  {
  }

  lemma SameLast(a: seq<UnitCall>, b: seq<UnitCall>)
    requires a != [] && |a| == |b| && InOrder(a) && InOrder(b) && multiset(a) == multiset(b) && OneOfEach(multiset(a))
    ensures a[|a| - 1] == b[|b| - 1]
  {
    var n := |a| - 1;
    assert a[n] in multiset(b) && b[n] in multiset(a);
    var i :| 0 <= i < |b| && b[i] == a[n];
    var j :| 0 <= j < |a| && a[j] == b[n];
    assert i < n ==> !CallAfter(a[n], b[n]);
    assert j < n ==> !CallAfter(b[n], a[n]);
  }

  /** The order in which a unit lists the calls of a job cannot make it a different job. */
  lemma ListingOrderIsNoChange(a: UnitJob, b: UnitJob)
    requires a.enabled == b.enabled && a.timespec == b.timespec && multiset(a.calls) == multiset(b.calls)
    requires OneOfEach(multiset(a.calls))
    ensures Canonical(a) == Canonical(b)
  {
    SortOrders(a.calls);
    SortOrders(b.calls);
    assert |multiset(SortCalls(a.calls))| == |multiset(SortCalls(b.calls))|;
    OneOrder(SortCalls(a.calls), SortCalls(b.calls));
  }

  // ---- What a unit fires ----

  /** `cron` says when a line that is not ours fires. */
  predicate LineMatches(cron: (string, Date, int) -> bool, t: Timespec, date: Date, minute: int) {
    match t
    case Ours(spec) => Matches(spec, date, minute)
    case Other(text) => cron(text, date, minute)
  }

  predicate UnitFires(cron: (string, Date, int) -> bool, j: UnitJob, date: Date, minute: int, call: Call) {
    j.enabled && LineMatches(cron, j.timespec, date, minute) && UnitCall(SWITCH, call.id, call.on) in j.calls
  }

  /** Jobs that are the same to the sync fire alike. */
  lemma SameKeyFiresAlike(cron: (string, Date, int) -> bool, a: UnitJob, b: UnitJob, date: Date, minute: int,
        call: Call)
    requires Canonical(a) == Canonical(b)
    ensures UnitFires(cron, a, date, minute, call) <==> UnitFires(cron, b, date, minute, call)
  {
    var c := UnitCall(SWITCH, call.id, call.on);
    assert multiset(a.calls) == multiset(b.calls);
    assert c in a.calls <==> c in multiset(a.calls);
    assert c in b.calls <==> c in multiset(b.calls);
  }

  predicate TableFires(cron: (string, Date, int) -> bool, table: seq<Entry<UnitJob>>, date: Date, minute: int,
    call: Call)
  {
    exists i :: 0 <= i < |table| && UnitFires(cron, table[i].job, date, minute, call)
  }

  predicate ListFires(cron: (string, Date, int) -> bool, jobs: seq<UnitJob>, date: Date, minute: int, call: Call) {
    exists i :: 0 <= i < |jobs| && UnitFires(cron, jobs[i], date, minute, call)
  }

  /** A table with the keys of a list fires what the list fires. */
  lemma SameKeysFireAlike(cron: (string, Date, int) -> bool, table: seq<Entry<UnitJob>>, jobs: seq<UnitJob>, date: Date,
        minute: int, call: Call)
    requires TableKeys(table, Canonical) == Keys(jobs, Canonical)
    ensures TableFires(cron, table, date, minute, call) <==> ListFires(cron, jobs, date, minute, call)
  {
    if i :| 0 <= i < |table| && UnitFires(cron, table[i].job, date, minute, call) {
      var k := Canonical(table[i].job);
      KeyOnTable(table, k, Canonical);
      KeyInList(jobs, k, Canonical);
      var n :| 0 <= n < |jobs| && Canonical(jobs[n]) == k;
      SameKeyFiresAlike(cron, table[i].job, jobs[n], date, minute, call);
    }
    if n :| 0 <= n < |jobs| && UnitFires(cron, jobs[n], date, minute, call) {
      var k := Canonical(jobs[n]);
      KeyOnTable(table, k, Canonical);
      KeyInList(jobs, k, Canonical);
      var i :| 0 <= i < |table| && Canonical(table[i].job) == k;
      SameKeyFiresAlike(cron, table[i].job, jobs[n], date, minute, call);
    }
  }

  // ---- The whole sync ----

  function AsCall(c: Call): UnitCall {
    UnitCall(SWITCH, c.id, c.on)
  }

  /** A job as Schedule.Create is sent it. */
  function AsSent(j: Job): UnitJob {
    UnitJob(true, Ours(j.spec), seq(|j.calls|, i requires 0 <= i < |j.calls| => AsCall(j.calls[i])))
  }

  function AllSent(jobs: seq<Job>): (sent: seq<UnitJob>)
    ensures |sent| == |jobs| && forall i :: 0 <= i < |jobs| ==> sent[i] == AsSent(jobs[i])
  {
    seq(|jobs|, i requires 0 <= i < |jobs| => AsSent(jobs[i]))
  }

  lemma SentFiresAlike(cron: (string, Date, int) -> bool, j: Job, date: Date, minute: int, call: Call)
    ensures UnitFires(cron, AsSent(j), date, minute, call) <==> JobFires(j, date, minute, call)
  {
    if call in j.calls {
      var i :| 0 <= i < |j.calls| && j.calls[i] == call;
      assert AsSent(j).calls[i] == AsCall(call);
    }
  }

  lemma AllSentFiresAlike(cron: (string, Date, int) -> bool, jobs: seq<Job>, date: Date, minute: int, call: Call)
    ensures ListFires(cron, AllSent(jobs), date, minute, call) <==> Fires(jobs, date, minute, call)
  {
    forall i | 0 <= i < |jobs|
      ensures UnitFires(cron, AllSent(jobs)[i], date, minute, call) <==> JobFires(jobs[i], date, minute, call)
    {
      SentFiresAlike(cron, jobs[i], date, minute, call);
    }
  }

  /** syncShellyLocalSchedules: an attempt is through exactly when the line survives the writes
      that are missing; then, whatever the table held before, up to the horizon the unit fires
      exactly the calls the server has due. */
  method SyncUnit(device: Device<UnitJob>, alm: Almanac, rows: seq<Row>, today: Date, budget: nat,
      ghost cron: (string, Date, int) -> bool) returns (done: bool, ghost wanted: seq<Job>, ghost dropped: seq<Job>)
    requires device.Valid() && Valid(today) && forall i :: 0 <= i < |rows| ==> RealRow(rows[i])
    modifies device
    ensures device.Valid() && MakesUp(alm, rows, today, wanted, dropped)
    ensures done <==> old(Distance(TableKeys(device.table, Canonical), Keys(AllSent(wanted), Canonical))) <= budget
    ensures done ==> |device.table| <= MAX_SHELLY_JOBS && (dropped != [] ==> |device.table| == MAX_SHELLY_JOBS)
    ensures done ==> forall date, minute, call :: InHorizon(alm, rows, today, dropped, date, minute) ==>
      (TableFires(cron, device.table, date, minute, call) <==> ServerDue(alm, rows, date, minute, call))
  {
    var jobs;
    jobs, dropped := DesiredJobs(alm, rows, today);
    wanted := jobs;
    var through, _, _ := Sync(device, AllSent(jobs), Canonical, budget);
    done := through;
    NoDistanceIsEqual(TableKeys(device.table, Canonical), Keys(AllSent(jobs), Canonical));
    if done {
      TableCount(device.table, Canonical);
      KeyCount(AllSent(jobs), Canonical);
      forall date, minute, call | InHorizon(alm, rows, today, dropped, date, minute)
        ensures TableFires(cron, device.table, date, minute, call) <==> ServerDue(alm, rows, date, minute, call)
      {
        SameKeysFireAlike(cron, device.table, AllSent(jobs), date, minute, call);
        AllSentFiresAlike(cron, jobs, date, minute, call);
      }
    }
  }
}
