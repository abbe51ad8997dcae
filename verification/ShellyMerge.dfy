/** The three passes of buildShellyJobs (src/services/shelly-schedules.js) over the compiled
    jobs: merge by timespec, merge by weekday list, split to five calls. Each pass keeps
    what the table fires at every date and minute. */
module ShellyMerge {
  import opened Civil
  import opened Exclusions
  import opened ShellyCompile
  import opened Sorting

  /** Ascending channel, ON before OFF: an exact tie ends OFF. */
  predicate CallBefore(a: Call, b: Call) {
    a.id < b.id || (a.id == b.id && a.on && !b.on)
  }

  predicate Ordered(calls: seq<Call>) {
    forall i, j :: 0 <= i < j < |calls| ==> CallBefore(calls[i], calls[j])
  }

  /** What a channel is left at when the calls are made one after the other. */
  function AfterCalls(calls: seq<Call>, ch: int, before: bool): bool {
    if calls == [] then before
    else
      var last := calls[|calls| - 1];
      if last.id == ch then last.on else AfterCalls(calls[..|calls| - 1], ch, before)
  }

  /** An exact tie on a channel ends off, and a lone call has its way. */
  lemma {:induction false} TieEndsOff(calls: seq<Call>, ch: int, before: bool)
    requires Ordered(calls)
    ensures AfterCalls(calls, ch, before) ==
      if Call(ch, false) in calls then false else if Call(ch, true) in calls then true else before
  {
    if calls != [] {
      var front, last := calls[..|calls| - 1], calls[|calls| - 1];
      assert calls == front + [last];
      TieEndsOff(front, ch, before);
    }
  }

  predicate AllOrdered(jobs: seq<Job>) {
    forall k :: 0 <= k < |jobs| ==> Ordered(jobs[k].calls) && jobs[k].calls != []
  }

  /** The filter through `seen` and the sort applied to one job's calls. */
  method DistinctSorted(calls: seq<Call>) returns (r: seq<Call>)
    ensures Ordered(r) && |r| <= |calls|
    ensures forall c :: c in r <==> c in calls
  {
    var seen: set<Call> := {};
    var kept := [];
    for i := 0 to |calls|
      invariant |kept| <= i && forall c :: c in kept <==> c in seen
      invariant forall c :: c in seen <==> c in calls[..i]
      invariant forall a, b :: 0 <= a < b < |kept| ==> kept[a] != kept[b]
    {
      if calls[i] !in seen {
        seen := seen + {calls[i]};
        kept := kept + [calls[i]];
      }
      assert calls[..i + 1] == calls[..i] + [calls[i]];
    }
    assert calls[..|calls|] == calls;
    r := Sort(kept, CallBefore);
    StaysDistinct(kept, r);
    forall i, j | 0 <= i < j < |r|
      ensures CallBefore(r[i], r[j])
    {
      assert !CallBefore(r[j], r[i]) && r[i] != r[j];
    }
  }

  /** Replacing one job by one that fires what it fired together with `extra`. */
  lemma FiresUpdate(jobs: seq<Job>, k: nat, j: Job, extra: Job)
    requires k < |jobs|
    requires forall date, minute, call ::
      JobFires(j, date, minute, call) <==> JobFires(jobs[k], date, minute, call) || JobFires(extra, date, minute, call)
    ensures forall date, minute, call :: Fires(jobs[k := j], date, minute, call) <==>
      Fires(jobs, date, minute, call) || JobFires(extra, date, minute, call)
  {
    var after := jobs[k := j];
    forall date, minute, call
      ensures Fires(after, date, minute, call) <==>
        Fires(jobs, date, minute, call) || JobFires(extra, date, minute, call)
    {
      if i :| 0 <= i < |jobs| && JobFires(jobs[i], date, minute, call) {
        assert JobFires(after[i], date, minute, call);
      }
      if i :| 0 <= i < |after| && JobFires(after[i], date, minute, call) {
        assert i != k ==> JobFires(jobs[i], date, minute, call);
      }
      assert JobFires(extra, date, minute, call) ==> JobFires(after[k], date, minute, call);
    }
  }

  lemma FiresPrefix(jobs: seq<Job>, i: nat)
    requires i < |jobs|
    ensures jobs[..i + 1] == jobs[..i] + [jobs[i]]
    ensures forall date, minute, call :: Fires(jobs[..i + 1], date, minute, call) <==>
      Fires(jobs[..i], date, minute, call) || JobFires(jobs[i], date, minute, call)
    ensures TotalCalls(jobs[..i + 1]) == TotalCalls(jobs[..i]) + |jobs[i].calls|
  {
    assert jobs[..i + 1] == jobs[..i] + [jobs[i]];
    FiresPush(jobs[..i], jobs[i]);
    TotalCallsPush(jobs[..i], jobs[i]);
  }

  /** A pass took job `i` of its input and appended `j`, which fires the same. */
  lemma PassPush(out: seq<Job>, src: seq<Job>, i: nat, j: Job)
    requires i < |src| && SameFirings(out, src[..i])
    requires j.spec == src[i].spec && forall c :: c in j.calls <==> c in src[i].calls
    ensures SameFirings(out + [j], src[..i + 1])
    ensures TotalCalls(out + [j]) == TotalCalls(out) + |j.calls|
    ensures TotalCalls(src[..i + 1]) == TotalCalls(src[..i]) + |src[i].calls|
  {
    FiresPrefix(src, i);
    FiresPush(out, j);
    TotalCallsPush(out, j);
  }

  /** A pass took job `i` of its input and folded it into job `k` of its output. */
  lemma PassFold(out: seq<Job>, src: seq<Job>, i: nat, k: nat, j: Job)
    requires i < |src| && k < |out| && SameFirings(out, src[..i])
    requires forall date, minute, call ::
      JobFires(j, date, minute, call) <==> JobFires(out[k], date, minute, call) || JobFires(src[i], date, minute, call)
    ensures SameFirings(out[k := j], src[..i + 1])
    ensures TotalCalls(out[k := j]) == TotalCalls(out) - |out[k].calls| + |j.calls|
    ensures TotalCalls(src[..i + 1]) == TotalCalls(src[..i]) + |src[i].calls|
  {
    FiresPrefix(src, i);
    FiresUpdate(out, k, j, src[i]);
    TotalCallsUpdate(out, k, j);
  }

  predicate HasCalls(jobs: seq<Job>) {
    forall k :: 0 <= k < |jobs| ==> jobs[k].calls != []
  }

  // ---- Pass 1: one job per timespec ----

  /** The insertion-ordered Map from timespec to job. */
  predicate SpecIndex(groups: seq<Job>, bySpec: map<Spec, nat>) {
    && (forall s :: s in bySpec ==> bySpec[s] < |groups| && groups[bySpec[s]].spec == s)
    && (forall k :: 0 <= k < |groups| ==> groups[k].spec in bySpec && bySpec[groups[k].spec] == k)
  }

  lemma NewSpec(groups: seq<Job>, bySpec: map<Spec, nat>, j: Job)
    requires SpecIndex(groups, bySpec) && j.spec !in bySpec
    ensures SpecIndex(groups + [j], bySpec[j.spec := |groups|])
  {
  }

  lemma SameSpec(groups: seq<Job>, bySpec: map<Spec, nat>, k: nat, j: Job)
    requires SpecIndex(groups, bySpec) && k < |groups| && groups[k].spec == j.spec
    ensures SpecIndex(groups[k := j], bySpec)
  {
  }

  ghost predicate Grouped(groups: seq<Job>, raw: seq<Job>, i: nat, today: Date)
    requires i <= |raw|
  {
    && SameFirings(groups, raw[..i]) && TotalCalls(groups) == TotalCalls(raw[..i])
    && HasCalls(groups) && AllMirrorable(groups, today)
  }

  lemma FoldSpec(groups: seq<Job>, raw: seq<Job>, i: nat, k: nat, today: Date)
    requires i < |raw| && Grouped(groups, raw, i, today) && HasCalls(raw)
    requires k < |groups| && groups[k].spec == raw[i].spec
    ensures Grouped(groups[k := Job(raw[i].spec, groups[k].calls + raw[i].calls)], raw, i + 1, today)
  {
    PassFold(groups, raw, i, k, Job(raw[i].spec, groups[k].calls + raw[i].calls));
  }

  lemma AddSpec(groups: seq<Job>, raw: seq<Job>, i: nat, today: Date)
    requires i < |raw| && Grouped(groups, raw, i, today) && HasCalls(raw) && AllMirrorable(raw, today)
    ensures Grouped(groups + [raw[i]], raw, i + 1, today)
  {
    PassPush(groups, raw, i, raw[i]);
  }

  method GroupBySpec(raw: seq<Job>, ghost today: Date) returns (groups: seq<Job>)
    requires HasCalls(raw) && AllMirrorable(raw, today)
    ensures SameFirings(groups, raw) && HasCalls(groups) && AllMirrorable(groups, today)
    ensures forall i, j :: 0 <= i < j < |groups| ==> groups[i].spec != groups[j].spec
    ensures TotalCalls(groups) == TotalCalls(raw)
  {
    groups := [];
    var bySpec: map<Spec, nat> := map[];
    for i := 0 to |raw|
      invariant SpecIndex(groups, bySpec)
      invariant Grouped(groups, raw, i, today)
    {
      var j := raw[i];
      if j.spec in bySpec {
        var k := bySpec[j.spec];
        FoldSpec(groups, raw, i, k, today);
        SameSpec(groups, bySpec, k, Job(j.spec, groups[k].calls + j.calls));
        groups := groups[k := Job(j.spec, groups[k].calls + j.calls)];
      } else {
        AddSpec(groups, raw, i, today);
        NewSpec(groups, bySpec, j);
        bySpec := bySpec[j.spec := |groups|];
        groups := groups + [j];
      }
    }
    assert raw[..|raw|] == raw;
  }

  /** Each group's calls lose duplicates and are put in order. */
  method OrderCalls(groups: seq<Job>, ghost today: Date) returns (sorted: seq<Job>)
    requires HasCalls(groups) && AllMirrorable(groups, today)
    ensures SameFirings(sorted, groups) && AllOrdered(sorted) && AllMirrorable(sorted, today)
    ensures TotalCalls(sorted) <= TotalCalls(groups)
  {
    sorted := [];
    for i := 0 to |groups|
      invariant SameFirings(sorted, groups[..i]) && AllOrdered(sorted) && AllMirrorable(sorted, today)
      invariant TotalCalls(sorted) <= TotalCalls(groups[..i])
    {
      var calls := DistinctSorted(groups[i].calls);
      assert groups[i].calls[0] in calls;
      PassPush(sorted, groups, i, Job(groups[i].spec, calls));
      sorted := sorted + [Job(groups[i].spec, calls)];
    }
    assert groups[..|groups|] == groups;
  }

  // ---- Pass 2: weekly jobs that differ only by day ----

  function WeeklyKey(j: Job): (int, seq<Call>)
    requires j.spec.WeeklySpec?
  {
    (j.spec.minute, j.calls)
  }

  predicate WeeklyIndex(out: seq<Job>, byKey: map<(int, seq<Call>), nat>) {
    && (forall key :: key in byKey ==>
      byKey[key] < |out| && out[byKey[key]].spec.WeeklySpec? && WeeklyKey(out[byKey[key]]) == key)
    && (forall k :: 0 <= k < |out| && out[k].spec.WeeklySpec? ==>
      WeeklyKey(out[k]) in byKey && byKey[WeeklyKey(out[k])] == k)
  }

  ghost predicate WeekdaysMerged(out: seq<Job>, groups: seq<Job>, i: nat, today: Date)
    requires i <= |groups|
  {
    && SameFirings(out, groups[..i]) && TotalCalls(out) <= TotalCalls(groups[..i])
    && AllOrdered(out) && AllMirrorable(out, today)
  }

  /** The weekday list of the job with the same minute and calls takes the days over. */
  function WithDaysOf(cur: Job, j: Job): Job
    requires cur.spec.WeeklySpec? && j.spec.WeeklySpec?
  {
    Job(WeeklySpec(cur.spec.minute, cur.spec.dows + j.spec.dows), cur.calls)
  }

  lemma FoldWeekdays(out: seq<Job>, groups: seq<Job>, i: nat, k: nat, today: Date)
    requires i < |groups| && k < |out| && WeekdaysMerged(out, groups, i, today) && AllMirrorable(groups, today)
    requires groups[i].spec.WeeklySpec? && out[k].spec.WeeklySpec? && WeeklyKey(groups[i]) == WeeklyKey(out[k])
    ensures WeekdaysMerged(out[k := WithDaysOf(out[k], groups[i])], groups, i + 1, today)
  {
    var cur := WithDaysOf(out[k], groups[i]);
    PassFold(out, groups, i, k, cur);
    assert AllOrdered(out[k := cur]);
    assert FromCompiler(cur.spec, today) by {
      var w := SomeElement(out[k].spec.dows);
      assert w in cur.spec.dows;
    }
  }

  lemma PushKeepsShape(out: seq<Job>, j: Job, today: Date)
    requires AllOrdered(out) && AllMirrorable(out, today)
    requires Ordered(j.calls) && j.calls != [] && FromCompiler(j.spec, today)
    ensures AllOrdered(out + [j]) && AllMirrorable(out + [j], today)
  {
  }

  lemma AddGroup(out: seq<Job>, groups: seq<Job>, i: nat, today: Date)
    requires i < |groups| && WeekdaysMerged(out, groups, i, today)
    requires AllOrdered(groups) && AllMirrorable(groups, today)
    ensures WeekdaysMerged(out + [groups[i]], groups, i + 1, today)
  {
    PushKeepsShape(out, groups[i], today);
    PassPush(out, groups, i, groups[i]);
  }

  method MergeWeekdays(groups: seq<Job>, ghost today: Date) returns (out: seq<Job>)
    requires AllOrdered(groups) && AllMirrorable(groups, today)
    ensures SameFirings(out, groups) && AllOrdered(out) && AllMirrorable(out, today)
    ensures TotalCalls(out) <= TotalCalls(groups)
    ensures forall a, b :: 0 <= a < b < |out| && out[a].spec.WeeklySpec? && out[b].spec.WeeklySpec? ==>
      WeeklyKey(out[a]) != WeeklyKey(out[b])
  {
    out := [];
    var weeklyByKey: map<(int, seq<Call>), nat> := map[];
    for i := 0 to |groups|
      invariant WeeklyIndex(out, weeklyByKey)
      invariant WeekdaysMerged(out, groups, i, today)
    {
      var j := groups[i];
      if j.spec.WeeklySpec? && WeeklyKey(j) in weeklyByKey {
        var k := weeklyByKey[WeeklyKey(j)];
        FoldWeekdays(out, groups, i, k, today);
        out := out[k := WithDaysOf(out[k], j)];
      } else {
        AddGroup(out, groups, i, today);
        if j.spec.WeeklySpec? {
          weeklyByKey := weeklyByKey[WeeklyKey(j) := |out|];
        }
        out := out + [j];
      }
    }
    assert groups[..|groups|] == groups;
  }

  // ---- Pass 3: at most five calls per job ----

  function AllCalls(jobs: seq<Job>): seq<Call> {
    if jobs == [] then [] else AllCalls(jobs[..|jobs| - 1]) + jobs[|jobs| - 1].calls
  }

  /** One busy job becomes siblings on its timespec that carry its calls in order. */
  method Chunk(j: Job) returns (chunks: seq<Job>)
    requires j.calls != []
    ensures AllCalls(chunks) == j.calls
    ensures forall c :: c in chunks ==> c.spec == j.spec && 1 <= |c.calls| <= 5
    ensures |chunks| <= |j.calls|
    ensures |j.calls| <= 5 ==> chunks == [j]
  {
    if |j.calls| <= MAX_CALLS_PER_JOB {
      assert [j][..0] == [];
      return [j];
    }
    chunks := [];
    var i := 0;
    while i < |j.calls|
      invariant 0 <= i
      invariant AllCalls(chunks) == j.calls[..if i <= |j.calls| then i else |j.calls|]
      invariant forall c :: c in chunks ==> c.spec == j.spec && 1 <= |c.calls| <= MAX_CALLS_PER_JOB
      invariant |chunks| <= i && |chunks| <= |j.calls|
    {
      var end := if i + MAX_CALLS_PER_JOB <= |j.calls| then i + MAX_CALLS_PER_JOB else |j.calls|;
      var chunk := j.(calls := j.calls[i..end]);
      assert (chunks + [chunk])[..|chunks|] == chunks;
      assert j.calls[..i] + j.calls[i..end] == j.calls[..end];
      chunks := chunks + [chunk];
      i := i + MAX_CALLS_PER_JOB;
    }
    assert j.calls[..|j.calls|] == j.calls;
  }

  lemma {:induction false} AllCallsOfOneSpec(jobs: seq<Job>, spec: Spec)
    requires forall j :: j in jobs ==> j.spec == spec
    ensures forall date, minute, call ::
      Fires(jobs, date, minute, call) <==> JobFires(Job(spec, AllCalls(jobs)), date, minute, call)
    ensures TotalCalls(jobs) == |AllCalls(jobs)|
  {
    if jobs != [] {
      var front := jobs[..|jobs| - 1];
      assert jobs == front + [jobs[|jobs| - 1]];
      AllCallsOfOneSpec(front, spec);
      FiresPush(front, jobs[|jobs| - 1]);
    }
  }

  ghost predicate SmallJobs(jobs: seq<Job>) {
    forall j :: j in jobs ==> 1 <= |j.calls| <= MAX_CALLS_PER_JOB && Ordered(j.calls)
  }

  method SplitLongJobs(jobs: seq<Job>, ghost today: Date) returns (out: seq<Job>)
    requires AllOrdered(jobs) && AllMirrorable(jobs, today)
    ensures SameFirings(out, jobs) && SmallJobs(out)
    ensures |out| <= TotalCalls(jobs)
    ensures AllMirrorable(out, today)
  {
    out := [];
    for i := 0 to |jobs|
      invariant SameFirings(out, jobs[..i]) && SmallJobs(out)
      invariant |out| <= TotalCalls(jobs[..i])
      invariant AllMirrorable(out, today)
    {
      var chunks := Chunk(jobs[i]);
      AllCallsOfOneSpec(chunks, jobs[i].spec);
      FiresConcat(out, chunks);
      FiresPrefix(jobs, i);
      ChunksOrdered(chunks, jobs[i].calls);
      out := out + chunks;
    }
    assert jobs[..|jobs|] == jobs;
  }

  lemma {:induction false} ChunksOrdered(chunks: seq<Job>, calls: seq<Call>)
    requires AllCalls(chunks) == calls && Ordered(calls)
    ensures forall c :: c in chunks ==> Ordered(c.calls)
  {
    if chunks != [] {
      var front, last := chunks[..|chunks| - 1], chunks[|chunks| - 1];
      var m := |AllCalls(front)|;
      assert calls[..m] == AllCalls(front) && calls[m..] == last.calls;
      ChunksOrdered(front, calls[..m]);
      assert forall c :: c in chunks ==> c in front || c == last;
    }
  }

  // ---- The whole compiler ----

  /** buildShellyJobs: what fires on any date and minute is what the rows' own jobs fire,
      in at most as many jobs as there are switch events, five ordered calls each. */
  method BuildShellyJobs(alm: Almanac, rows: seq<Row>, today: Date) returns (jobs: seq<Job>)
    requires forall i :: 0 <= i < |rows| ==> RealRow(rows[i])
    ensures Compiled(alm, rows, today, jobs)
    ensures SmallJobs(jobs) && AllMirrorable(jobs, today)
    ensures |jobs| <= SidesWithTime(rows)
  {
    var raw := CompileRows(alm, rows, today);
    var groups := GroupBySpec(raw, today);
    var sorted := OrderCalls(groups, today);
    var merged := MergeWeekdays(sorted, today);
    jobs := SplitLongJobs(merged, today);
    assert SameFirings(jobs, raw);
  }
}
