/** Schedule rows compiled to Shelly cron jobs (src/services/shelly-schedules.js) and the
    dates on which the server tick considers the same rows due (src/scheduler/tick.js).

    A timespec string is a `Spec`: the set of cron weekdays stands for the sorted list
    ('*' is all seven), so equal specs are equal strings. */
module ShellyCompile {
  import opened Common
  import opened Civil
  import opened Exclusions

  const MAX_CALLS_PER_JOB := 5
  const CRON_WEEK := {0, 1, 2, 3, 4, 5, 6}

  datatype Side = Side(time: Option<int>, day: Option<int>, date: Option<Date>)
  datatype Row = Row(weekly: bool, relay: int, on: Side, off: Side, excl: Exclusion)
  datatype Call = Call(id: int, on: bool)
  datatype Spec = WeeklySpec(minute: int, dows: set<int>) | DatedSpec(minute: int, mo: int, d: int)
  datatype Job = Job(spec: Spec, calls: seq<Call>)

  predicate EveryDay(side: Side) {
    side.day.None? || side.day.value == 0
  }

  function CronDays(side: Side, dropped: set<int>): set<int> {
    set w | w in CRON_WEEK && (EveryDay(side) || w + 1 == side.day.value) && w + 1 !in dropped
  }

  /** The job one side of a row contributes, if any. */
  function SideJob(alm: Almanac, row: Row, side: Side, on: bool, today: Date): Option<Job> {
    var call := Call(row.relay - 1, on);
    if side.time.None? then None
    else if row.weekly then
      var days := CronDays(side, WeeklyDays(row.excl));
      if HasDated(row.excl) && InExclusion(alm, WithoutWeekly(row.excl), today) then None
      else if days == {} then None
      else Some(Job(WeeklySpec(side.time.value, days), [call]))
    else if side.date.None? then None
    else if !IsNextAnniversary(side.date.value, today) then None
    else if InExclusion(alm, row.excl, side.date.value) then None
    else Some(Job(DatedSpec(side.time.value, side.date.value.mo, side.date.value.d), [call]))
  }

  // ---- What a job table does ----

  /** The device's cron: seconds 0 of the minute, the weekday list or the day and month. */
  predicate Matches(spec: Spec, date: Date, minute: int) {
    match spec
    case WeeklySpec(m, dows) => m == minute && Dow(date) - 1 in dows
    case DatedSpec(m, mo, d) => m == minute && date.mo == mo && date.d == d
  }

  predicate Fires(jobs: seq<Job>, date: Date, minute: int, call: Call) {
    exists j :: 0 <= j < |jobs| && JobFires(jobs[j], date, minute, call)
  }

  predicate JobFires(job: Job, date: Date, minute: int, call: Call) {
    Matches(job.spec, date, minute) && call in job.calls
  }

  ghost predicate SameFirings(a: seq<Job>, b: seq<Job>) {
    forall date, minute, call :: Fires(a, date, minute, call) <==> Fires(b, date, minute, call)
  }

  // ---- What the server does ----

  predicate OnThisDay(row: Row, side: Side, date: Date) {
    if row.weekly then EveryDay(side) || Dow(date) == side.day.value
    else side.date == Some(date)
  }

  /** occurrencesInWindow followed by the inExclusionRange filter, by intended local date. */
  predicate SideDue(alm: Almanac, row: Row, side: Side, date: Date, minute: int) {
    side.time == Some(minute) && OnThisDay(row, side, date) && !InExclusion(alm, row.excl, date)
  }

  predicate RowDue(alm: Almanac, row: Row, date: Date, minute: int, call: Call) {
    call.id == row.relay - 1 && SideDue(alm, row, if call.on then row.on else row.off, date, minute)
  }

  predicate ServerDue(alm: Almanac, rows: seq<Row>, date: Date, minute: int, call: Call) {
    exists i :: 0 <= i < |rows| && RowDue(alm, rows[i], date, minute, call)
  }

  // ---- Device and server agree ----

  predicate RowFires(alm: Almanac, row: Row, today: Date, date: Date, minute: int, call: Call) {
    call.id == row.relay - 1 &&
    var job := SideJob(alm, row, if call.on then row.on else row.off, call.on, today);
    job.Some? && Matches(job.value.spec, date, minute)
  }

  /** The one way a mirrored side can differ from the server on a later date: a weekly side
      whose dated exclusion does not say the same about that date as about today. */
  predicate Flipped(alm: Almanac, row: Row, side: Side, today: Date, date: Date) {
    && row.weekly && side.time.Some? && OnThisDay(row, side, date)
    && Dow(date) !in WeeklyDays(row.excl)
    && InExclusion(alm, WithoutWeekly(row.excl), today) != InExclusion(alm, WithoutWeekly(row.excl), date)
  }

  /** Cron numbers the days from Sunday, 0, and a row from Sunday, 1: a fixed day, unless dropped,
      is one number less, and a job on day 0 fires on the Sundays. */
  lemma CronNumbers(side: Side, dropped: set<int>, minute: int, date: Date)
    ensures EveryDay(side) && dropped == {} ==> CronDays(side, dropped) == {0, 1, 2, 3, 4, 5, 6}
    ensures side.day.Some? && 1 <= side.day.value <= 7 && side.day.value !in dropped ==>
      CronDays(side, dropped) == {side.day.value - 1}
    ensures Matches(WeeklySpec(minute, {0}), date, minute) <==> DayNumber(date) % 7 == 0
  {
  }

  lemma CronDayOf(side: Side, dropped: set<int>, w: int)
    requires 1 <= w <= 7
    ensures w - 1 in CronDays(side, dropped) <==> (EveryDay(side) || w == side.day.value) && w !in dropped
  {
  }

  /** A weekly side fires by today's reading of its dated exclusions. */
  lemma WeeklySideFires(alm: Almanac, row: Row, on: bool, today: Date, date: Date, minute: int)
    requires row.weekly
    ensures var side := if on then row.on else row.off;
      RowFires(alm, row, today, date, minute, Call(row.relay - 1, on))
      <==> side.time == Some(minute) && OnThisDay(row, side, date) && Dow(date) !in WeeklyDays(row.excl)
           && !InExclusion(alm, WithoutWeekly(row.excl), today)
  {
    var side := if on then row.on else row.off;
    ExclusionSplits(alm, row.excl, today);
    CronDayOf(side, WeeklyDays(row.excl), Dow(date));
  }

  /** The server reads them on the date itself. */
  lemma WeeklySideDue(alm: Almanac, row: Row, on: bool, date: Date, minute: int)
    requires row.weekly
    ensures var side := if on then row.on else row.off;
      RowDue(alm, row, date, minute, Call(row.relay - 1, on))
      <==> side.time == Some(minute) && OnThisDay(row, side, date) && Dow(date) !in WeeklyDays(row.excl)
           && !InExclusion(alm, WithoutWeekly(row.excl), date)
  {
    ExclusionSplits(alm, row.excl, date);
  }

  lemma DatedSideMirrors(alm: Almanac, row: Row, on: bool, today: Date, date: Date, minute: int)
    requires !row.weekly && IsNextAnniversary(date, today)
    ensures RowFires(alm, row, today, date, minute, Call(row.relay - 1, on))
      <==> RowDue(alm, row, date, minute, Call(row.relay - 1, on))
  {
    var side := if on then row.on else row.off;
    if side.date.Some? && IsNextAnniversary(side.date.value, today) {
      MonthDayIsUniqueInWindow(side.date.value, date, today);
    }
  }

  /** Side by side, for every date of the year that starts today: the cron of a side fires
      exactly when the server has it due, unless the side flipped; and if it flipped they
      do differ. No dated cron fires on a wrong year's anniversary. */
  lemma SideMirrorsServer(alm: Almanac, row: Row, on: bool, today: Date, date: Date)
    requires Valid(today) && Valid(date) && IsNextAnniversary(date, today)
    ensures var side := if on then row.on else row.off; var call := Call(row.relay - 1, on);
      (forall minute :: RowFires(alm, row, today, date, minute, call) <==> RowDue(alm, row, date, minute, call))
      <==> !Flipped(alm, row, side, today, date)
  {
    var side := if on then row.on else row.off;
    var call := Call(row.relay - 1, on);
    forall minute
      ensures row.weekly || (RowFires(alm, row, today, date, minute, call) <==> RowDue(alm, row, date, minute, call))
      ensures row.weekly && RowFires(alm, row, today, date, minute, call) != RowDue(alm, row, date, minute, call)
        ==> Flipped(alm, row, side, today, date)
    {
      if row.weekly {
        WeeklySideFires(alm, row, on, today, date, minute);
        WeeklySideDue(alm, row, on, date, minute);
      } else {
        DatedSideMirrors(alm, row, on, today, date, minute);
      }
    }
    if Flipped(alm, row, side, today, date) {
      WeeklySideFires(alm, row, on, today, date, side.time.value);
      WeeklySideDue(alm, row, on, date, side.time.value);
      assert RowFires(alm, row, today, date, side.time.value, call) != RowDue(alm, row, date, side.time.value, call);
    }
  }

  /** A row that flips: every day at some minute, except one date of next week. The job stays
      in the unit's table and acts on that date; the server does not. */
  lemma SomeRowFlips(alm: Almanac, minute: int)
    ensures var today, date := Date(2025, 1, 1), Date(2025, 1, 8);
      var side := Side(Some(minute), None, None);
      var x := Exclusion(None, [RangeItem(true, false, Some(date), Some(date))]);
      var row := Row(true, 1, side, Side(None, None, None), x);
      && IsNextAnniversary(date, today) && Flipped(alm, row, side, today, date)
      && RowFires(alm, row, today, date, minute, Call(0, true)) && !RowDue(alm, row, date, minute, Call(0, true))
  {
    var today, date := Date(2025, 1, 1), Date(2025, 1, 8);
    var x := Exclusion(None, [RangeItem(true, false, Some(date), Some(date))]);
    var row := Row(true, 1, Side(Some(minute), None, None), Side(None, None, None), x);
    OneDatedItem(x.list[0]);
    assert InItem(alm, x.list[0], date) && !InItem(alm, x.list[0], today);
    WeeklySideFires(alm, row, true, today, date, minute);
  }

  lemma RowMirrorsServer(alm: Almanac, row: Row, today: Date, date: Date, minute: int, call: Call)
    requires Valid(today) && Valid(date) && IsNextAnniversary(date, today)
    requires !Flipped(alm, row, if call.on then row.on else row.off, today, date)
    ensures RowFires(alm, row, today, date, minute, call) <==> RowDue(alm, row, date, minute, call)
  {
    SideMirrorsServer(alm, row, call.on, today, date);
    if call.id == row.relay - 1 {
      assert call == Call(row.relay - 1, call.on);
    }
  }

  ghost predicate Compiled(alm: Almanac, rows: seq<Row>, today: Date, jobs: seq<Job>) {
    CompiledUpTo(alm, rows, |rows|, today, jobs)
  }

  ghost predicate CompiledUpTo(alm: Almanac, rows: seq<Row>, n: int, today: Date, jobs: seq<Job>)
    requires 0 <= n <= |rows|
  {
    forall date, minute, call :: Fires(jobs, date, minute, call) <==>
      exists i :: 0 <= i < n && RowFires(alm, rows[i], today, date, minute, call)
  }

  predicate NoFlip(alm: Almanac, rows: seq<Row>, today: Date, date: Date) {
    forall i :: 0 <= i < |rows| ==>
      !Flipped(alm, rows[i], rows[i].on, today, date) && !Flipped(alm, rows[i], rows[i].off, today, date)
  }

  /** On every date of the coming year on which no row flips, the jobs fire exactly what the
      server has due; rows without dated exclusions never flip (NoDatedExclusionNeverFlips). */
  lemma MirrorsServer(alm: Almanac, rows: seq<Row>, today: Date, date: Date, jobs: seq<Job>, minute: int, call: Call)
    requires Valid(today) && Valid(date) && IsNextAnniversary(date, today) && Compiled(alm, rows, today, jobs)
    requires NoFlip(alm, rows, today, date)
    ensures Fires(jobs, date, minute, call) <==> ServerDue(alm, rows, date, minute, call)
  {
    forall i | 0 <= i < |rows|
      ensures RowFires(alm, rows[i], today, date, minute, call) <==> RowDue(alm, rows[i], date, minute, call)
    {
      RowMirrorsServer(alm, rows[i], today, date, minute, call);
    }
  }

  /** No row flips on the day the jobs are compiled for. */
  lemma MirrorsServerToday(alm: Almanac, rows: seq<Row>, today: Date, jobs: seq<Job>, minute: int, call: Call)
    requires Valid(today) && Compiled(alm, rows, today, jobs)
    ensures Fires(jobs, today, minute, call) <==> ServerDue(alm, rows, today, minute, call)
  {
    MirrorsServer(alm, rows, today, today, jobs, minute, call);
  }

  lemma NoDatedExclusionNeverFlips(alm: Almanac, row: Row, side: Side, today: Date, date: Date)
    requires !HasDated(row.excl)
    ensures !Flipped(alm, row, side, today, date)
  {
    ExclusionSplits(alm, row.excl, date);
    ExclusionSplits(alm, row.excl, today);
  }

  // ---- The compiler ----

  /** How many switch events the rows describe. */
  function SidesWithTime(rows: seq<Row>): nat {
    if rows == [] then 0
    else
      var last := rows[|rows| - 1];
      SidesWithTime(rows[..|rows| - 1])
      + (if last.on.time.Some? then 1 else 0) + (if last.off.time.Some? then 1 else 0)
  }

  /** Two at most for every row, one for each side that has a time. */
  lemma {:induction false} SidesCounted(rows: seq<Row>)
    ensures SidesWithTime(rows) <= 2 * |rows|
    ensures (forall row :: row in rows ==> row.on.time.None? || row.off.time.None?) ==> SidesWithTime(rows) <= |rows|
  {
    if rows != [] {
      var front, last := rows[..|rows| - 1], rows[|rows| - 1];
      assert rows == front + [last];
      SidesCounted(front);
    }
  }

  function TotalCalls(jobs: seq<Job>): nat {
    if jobs == [] then 0 else TotalCalls(jobs[..|jobs| - 1]) + |jobs[|jobs| - 1].calls|
  }

  lemma TotalCallsPush(jobs: seq<Job>, j: Job)
    ensures TotalCalls(jobs + [j]) == TotalCalls(jobs) + |j.calls|
  {
    assert (jobs + [j])[..|jobs|] == jobs;
  }

  lemma {:induction false} TotalCallsUpdate(jobs: seq<Job>, k: nat, j: Job)
    requires k < |jobs|
    ensures TotalCalls(jobs[k := j]) == TotalCalls(jobs) - |jobs[k].calls| + |j.calls|
  {
    var n := |jobs| - 1;
    if k == n {
      assert jobs[k := j][..n] == jobs[..n];
    } else {
      assert jobs[k := j][..n] == jobs[..n][k := j];
      TotalCallsUpdate(jobs[..n], k, j);
    }
  }

  lemma FiresPush(jobs: seq<Job>, j: Job)
    ensures forall date, minute, call :: Fires(jobs + [j], date, minute, call) <==>
      Fires(jobs, date, minute, call) || JobFires(j, date, minute, call)
  {
    forall date, minute, call
      ensures Fires(jobs + [j], date, minute, call) <==>
        Fires(jobs, date, minute, call) || JobFires(j, date, minute, call)
    {
      if k :| 0 <= k < |jobs| && JobFires(jobs[k], date, minute, call) {
        assert (jobs + [j])[k] == jobs[k];
      }
      assert (jobs + [j])[|jobs|] == j;
    }
  }

  lemma {:induction false} FiresConcat(a: seq<Job>, b: seq<Job>)
    ensures forall date, minute, call :: Fires(a + b, date, minute, call) <==>
      Fires(a, date, minute, call) || Fires(b, date, minute, call)
    ensures TotalCalls(a + b) == TotalCalls(a) + TotalCalls(b)
  {
    if b == [] {
      assert a + b == a;
    } else {
      var front, last := b[..|b| - 1], b[|b| - 1];
      assert a + b == a + front + [last] && b == front + [last];
      FiresConcat(a, front);
      FiresPush(a + front, last);
      FiresPush(front, last);
      TotalCallsPush(a + front, last);
    }
  }

  predicate RealMinute(minute: int) {
    0 <= minute < 1440
  }

  predicate Weekdays(dows: set<int>) {
    forall w :: w in dows ==> 0 <= w < 7
  }

  /** A spec the compiler can produce: a minute of the day, and a weekday list that is not
      empty or a real date of the coming year. */
  ghost predicate FromCompiler(spec: Spec, today: Date) {
    RealMinute(spec.minute) &&
    match spec
    case WeeklySpec(_, dows) => dows != {} && Weekdays(dows)
    case DatedSpec(_, mo, d) => exists y :: DatedIn(mo, d, y, today)
  }

  ghost predicate AllMirrorable(jobs: seq<Job>, today: Date) {
    forall k :: 0 <= k < |jobs| ==> FromCompiler(jobs[k].spec, today)
  }

  predicate DatedIn(mo: int, d: int, y: int, today: Date) {
    Valid(Date(y, mo, d)) && IsNextAnniversary(Date(y, mo, d), today)
  }

  /** The database stores calendar dates and times of day only. */
  predicate RealSide(side: Side) {
    (side.date.Some? ==> Valid(side.date.value)) && (side.time.Some? ==> RealMinute(side.time.value))
  }

  predicate RealRow(row: Row) {
    RealSide(row.on) && RealSide(row.off)
  }

  function RowJobs(alm: Almanac, row: Row, today: Date): seq<Job> {
    var on := SideJob(alm, row, row.on, true, today);
    var off := SideJob(alm, row, row.off, false, today);
    (if on.Some? then [on.value] else []) + (if off.Some? then [off.value] else [])
  }

  lemma RowJobsFire(alm: Almanac, row: Row, today: Date, jobs: seq<Job>)
    ensures forall date, minute, call :: Fires(jobs + RowJobs(alm, row, today), date, minute, call) <==>
      Fires(jobs, date, minute, call) || RowFires(alm, row, today, date, minute, call)
  {
    var on := SideJob(alm, row, row.on, true, today);
    var off := SideJob(alm, row, row.off, false, today);
    var mid := jobs + if on.Some? then [on.value] else [];
    if on.Some? { FiresPush(jobs, on.value); }
    if off.Some? { FiresPush(mid, off.value); }
    assert jobs + [] == jobs && mid + [] == mid;
    assert jobs + RowJobs(alm, row, today) == mid + if off.Some? then [off.value] else [];
  }

  lemma SideJobShape(alm: Almanac, row: Row, side: Side, on: bool, today: Date)
    requires RealSide(side)
    ensures var j := SideJob(alm, row, side, on, today);
      j.Some? ==> |j.value.calls| == 1 && FromCompiler(j.value.spec, today)
  {
    var j := SideJob(alm, row, side, on, today);
    assert j.Some? && j.value.spec.DatedSpec? ==> DatedIn(j.value.spec.mo, j.value.spec.d, side.date.value.y, today);
  }

  lemma {:induction false} OneCallEach(jobs: seq<Job>)
    requires forall j :: j in jobs ==> |j.calls| == 1
    ensures TotalCalls(jobs) == |jobs|
  {
    if jobs != [] {
      OneCallEach(jobs[..|jobs| - 1]);
    }
  }

  /** The loop over rows and their two sides: one job per mirrored side. */
  method CompileRows(alm: Almanac, rows: seq<Row>, today: Date) returns (jobs: seq<Job>)
    requires forall i :: 0 <= i < |rows| ==> RealRow(rows[i])
    ensures Compiled(alm, rows, today, jobs)
    ensures AllMirrorable(jobs, today) && forall j :: j in jobs ==> |j.calls| == 1
    ensures TotalCalls(jobs) == |jobs| <= SidesWithTime(rows)
  {
    jobs := [];
    for i := 0 to |rows|
      invariant CompiledUpTo(alm, rows, i, today, jobs)
      invariant AllMirrorable(jobs, today) && forall j :: j in jobs ==> |j.calls| == 1
      invariant |jobs| <= SidesWithTime(rows[..i])
    {
      assert RealRow(rows[i]);
      RowJobsFire(alm, rows[i], today, jobs);
      SideJobShape(alm, rows[i], rows[i].on, true, today);
      SideJobShape(alm, rows[i], rows[i].off, false, today);
      assert rows[..i + 1][..i] == rows[..i];
      jobs := jobs + RowJobs(alm, rows[i], today);
    }
    assert rows[..|rows|] == rows;
    OneCallEach(jobs);
  }
}
