/** The 20-job horizon (fitShellyJobs, src/services/shelly-schedules.js): which jobs stay
    when the device's table is too small, and until when that changes nothing. */
module ShellyFit {
  import opened Civil
  import opened Exclusions
  import opened ShellyCompile
  import opened ShellyMerge
  import opened Sorting

  const MAX_SHELLY_JOBS := 20

  function DaysTo(dow: int, todayDow: int): (n: int)
    ensures 0 <= dow < 7 && 0 <= todayDow < 7 ==> n == if todayDow <= dow then dow - todayDow else dow - todayDow + 7
  {
    (dow - todayDow + 7) % 7
  }

  /** The least of those over the listed weekdays from `d` on (today counts as 0); 7 stands
      for the minimum of an empty list. */
  function LeastDaysTo(dows: set<int>, todayDow: int, d: int): (n: int)
    ensures n <= 7
    ensures forall w :: w in dows && d <= w <= 6 ==> n <= DaysTo(w, todayDow)
    ensures n == 7 || exists w :: w in dows && d <= w <= 6 && n == DaysTo(w, todayDow)
    decreases 7 - d
  {
    if d > 6 then 7
    else
      var rest := LeastDaysTo(dows, todayDow, d + 1);
      if d in dows && DaysTo(d, todayDow) < rest then DaysTo(d, todayDow) else rest
  }

  /** The year the code infers for a month and day: this one unless already past. */
  function InferredDate(mo: int, d: int, today: Date): Date {
    Date(if MonthDayBefore(mo, d, today.mo, today.d) then today.y + 1 else today.y, mo, d)
  }

  function DaysUntil(spec: Spec, today: Date): int {
    match spec
    case WeeklySpec(_, dows) => LeastDaysTo(dows, Dow(today) - 1, 0)
    case DatedSpec(_, mo, d) => DaysFrom(today, InferredDate(mo, d, today))
  }

  /** daysUntil * 100000 + hh * 100 + mm */
  function MomentKey(days: int, minute: int): int {
    days * 100000 + minute / 60 * 100 + minute % 60
  }

  function Key(j: Job, today: Date): int {
    MomentKey(DaysUntil(j.spec, today), j.spec.minute)
  }

  lemma MomentOrder(days1: int, minute1: int, days2: int, minute2: int)
    requires RealMinute(minute1) && RealMinute(minute2)
    ensures MomentKey(days1, minute1) < MomentKey(days2, minute2)
      <==> days1 < days2 || (days1 == days2 && minute1 < minute2)
  {
  }

  /** From weekday t, weekday w comes up after DaysTo(w, t) days and not before. */
  lemma WeekdayComesUp(t: int, w: int, k: nat)
    requires 0 <= t < 7 && 0 <= w < 7
    ensures 0 <= DaysTo(w, t) < 7 && (t + DaysTo(w, t)) % 7 == w
    ensures (t + k) % 7 == w ==> DaysTo(w, t) <= k
  {
  }

  /** The inferred year is the right one for every date the compiler lets through. */
  lemma InferredYearIsRight(mo: int, d: int, y: int, today: Date)
    requires DatedIn(mo, d, y, today)
    ensures InferredDate(mo, d, today) == Date(y, mo, d)
  {
  }

  lemma LeastIsSomeDistance(dows: set<int>, t: int) returns (w: int)
    requires 0 <= t < 7 && dows != {} && Weekdays(dows)
    ensures w in dows && 0 <= w < 7 && LeastDaysTo(dows, t, 0) == DaysTo(w, t)
  {
    var any := SomeElement(dows);
    assert LeastDaysTo(dows, t, 0) <= DaysTo(any, t) < 7;
    w :| w in dows && 0 <= w <= 6 && LeastDaysTo(dows, t, 0) == DaysTo(w, t);
  }

  /** The least distance is the distance to one of the weekdays ... */
  lemma LeastIsReached(dows: set<int>, t: int) returns (w: int)
    requires 0 <= t < 7 && dows != {} && Weekdays(dows)
    ensures w in dows && 0 <= LeastDaysTo(dows, t, 0) && (t + LeastDaysTo(dows, t, 0)) % 7 == w
  {
    w := LeastIsSomeDistance(dows, t);
    assert (t + DaysTo(w, t)) % 7 == w by { WeekdayComesUp(t, w, 0); }
  }

  /** ... and no weekday of the list comes up earlier. */
  lemma LeastIsFirst(dows: set<int>, t: int, w: int, k: nat)
    requires 0 <= t < 7 && 0 <= w < 7 && w in dows && (t + k) % 7 == w
    ensures LeastDaysTo(dows, t, 0) <= k
  {
    assert LeastDaysTo(dows, t, 0) <= DaysTo(w, t);
    WeekdayComesUp(t, w, k);
  }

  lemma FirstWeekly(dows: set<int>, today: Date, date: Date)
    requires Weekdays(dows) && dows != {} && 0 <= DaysFrom(today, date)
    ensures DaysFrom(today, date) == LeastDaysTo(dows, Dow(today) - 1, 0) ==> Dow(date) - 1 in dows
    ensures Dow(date) - 1 in dows ==> LeastDaysTo(dows, Dow(today) - 1, 0) <= DaysFrom(today, date)
    ensures 0 <= LeastDaysTo(dows, Dow(today) - 1, 0)
  {
    DowCountsOn(today, date);
    FirstInCycle(dows, Dow(today) - 1, Dow(date) - 1, DaysFrom(today, date));
  }

  lemma FirstInCycle(dows: set<int>, t: int, w: int, k: nat)
    requires Weekdays(dows) && dows != {} && 0 <= t < 7 && 0 <= w < 7 && w == (t + k) % 7
    ensures 0 <= LeastDaysTo(dows, t, 0)
    ensures k == LeastDaysTo(dows, t, 0) ==> w in dows
    ensures w in dows ==> LeastDaysTo(dows, t, 0) <= k
  {
    var first := LeastIsSomeDistance(dows, t);
    if k == LeastDaysTo(dows, t, 0) {
      LeastReachedOn(dows, t, w, k);
    }
    if w in dows {
      LeastIsFirst(dows, t, w, k);
    }
  }

  lemma LeastReachedOn(dows: set<int>, t: int, w: int, n: int)
    requires Weekdays(dows) && dows != {} && 0 <= t < 7
    requires n == LeastDaysTo(dows, t, 0) && w == (t + n) % 7
    ensures w in dows
  {
    var first := LeastIsReached(dows, t);
  }

  lemma FirstDated(mo: int, d: int, today: Date, date: Date)
    requires Valid(today) && Valid(date) && 0 <= DaysFrom(today, date)
    requires exists y :: DatedIn(mo, d, y, today)
    ensures DaysFrom(today, date) == DaysFrom(today, InferredDate(mo, d, today)) ==> date.mo == mo && date.d == d
    ensures date.mo == mo && date.d == d ==> DaysFrom(today, InferredDate(mo, d, today)) <= DaysFrom(today, date)
    ensures 0 <= DaysFrom(today, InferredDate(mo, d, today))
  {
    var y :| DatedIn(mo, d, y, today);
    var first := Date(y, mo, d);
    InferredYearIsRight(mo, d, y, today);
    StringOrderIsDayOrder(today, first);
    StringOrderIsDayOrder(first, date);
    StringOrderIsDayOrder(today, date);
    StringOrderIsDayOrder(date, first);
    if Before(date, first) {
      MonthDayIsUniqueInWindow(date, first, today);
    }
  }

  /** The key of a job is the moment of its first firing counted from today's midnight: on
      the day it names the job fires, and every day it fires on is that day or later. */
  lemma KeyIsFirstFiring(spec: Spec, today: Date, date: Date)
    requires Valid(today) && Valid(date) && AtMost(today, date) && FromCompiler(spec, today)
    ensures 0 <= DaysUntil(spec, today)
    ensures DaysFrom(today, date) == DaysUntil(spec, today) ==> Matches(spec, date, spec.minute)
    ensures Matches(spec, date, spec.minute) ==> DaysUntil(spec, today) <= DaysFrom(today, date)
  {
    if spec.WeeklySpec? {
      WeeklyKey(spec, today, date);
    } else {
      StringOrderIsDayOrder(date, today);
      FirstDated(spec.mo, spec.d, today, date);
    }
  }

  lemma WeeklyKey(spec: Spec, today: Date, date: Date)
    requires Valid(today) && Valid(date) && AtMost(today, date) && spec.WeeklySpec?
    requires spec.dows != {} && Weekdays(spec.dows)
    ensures 0 <= DaysUntil(spec, today)
    ensures DaysFrom(today, date) == DaysUntil(spec, today) ==> Matches(spec, date, spec.minute)
    ensures Matches(spec, date, spec.minute) ==> DaysUntil(spec, today) <= DaysFrom(today, date)
  {
    StringOrderIsDayOrder(date, today);
    FirstWeekly(spec.dows, today, date);
  }

  // ---- Keeping the soonest twenty ----

  method FitShellyJobs(jobs: seq<Job>, today: Date) returns (kept: seq<Job>, ghost dropped: seq<Job>)
    ensures multiset(kept) + multiset(dropped) == multiset(jobs)
    ensures |jobs| <= 20 ==> kept == jobs && dropped == []
    ensures |jobs| > 20 ==> |kept| == 20
    ensures forall k, d :: 0 <= k < |kept| && 0 <= d < |dropped| ==> Key(kept[k], today) <= Key(dropped[d], today)
  {
    if |jobs| <= MAX_SHELLY_JOBS {
      return jobs, [];
    }
    var less := (a: Job, b: Job) => Key(a, today) < Key(b, today);
    var ranked := Sort(jobs, less);
    kept := ranked[..MAX_SHELLY_JOBS];
    dropped := ranked[MAX_SHELLY_JOBS..];
    assert ranked == kept + dropped;
    forall k, d | 0 <= k < |kept| && 0 <= d < |dropped|
      ensures Key(kept[k], today) <= Key(dropped[d], today)
    {
      assert !less(ranked[MAX_SHELLY_JOBS + d], ranked[k]);
    }
  }

  /** Until the earliest first firing of any dropped job, the kept jobs fire exactly what
      the whole list fires; and FitShellyJobs promises that no kept job's own first firing
      lies beyond that horizon. */
  lemma HorizonIsExact(jobs: seq<Job>, kept: seq<Job>, dropped: seq<Job>, today: Date, date: Date, minute: int,
        call: Call)
    requires Valid(today) && Valid(date) && AtMost(today, date) && RealMinute(minute)
    requires AllMirrorable(jobs, today)
    requires multiset(kept) + multiset(dropped) == multiset(jobs)
    requires forall d :: d in dropped ==> MomentKey(DaysFrom(today, date), minute) < Key(d, today)
    ensures Fires(kept, date, minute, call) <==> Fires(jobs, date, minute, call)
  {
    SameElements(jobs, kept, dropped);
    if i :| 0 <= i < |kept| && JobFires(kept[i], date, minute, call) {
      assert kept[i] in jobs;
      var n :| 0 <= n < |jobs| && jobs[n] == kept[i];
    }
    if i :| 0 <= i < |jobs| && JobFires(jobs[i], date, minute, call) {
      var j := jobs[i];
      if j in dropped {
        NotBeforeItsKey(j, today, date, minute, call);
        assert false;
      }
      var n :| 0 <= n < |kept| && kept[n] == j;
    }
  }

  lemma NotBeforeItsKey(j: Job, today: Date, date: Date, minute: int, call: Call)
    requires Valid(today) && Valid(date) && AtMost(today, date) && RealMinute(minute) && FromCompiler(j.spec, today)
    requires JobFires(j, date, minute, call)
    ensures Key(j, today) <= MomentKey(DaysFrom(today, date), minute)
  {
    KeyIsFirstFiring(j.spec, today, date);
    MomentOrder(DaysFrom(today, date), minute, DaysUntil(j.spec, today), j.spec.minute);
  }

  lemma SameElements(jobs: seq<Job>, kept: seq<Job>, dropped: seq<Job>)
    requires multiset(kept) + multiset(dropped) == multiset(jobs)
    ensures forall j :: j in jobs <==> j in kept || j in dropped
  {
    assert forall j :: j in jobs <==> j in multiset(jobs);
    assert forall j :: j in kept <==> j in multiset(kept);
    assert forall j :: j in dropped <==> j in multiset(dropped);
  }

  /** What buildShellyJobs promises of its list. */
  ghost predicate CompiledList(alm: Almanac, rows: seq<Row>, today: Date, jobs: seq<Job>) {
    Compiled(alm, rows, today, jobs) && SmallJobs(jobs) && |jobs| <= SidesWithTime(rows)
  }

  /** The kept and the dropped jobs are the compiled list, no more and no less. */
  ghost predicate MakesUp(alm: Almanac, rows: seq<Row>, today: Date, kept: seq<Job>, dropped: seq<Job>) {
    exists jobs :: CompiledList(alm, rows, today, jobs) && multiset(kept) + multiset(dropped) == multiset(jobs)
  }

  /** A minute of the coming year, on a date without flips, before any dropped job first fires. */
  ghost predicate InHorizon(alm: Almanac, rows: seq<Row>, today: Date, dropped: seq<Job>, date: Date, minute: int) {
    && Valid(date) && IsNextAnniversary(date, today) && RealMinute(minute) && NoFlip(alm, rows, today, date)
    && forall d :: d in dropped ==> MomentKey(DaysFrom(today, date), minute) < Key(d, today)
  }

  /** buildShellyJobs then fitShellyJobs, as desiredJobs feeds the sync: up to the horizon the
      mirrored table fires what the server has due, on every date on which no row flips. */
  method DesiredJobs(alm: Almanac, rows: seq<Row>, today: Date) returns (kept: seq<Job>, ghost dropped: seq<Job>)
    requires Valid(today) && forall i :: 0 <= i < |rows| ==> RealRow(rows[i])
    ensures MakesUp(alm, rows, today, kept, dropped)
    ensures |kept| <= MAX_SHELLY_JOBS && (dropped != [] ==> |kept| == MAX_SHELLY_JOBS)
    ensures forall k, d :: 0 <= k < |kept| && 0 <= d < |dropped| ==> Key(kept[k], today) <= Key(dropped[d], today)
    ensures forall date, minute, call :: InHorizon(alm, rows, today, dropped, date, minute) ==>
      (Fires(kept, date, minute, call) <==> ServerDue(alm, rows, date, minute, call))
  {
    var jobs := BuildShellyJobs(alm, rows, today);
    kept, dropped := FitShellyJobs(jobs, today);
    assert CompiledList(alm, rows, today, jobs);
    assert |multiset(kept) + multiset(dropped)| == |kept| + |dropped|;
    forall date, minute, call | InHorizon(alm, rows, today, dropped, date, minute)
      ensures Fires(kept, date, minute, call) <==> ServerDue(alm, rows, date, minute, call)
    {
      HorizonIsExact(jobs, kept, dropped, today, date, minute, call);
      MirrorsServer(alm, rows, today, date, jobs, minute, call);
    }
  }
}
