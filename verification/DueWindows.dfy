/** Occurrences of a schedule in a half-open window of UTC minutes (occurrencesInWindow and
    sortDue, src/scheduler/tick.js). Local dates are day numbers, so a wall time is
    date * 1440 + minute and shiftDate is addition. */
module DueWindows {
  import opened Common
  import opened WallClock
  import opened Sorting

  const MAX_JUMP := 60

  /** One side of a row: a weekly one has a day (0 = daily), a dated one a date. */
  datatype When = OnDay(day: int) | OnDate(date: int)
  datatype Side = Side(when: When, minute: int)
  datatype Schedule = Schedule(id: int, on: Option<Side>, off: Option<Side>)
  datatype Occurrence = Occurrence(id: int, on: bool, date: int, minute: int, utc: int)

  function LocalDate(off: int -> int, t: int): int {
    Local(off, t) / DAY
  }

  function DowOf(date: int): int {
    date % 7 + 1
  }

  function Wall(date: int, minute: int): int {
    date * DAY + minute
  }

  predicate FallsOn(when: When, date: int) {
    match when
    case OnDay(day) => day == 0 || DowOf(date) == day
    case OnDate(d) => d == date
  }

  predicate Candidate(when: When, base: int, date: int) {
    FallsOn(when, date) && (when.OnDay? ==> base - 1 <= date <= base + 1)
  }

  function SideOf(s: Schedule, on: bool): Option<Side> {
    if on then s.on else s.off
  }

  predicate RealSchedule(s: Schedule) {
    (s.on.Some? ==> 0 <= s.on.value.minute < DAY) && (s.off.Some? ==> 0 <= s.off.value.minute < DAY)
  }

  /** What the schedule promises, with no window and no candidate dates. */
  ghost predicate Occurs(s: Schedule, off: int -> int, o: Occurrence) {
    && o.id == s.id && SideOf(s, o.on).Some? && o.minute == SideOf(s, o.on).value.minute
    && FallsOn(SideOf(s, o.on).value.when, o.date) && Resolves(off, Wall(o.date, o.minute), o.utc)
  }

  predicate InWindow(o: Occurrence, from: int, to: int) {
    from <= o.utc < to
  }

  /** What the code finds in a window: only around the window's first local date. */
  ghost predicate Finds(s: Schedule, off: int -> int, from: int, to: int, o: Occurrence) {
    && Occurs(s, off, o) && InWindow(o, from, to)
    && Candidate(SideOf(s, o.on).value.when, LocalDate(off, from), o.date)
  }

  /** Around [from, to) the zone changes at most once, by at most an hour. */
  ghost predicate CalmZone(off: int -> int, from: int, to: int, at: int, before: int, after: int) {
    && RealZone(off) && -MAX_JUMP <= after - before <= MAX_JUMP
    && OneChange(off, from - 5 * DAY, to + 5 * DAY, at, before, after)
  }

  // ---- The three candidate dates ----

  /** An instant of a window resolves a wall time close to its own local time. */
  lemma WallNearInstant(off: int -> int, from: int, to: int, at: int, before: int, after: int, wall: int, t: int)
    requires CalmZone(off, from, to, at, before, after) && from <= t < to && Resolves(off, wall, t)
    ensures wall <= Local(off, t) && Local(off, t) - MAX_JUMP <= wall
    ensures wall == Local(off, t) || (t == at && Local(off, t - 1) < wall)
  {
    assert off(t) == if t < at then before else after;
    assert off(t - 1) == if t - 1 < at then before else after;
  }

  /** For any window of at most 23 hours no candidate date is missing. */
  lemma CandidatesMissNone(s: Schedule, off: int -> int, from: int, to: int, at: int, before: int, after: int,
        o: Occurrence)
    requires CalmZone(off, from, to, at, before, after) && to - from <= 23 * 60 && RealSchedule(s)
    requires Occurs(s, off, o) && InWindow(o, from, to)
    ensures Finds(s, off, from, to, o)
  {
    WallNearInstant(off, from, to, at, before, after, Wall(o.date, o.minute), o.utc);
    assert off(from) == if from < at then before else after;
    assert off(o.utc) == if o.utc < at then before else after;
  }

  /** Half-open windows tile: an occurrence of [a, c) is found in exactly one of [a, b) and
      [b, c), and each finds no others. */
  lemma WindowsTile(s: Schedule, off: int -> int, a: int, b: int, c: int, at: int, before: int, after: int,
        o: Occurrence)
    requires CalmZone(off, a, c, at, before, after) && a <= b <= c && c - a <= 23 * 60 && RealSchedule(s)
    ensures Finds(s, off, a, c, o) <==> Finds(s, off, a, b, o) || Finds(s, off, b, c, o)
    ensures !(Finds(s, off, a, b, o) && Finds(s, off, b, c, o))
  {
    if Occurs(s, off, o) && InWindow(o, a, c) {
      CandidatesMissNone(s, off, a, c, at, before, after, o);
      if o.utc < b {
        CandidatesMissNone(s, off, a, b, at, before, after, o);
      } else {
        CandidatesMissNone(s, off, b, c, at, before, after, o);
      }
    }
  }

  // ---- The 24-hour window of the startup scan ----

  ghost predicate CandidatesSuffice(off: int -> int, from: int, to: int) {
    forall s, o :: RealSchedule(s) && Occurs(s, off, o) && InWindow(o, from, to) ==> Finds(s, off, from, to, o)
  }

  /** For windows up to a day the three dates suffice exactly when the window's last minute
      is at most one local date ahead of its first. */
  lemma DayWindowComplete(off: int -> int, from: int, to: int, at: int, before: int, after: int)
    requires CalmZone(off, from, to, at, before, after) && from < to <= from + DAY
    ensures CandidatesSuffice(off, from, to) <==> LocalDate(off, to - 1) <= LocalDate(off, from) + 1
  {
    var last := to - 1;
    if LocalDate(off, last) > LocalDate(off, from) + 1 {
      var minute := Local(off, last) % DAY;
      var s := Schedule(0, Some(Side(OnDay(0), minute)), None);
      var o := Occurrence(0, true, LocalDate(off, last), minute, last);
      assert Wall(o.date, o.minute) == Local(off, last);
      assert Occurs(s, off, o) && InWindow(o, from, to) && !Finds(s, off, from, to, o);
    } else {
      forall s, o | RealSchedule(s) && Occurs(s, off, o) && InWindow(o, from, to)
        ensures Finds(s, off, from, to, o)
      {
        WallNearInstant(off, from, to, at, before, after, Wall(o.date, o.minute), o.utc);
        DateWithinOne(off, from, to, at, before, after, o.date, o.minute, o.utc);
      }
    }
  }

  lemma DateWithinOne(off: int -> int, from: int, to: int, at: int, before: int, after: int, date: int, minute: int,
        t: int)
    requires CalmZone(off, from, to, at, before, after) && from < to <= from + DAY && from <= t < to
    requires LocalDate(off, to - 1) <= LocalDate(off, from) + 1
    requires 0 <= minute < DAY && Wall(date, minute) <= Local(off, t) && Local(off, t) - MAX_JUMP <= Wall(date, minute)
    ensures LocalDate(off, from) - 1 <= date <= LocalDate(off, from) + 1
  {
    assert off(from) == if from < at then before else after;
    assert off(t) == if t < at then before else after;
    assert off(to - 1) == if to - 1 < at then before else after;
    assert Local(off, t) <= Local(off, from) + DAY - 1 || Local(off, t) <= Local(off, to - 1);
  }

  /** An Israeli spring night: clocks go from 02:00 to 03:00 inside the scanned day. */
  function SpringForward(t: int): int {
    if t < DAY then 120 else 180
  }

  /** startupScan looks 24 hours back; begun at local 23:30 before that night it never
      considers 00:10 two dates on, although that minute lies in the window. */
  lemma StartupScanCanMiss()
    ensures var from := 23 * 60 + 30 - 120; var to := from + DAY;
      var s := Schedule(1, Some(Side(OnDay(0), 10)), None); var o := Occurrence(1, true, 2, 10, 2 * DAY + 10 - 180);
      LocalDate(SpringForward, from) == 0 && Occurs(s, SpringForward, o) && InWindow(o, from, to)
      && !Finds(s, SpringForward, from, to, o)
  {
    assert Local(SpringForward, 2 * DAY + 10 - 180) == Wall(2, 10);
  }

  // ---- The code ----

  /** A zone whose changes are more than two days apart. */
  ghost predicate TameZone(off: int -> int) {
    forall wall :: SteadyNear(off, wall)
  }

  ghost predicate SteadyNear(off: int -> int, wall: int) {
    exists at, before, after :: NearlySteady(off, wall, at, before, after)
  }

  /** The candidate dates of one side. */
  method CandidateDates(when: When, base: int) returns (dates: seq<int>)
    ensures Distinct(dates) && forall d :: d in dates <==> Candidate(when, base, d)
  {
    dates := [];
    if when.OnDate? {
      return [when.date];
    }
    for shift := -1 to 2
      invariant Distinct(dates) && forall d :: d in dates <==> Candidate(when, base, d) && d < base + shift
    {
      if FallsOn(when, base + shift) {
        assert base + shift !in dates;
        dates := dates + [base + shift];
      }
    }
  }

  ghost predicate FindsOn(s: Schedule, off: int -> int, on: bool, dates: seq<int>, from: int, to: int, o: Occurrence) {
    o.on == on && o.date in dates && Finds(s, off, from, to, o)
  }

  /** The hits of one candidate date that lie in the window. */
  method DateOccurrences(s: Schedule, on: bool, off: int -> int, date: int, from: int, to: int)
        returns (out: seq<Occurrence>)
    requires TameZone(off) && SideOf(s, on).Some?
    requires Candidate(SideOf(s, on).value.when, LocalDate(off, from), date)
    ensures Distinct(out) && forall o :: o in out <==> FindsOn(s, off, on, [date], from, to, o)
  {
    var minute := SideOf(s, on).value.minute;
    var wall := Wall(date, minute);
    assert SteadyNear(off, wall);
    ghost var at, before, after :| NearlySteady(off, wall, at, before, after);
    var hits := Hits(off, wall, at, before, after);
    out := [];
    for i := 0 to |hits|
      invariant Distinct(out)
      invariant forall o ::
        o in out <==> o == Occurrence(s.id, on, date, minute, o.utc) && o.utc in hits[..i] && from <= o.utc < to
    {
      assert hits[..i + 1] == hits[..i] + [hits[i]];
      if from <= hits[i] < to {
        assert hits[i] !in hits[..i];
        out := out + [Occurrence(s.id, on, date, minute, hits[i])];
      }
    }
    assert hits[..|hits|] == hits;
  }

  method SideOccurrences(s: Schedule, on: bool, off: int -> int, from: int, to: int) returns (out: seq<Occurrence>)
    requires TameZone(off)
    ensures Distinct(out) && forall o :: o in out <==> o.on == on && Finds(s, off, from, to, o)
  {
    out := [];
    if SideOf(s, on).None? {
      return;
    }
    var dates := CandidateDates(SideOf(s, on).value.when, LocalDate(off, from));
    for i := 0 to |dates|
      invariant Distinct(out) && forall o :: o in out <==> FindsOn(s, off, on, dates[..i], from, to, o)
    {
      var more := DateOccurrences(s, on, off, dates[i], from, to);
      assert dates[..i + 1] == dates[..i] + [dates[i]];
      assert dates[i] !in dates[..i];
      assert forall o :: o in out ==> o !in more;
      DistinctConcat(out, more);
      out := out + more;
    }
    assert dates[..|dates|] == dates;
  }

  /** occurrencesInWindow */
  method OccurrencesInWindow(s: Schedule, off: int -> int, from: int, to: int) returns (out: seq<Occurrence>)
    requires TameZone(off)
    ensures Distinct(out) && forall o :: o in out <==> Finds(s, off, from, to, o)
  {
    var on := SideOccurrences(s, true, off, from, to);
    var offs := SideOccurrences(s, false, off, from, to);
    assert forall o :: o in on ==> o !in offs;
    DistinctConcat(on, offs);
    out := on + offs;
  }

  /** The apply order: intended local time, then schedule id, ON before OFF. */
  predicate DueBefore(a: Occurrence, b: Occurrence) {
    if Wall(a.date, a.minute) != Wall(b.date, b.minute) then Wall(a.date, a.minute) < Wall(b.date, b.minute)
    else if a.id != b.id then a.id < b.id
    else a.on && !b.on
  }

  /** Nothing is applied before an earlier minute's; in one minute nothing before a lower id's; and
      of one schedule no OFF before an ON. */
  predicate InApplyOrder(due: seq<Occurrence>) {
    forall i, j :: 0 <= i < j < |due| ==>
      var a, b := due[i], due[j];
      && a.date * 1440 + a.minute <= b.date * 1440 + b.minute
      && (a.date * 1440 + a.minute == b.date * 1440 + b.minute ==>
           a.id <= b.id && (a.id == b.id && b.on ==> a.on))
  }

  method SortDue(due: seq<Occurrence>) returns (sorted: seq<Occurrence>)
    ensures Permutation(due, sorted) && InApplyOrder(sorted)
  {
    sorted := Sort(due, DueBefore);
  }

  /** A schedule and the zone of its device; a zone that cannot be read is none. */
  datatype Zoned = Zoned(s: Schedule, zone: Option<int -> int>)

  ghost predicate OccursIn(zoned: seq<Zoned>, o: Occurrence) {
    exists z :: z in zoned && OccursFor(z, o)
  }

  ghost predicate OccursFor(z: Zoned, o: Occurrence) {
    z.zone.Some? && Occurs(z.s, z.zone.value, o)
  }

  /** The zone's changes are far apart, and small around the window. */
  ghost predicate QuietZone(off: int -> int, from: int, to: int) {
    TameZone(off) && exists at, before, after :: CalmZone(off, from, to, at, before, after)
  }

  ghost predicate QuietZones(zoned: seq<Zoned>, from: int, to: int) {
    forall z :: z in zoned ==> RealSchedule(z.s) && (z.zone.Some? ==> QuietZone(z.zone.value, from, to))
  }

  ghost predicate DueOf(zoned: seq<Zoned>, excluded: (int, int) -> bool, from: int, to: int, o: Occurrence) {
    InWindow(o, from, to) && !excluded(o.id, o.date) && OccursIn(zoned, o)
  }

  /** dueOccurrences, exclusions honoured, in apply order: every promised occurrence of the
      window that no exclusion covers, exactly once; a schedule whose zone cannot be read is
      passed over. */
  method DueOccurrences(zoned: seq<Zoned>, excluded: (int, int) -> bool, from: int, to: int)
        returns (due: seq<Occurrence>)
    requires QuietZones(zoned, from, to) && to - from <= 23 * 60
    requires forall i, j :: 0 <= i < j < |zoned| ==> zoned[i].s.id != zoned[j].s.id
    ensures forall o :: o in due <==> DueOf(zoned, excluded, from, to, o)
    ensures Distinct(due) && InApplyOrder(due)
  {
    var out := [];
    for i := 0 to |zoned|
      invariant Distinct(out) && forall o :: o in out <==> DueOf(zoned[..i], excluded, from, to, o)
    {
      assert zoned[i] in zoned;
      var more := ScheduleOccurrences(zoned[i], excluded, from, to);
      assert zoned[..i + 1] == zoned[..i] + [zoned[i]];
      assert forall o :: o in out ==> o !in more;
      DistinctConcat(out, more);
      out := out + more;
    }
    assert zoned[..|zoned|] == zoned;
    due := SortDue(out);
    StaysDistinct(out, due);
    SameMembers(out, due);
  }

  method ScheduleOccurrences(z: Zoned, excluded: (int, int) -> bool, from: int, to: int) returns (kept: seq<Occurrence>)
    requires RealSchedule(z.s) && (z.zone.Some? ==> QuietZone(z.zone.value, from, to)) && to - from <= 23 * 60
    ensures Distinct(kept)
    ensures forall o :: o in kept <==> InWindow(o, from, to) && !excluded(o.id, o.date) && OccursFor(z, o)
  {
    if z.zone.None? {
      return [];
    }
    var occs := OccurrencesInWindow(z.s, z.zone.value, from, to);
    ghost var at, before, after :| CalmZone(z.zone.value, from, to, at, before, after);
    forall o
      ensures o in occs <==> Occurs(z.s, z.zone.value, o) && InWindow(o, from, to)
    {
      if Occurs(z.s, z.zone.value, o) && InWindow(o, from, to) {
        CandidatesMissNone(z.s, z.zone.value, from, to, at, before, after, o);
      }
    }
    kept := Honoured(occs, excluded);
  }

  method Honoured(occs: seq<Occurrence>, excluded: (int, int) -> bool) returns (kept: seq<Occurrence>)
    requires Distinct(occs)
    ensures Distinct(kept) && forall o :: o in kept <==> o in occs && !excluded(o.id, o.date)
  {
    kept := [];
    for i := 0 to |occs|
      invariant Distinct(kept) && forall o :: o in kept <==> o in occs[..i] && !excluded(o.id, o.date)
    {
      assert occs[..i + 1] == occs[..i] + [occs[i]];
      assert occs[i] !in occs[..i];
      if !excluded(occs[i].id, occs[i].date) {
        kept := kept + [occs[i]];
      }
    }
    assert occs[..|occs|] == occs;
  }
}
