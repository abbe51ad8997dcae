/** A saved plan (src/services/schedules.js): its schedulers become single-action rows, and
    every dated scheduler becomes an exclusion on the rows of the weekly ones. */
module Plans {
  import opened Common
  import opened Civil
  import opened Exclusions
  import opened YearlySpans
  import opened Sorting
  import H = HolidayEvents

  datatype Timing = Clock(minute: int) | Anchored(anchor: string, offset: int)

  /** When a scheduler acts. Hebrew picks are already resolved to representative dates. */
  datatype When =
    | Weekly(daily: bool, days: set<int>)
    | Holiday(keys: seq<H.Key>)
    | Yearly(hebrew: bool, date: Date, end: Option<Date>)
    | Once(hebrew: bool, date: Date, end: Option<Date>)

  datatype Scheduler = Scheduler(off: bool, at: Timing, when: When)

  function Bases(keys: seq<H.Key>): set<string> {
    set key | key in keys :: key.base
  }

  function LastDay(date: Date, end: Option<Date>): Date {
    if end.Some? then end.value else date
  }

  // ---- Dated schedulers carve out the weekly rows ----

  /** schedulerMode: a dated scheduler replaces the weekly ones on its days. */
  function DerivedItem(w: When): Option<Item> {
    match w
    case Weekly(_, _) => None
    case Holiday(keys) => Some(HolidayItem(Bases(keys)))
    case Yearly(hebrew, date, end) => Some(RangeItem(false, hebrew, Some(date), Some(LastDay(date, end))))
    case Once(hebrew, date, _) => Some(RangeItem(true, hebrew, Some(date), Some(date)))
  }

  /** The dated schedulers, in order. */
  function DatedOf(schedulers: seq<Scheduler>): seq<When> {
    if schedulers == [] then []
    else
      var last := schedulers[|schedulers| - 1].when;
      DatedOf(schedulers[..|schedulers| - 1]) + (if last.Weekly? then [] else [last])
  }

  /** One item per dated scheduler, in the same order. */
  predicate IsDerived(items: seq<Item>, schedulers: seq<Scheduler>) {
    && |items| == |DatedOf(schedulers)|
    && forall k :: 0 <= k < |items| ==> DerivedItem(DatedOf(schedulers)[k]) == Some(items[k])
  }

  method DerivedExclusions(schedulers: seq<Scheduler>) returns (out: seq<Item>)
    ensures IsDerived(out, schedulers)
  {
    out := [];
    for i := 0 to |schedulers|
      invariant IsDerived(out, schedulers[..i])
    {
      assert schedulers[..i + 1][..i] == schedulers[..i];
      var item := DerivedItem(schedulers[i].when);
      if item.Some? {
        out := out + [item.value];
      }
    }
    assert schedulers[..|schedulers|] == schedulers;
  }

  lemma {:induction false} DatedMembers(schedulers: seq<Scheduler>)
    ensures forall w :: w in DatedOf(schedulers) <==> !w.Weekly? && exists s :: s in schedulers && s.when == w
  {
    if schedulers != [] {
      var front, last := schedulers[..|schedulers| - 1], schedulers[|schedulers| - 1];
      DatedMembers(front);
      assert schedulers == front + [last];
    }
  }

  lemma DerivedMembers(items: seq<Item>, schedulers: seq<Scheduler>)
    requires IsDerived(items, schedulers)
    ensures forall x :: x in items <==> exists s :: s in schedulers && DerivedItem(s.when) == Some(x)
  {
    DatedMembers(schedulers);
    var dated := DatedOf(schedulers);
    forall x
      ensures x in items <==> exists s :: s in schedulers && DerivedItem(s.when) == Some(x)
    {
      if x in items {
        var k :| 0 <= k < |items| && items[k] == x;
        assert dated[k] in dated;
      }
      if s :| s in schedulers && DerivedItem(s.when) == Some(x) {
        assert s.when in dated;
        var k :| 0 <= k < |dated| && dated[k] == s.when;
      }
    }
  }

  /** A Hebrew calendar the proofs can rely on. */
  ghost predicate RealAlmanac(alm: Almanac) {
    RealReckoning(alm.hebrew)
  }

  /** Dates of a scheduler are real ones. */
  predicate RealWhen(w: When) {
    match w
    case Weekly(_, _) => true
    case Holiday(_) => true
    case Yearly(_, date, end) => Valid(date) && Valid(LastDay(date, end))
    case Once(_, date, _) => Valid(date)
  }

  predicate RealSchedulers(schedulers: seq<Scheduler>) {
    forall s :: s in schedulers ==> RealWhen(s.when)
  }

  /** The dates a dated scheduler takes over: its one day, every day of its yearly span in
      any year, or each selected day and its eve. */
  ghost predicate Covers(alm: Almanac, w: When, date: Date) {
    match w
    case Weekly(_, _) => false
    case Holiday(keys) => exists key :: key in keys && OnDayOrEve(alm, key, date)
    case Yearly(hebrew, from, end) => InSpan(ReckoningOf(alm, hebrew), from, LastDay(from, end), date)
    case Once(_, day, _) => date == day
  }

  predicate OnDayOrEve(alm: Almanac, key: H.Key, date: Date) {
    key.base in alm.dayKeys(date) || key.base in alm.dayKeys(Shift(date, 1))
  }

  lemma DerivedCovers(alm: Almanac, w: When, date: Date)
    requires RealAlmanac(alm) && RealWhen(w) && Valid(date)
    ensures Covers(alm, w, date) <==> DerivedItem(w).Some? && InItem(alm, DerivedItem(w).value, date)
  {
    match w
    case Weekly(_, _) =>
    case Holiday(keys) =>
      HolidayCovers(alm, keys, date);
    case Yearly(hebrew, from, end) =>
      CivilIsReal();
      ThreeOffsetsDecide(alm, hebrew, from, LastDay(from, end), date);
    case Once(_, day, _) =>
  }

  lemma HolidayCovers(alm: Almanac, keys: seq<H.Key>, date: Date)
    ensures InHolidayBlock(alm, Bases(keys), date) <==> Covers(alm, Holiday(keys), date)
  {
    var today, tomorrow := alm.dayKeys(date), alm.dayKeys(Shift(date, 1));
    if x :| x in today * Bases(keys) {
      assert exists key :: key in keys && key.base == x;
    }
    if x :| x in tomorrow * Bases(keys) {
      assert exists key :: key in keys && key.base == x;
    }
    if key :| key in keys && OnDayOrEve(alm, key, date) {
      assert key.base in Bases(keys);
      assert key.base in today * Bases(keys) || key.base in tomorrow * Bases(keys);
    }
  }

  // ---- Rows ----

  datatype Kind =
    | WeeklyRow(day: Option<int>)
    | OnceRow(date: Date)
    | YearlyRow(hebrew: bool, date: Date, end: Date)
    | HolidayRow(keys: seq<H.Key>)

  datatype Row = Row(relay: int, off: bool, at: Timing, kind: Kind, exclusions: seq<Item>)

  datatype Result<T> = Ok(value: T) | Refused(why: string)

  /** One row per weekday of a weekly scheduler, one row for any other. */
  predicate Makes(w: When, kind: Kind) {
    match w
    case Weekly(daily, days) =>
      if daily then kind == WeeklyRow(None)
      else kind.WeeklyRow? && kind.day.Some? && kind.day.value in days && 1 <= kind.day.value <= 7
    case Holiday(keys) => kind == HolidayRow(keys)
    case Yearly(hebrew, date, end) => kind == YearlyRow(hebrew, date, LastDay(date, end))
    case Once(_, date, _) => kind == OnceRow(date)
  }

  predicate NoDaysPicked(w: When) {
    w.Weekly? && !w.daily && forall d :: 1 <= d <= 7 ==> d !in w.days
  }

  predicate RowOf(row: Row, relay: int, s: Scheduler, exclusions: seq<Item>) {
    row.relay == relay && row.off == s.off && row.at == s.at && row.exclusions == exclusions && Makes(s.when, row.kind)
  }

  predicate DaysAscend(rows: seq<Row>) {
    forall i, j :: 0 <= i < j < |rows| ==>
      rows[i].kind.WeeklyRow? && rows[j].kind.WeeklyRow? && rows[i].kind.day.Some? && rows[j].kind.day.Some?
      && rows[i].kind.day.value < rows[j].kind.day.value
  }

  /** schedulerRows: each row once, the weekdays in order. */
  method SchedulerRows(relay: int, s: Scheduler, exclusions: seq<Item>) returns (r: Result<seq<Row>>)
    ensures r.Refused? <==> NoDaysPicked(s.when)
    ensures r.Ok? ==> forall row :: row in r.value <==> RowOf(row, relay, s, exclusions)
    ensures r.Ok? ==> Distinct(r.value) && DaysAscend(r.value)
  {
    match s.when
    case Weekly(daily, days) =>
      if daily {
        return Ok([Row(relay, s.off, s.at, WeeklyRow(None), exclusions)]);
      }
      var rows: seq<Row> := [];
      for d := 1 to 8
        invariant forall row :: row in rows <==> RowOf(row, relay, s, exclusions) && row.kind.day.value < d
        invariant rows == [] <==> forall k :: 1 <= k < d ==> k !in days
        invariant DaysAscend(rows)
      {
        assert forall i :: 0 <= i < |rows| ==> rows[i] in rows;
        if d in days {
          rows := rows + [Row(relay, s.off, s.at, WeeklyRow(Some(d)), exclusions)];
        }
      }
      r := if rows == [] then Refused("pick at least one day") else Ok(rows);
    case Holiday(keys) =>
      r := Ok([Row(relay, s.off, s.at, HolidayRow(keys), exclusions)]);
    case Yearly(hebrew, date, end) =>
      r := Ok([Row(relay, s.off, s.at, YearlyRow(hebrew, date, LastDay(date, end)), exclusions)]);
    case Once(_, date, _) =>
      r := Ok([Row(relay, s.off, s.at, OnceRow(date), exclusions)]);
  }

  /** exclusionsFor: the user's list, plus what the dated schedulers carve out of a weekly one. */
  function ExclusionsFor(w: When, user: seq<Item>, derived: seq<Item>): seq<Item> {
    user + if w.Weekly? then derived else []
  }

  ghost predicate MadeBy(row: Row, s: Scheduler, user: seq<Item>, derived: seq<Item>) {
    RowOf(row, row.relay, s, ExclusionsFor(s.when, user, derived))
  }

  /** How many of the schedulers make this row. */
  ghost function Makers(schedulers: seq<Scheduler>, row: Row, user: seq<Item>, derived: seq<Item>): nat {
    if schedulers == [] then 0
    else
      var n := |schedulers| - 1;
      Makers(schedulers[..n], row, user, derived) + if MadeBy(row, schedulers[n], user, derived) then 1 else 0
  }

  lemma {:induction false} SomeMaker(schedulers: seq<Scheduler>, row: Row, user: seq<Item>, derived: seq<Item>)
    ensures Makers(schedulers, row, user, derived) > 0 <==> exists s :: s in schedulers && MadeBy(row, s, user, derived)
  {
    if schedulers != [] {
      var front, last := schedulers[..|schedulers| - 1], schedulers[|schedulers| - 1];
      SomeMaker(front, row, user, derived);
      assert schedulers == front + [last];
    }
  }

  /** Each row is there once for every scheduler that makes it, on every chosen relay. */
  ghost predicate RowsOf(rows: seq<Row>, relays: seq<int>, schedulers: seq<Scheduler>, user: seq<Item>,
        derived: seq<Item>) {
    forall row :: multiset(rows)[row] == if row.relay in relays then Makers(schedulers, row, user, derived) else 0
  }

  /** The rows a plan is saved as. */
  ghost predicate PlanOf(rows: seq<Row>, relays: seq<int>, schedulers: seq<Scheduler>, user: seq<Item>) {
    exists derived :: IsDerived(derived, schedulers) && RowsOf(rows, relays, schedulers, user, derived)
  }

  lemma CountOnce(rows: seq<Row>, row: Row)
    requires Distinct(rows)
    ensures multiset(rows)[row] == if row in rows then 1 else 0
  {
    DistinctByCount(rows);
  }

  /** What the rows of a plan must pass one by one: `owns` says of a relay that it is the user's,
      `accepts` of a row that its fields resolve and are valid. */
  datatype Checks = Checks(owns: int -> bool, accepts: Row -> bool)

  ghost predicate MakesBadRow(checks: Checks, relay: int, s: Scheduler, exclusions: seq<Item>) {
    exists row :: RowOf(row, relay, s, exclusions) && !checks.accepts(row)
  }

  /** The scheduler has no rows to insert, or one that is not accepted. */
  ghost predicate Fails(checks: Checks, relay: int, s: Scheduler, user: seq<Item>, derived: seq<Item>) {
    NoDaysPicked(s.when) || MakesBadRow(checks, relay, s, ExclusionsFor(s.when, user, derived))
  }

  ghost predicate RelayFails(checks: Checks, relay: int, schedulers: seq<Scheduler>, user: seq<Item>,
    derived: seq<Item>)
  {
    !checks.owns(relay) || exists s :: s in schedulers && Fails(checks, relay, s, user, derived)
  }

  /** Some relay of the plan cannot get its rows. */
  ghost predicate SomeRelayFails(checks: Checks, relays: seq<int>, schedulers: seq<Scheduler>, user: seq<Item>) {
    exists derived, relay :: IsDerived(derived, schedulers) && relay in relays
      && RelayFails(checks, relay, schedulers, user, derived)
  }

  lemma DerivedIsOne(a: seq<Item>, b: seq<Item>, schedulers: seq<Scheduler>)
    requires IsDerived(a, schedulers) && IsDerived(b, schedulers)
    ensures a == b
  {
    forall k | 0 <= k < |a|
      ensures a[k] == b[k]
    {
      assert Some(a[k]) == Some(b[k]);
    }
  }

  /** The insertion loops of savePlan, over distinct relays: one row that fails undoes them all. */
  method InsertRows(checks: Checks, relays: seq<int>, schedulers: seq<Scheduler>, user: seq<Item>)
        returns (r: Result<seq<Row>>)
    requires Distinct(relays)
    ensures r.Ok? ==> PlanOf(r.value, relays, schedulers, user) && forall row :: row in r.value ==> checks.accepts(row)
    ensures r.Refused? <==> SomeRelayFails(checks, relays, schedulers, user)
  {
    var derived := DerivedExclusions(schedulers);
    forall other | IsDerived(other, schedulers)
      ensures other == derived
    {
      DerivedIsOne(other, derived, schedulers);
    }
    var rows: seq<Row> := [];
    for i := 0 to |relays|
      invariant RowsOf(rows, relays[..i], schedulers, user, derived)
      invariant forall relay :: relay in relays[..i] ==> !RelayFails(checks, relay, schedulers, user, derived)
      invariant forall row :: row in rows ==> checks.accepts(row)
    {
      assert relays[..i + 1] == relays[..i] + [relays[i]];
      var more := RelayRows(checks, relays[i], schedulers, user, derived);
      if more.Refused? {
        return more;
      }
      MoreRelays(rows, more.value, relays, i, schedulers, user, derived);
      rows := rows + more.value;
    }
    assert relays[..|relays|] == relays;
    r := Ok(rows);
  }

  lemma MoreRelays(rows: seq<Row>, more: seq<Row>, relays: seq<int>, i: nat, schedulers: seq<Scheduler>,
        user: seq<Item>, derived: seq<Item>)
    requires i < |relays| && Distinct(relays)
    requires RowsOf(rows, relays[..i], schedulers, user, derived)
      && RowsOf(more, [relays[i]], schedulers, user, derived)
    ensures RowsOf(rows + more, relays[..i + 1], schedulers, user, derived)
  {
    assert relays[..i + 1] == relays[..i] + [relays[i]];
    assert relays[i] !in relays[..i];
  }

  method RelayRows(checks: Checks, relay: int, schedulers: seq<Scheduler>, user: seq<Item>, derived: seq<Item>)
        returns (r: Result<seq<Row>>)
    ensures r.Ok? ==> RowsOf(r.value, [relay], schedulers, user, derived)
    ensures r.Ok? ==> forall row :: row in r.value ==> checks.accepts(row)
    ensures r.Refused? <==> RelayFails(checks, relay, schedulers, user, derived)
  {
    if !checks.owns(relay) {
      return Refused("not found");
    }
    var rows: seq<Row> := [];
    for j := 0 to |schedulers|
      invariant RowsOf(rows, [relay], schedulers[..j], user, derived)
      invariant forall s :: s in schedulers[..j] ==> !Fails(checks, relay, s, user, derived)
      invariant forall row :: row in rows ==> checks.accepts(row)
    {
      assert schedulers[..j + 1] == schedulers[..j] + [schedulers[j]];
      var more := SchedulerRows(relay, schedulers[j], ExclusionsFor(schedulers[j].when, user, derived));
      if more.Refused? {
        assert Fails(checks, relay, schedulers[j], user, derived);
        return more;
      }
      for k := 0 to |more.value|
        invariant forall i :: 0 <= i < k ==> checks.accepts(more.value[i])
      {
        assert more.value[k] in more.value;
        if !checks.accepts(more.value[k]) {
          assert Fails(checks, relay, schedulers[j], user, derived);
          return Refused("invalid");
        }
      }
      MoreRows(rows, more.value, relay, schedulers, j, user, derived);
      rows := rows + more.value;
    }
    assert schedulers[..|schedulers|] == schedulers;
    r := Ok(rows);
  }

  lemma MoreRows(rows: seq<Row>, more: seq<Row>, relay: int, schedulers: seq<Scheduler>, j: nat, user: seq<Item>,
        derived: seq<Item>)
    requires j < |schedulers| && RowsOf(rows, [relay], schedulers[..j], user, derived)
    requires Distinct(more) && forall row :: row in more <==>
      RowOf(row, relay, schedulers[j], ExclusionsFor(schedulers[j].when, user, derived))
    ensures RowsOf(rows + more, [relay], schedulers[..j + 1], user, derived)
  {
    assert schedulers[..j + 1][..j] == schedulers[..j];
    forall row
      ensures multiset(rows + more)[row] == if row.relay in [relay]
        then Makers(schedulers[..j + 1], row, user, derived) else 0
    {
      CountOnce(more, row);
      assert multiset(rows + more)[row] == multiset(rows)[row] + multiset(more)[row];
    }
  }

  // ---- The compilation is exact ----

  predicate Silent(alm: Almanac, row: Row, date: Date) {
    InExclusion(alm, Exclusion(None, row.exclusions), date)
  }

  ghost predicate UserExcludes(alm: Almanac, user: seq<Item>, date: Date) {
    exists x :: x in user && InItem(alm, x, date)
  }

  /** A weekly row is silent on a date exactly when the user excluded it or a dated scheduler
      of the plan has it; a dated row is silent exactly when the user excluded the date. */
  lemma PlanIsExact(rows: seq<Row>, relays: seq<int>, schedulers: seq<Scheduler>, user: seq<Item>, row: Row,
        alm: Almanac, date: Date)
    requires PlanOf(rows, relays, schedulers, user) && row in rows
    requires RealAlmanac(alm) && RealSchedulers(schedulers) && Valid(date)
    ensures row.kind.WeeklyRow? ==>
      (Silent(alm, row, date) <==> UserExcludes(alm, user, date) || Replaced(alm, schedulers, date))
    ensures !row.kind.WeeklyRow? ==> (Silent(alm, row, date) <==> UserExcludes(alm, user, date))
  {
    var derived, s := RowMaker(rows, relays, schedulers, user, row);
    SilentByMember(alm, row, date);
    DerivedReplaces(alm, schedulers, derived, date);
  }

  /** Every row of a plan has a scheduler that makes it. */
  lemma RowMaker(rows: seq<Row>, relays: seq<int>, schedulers: seq<Scheduler>, user: seq<Item>, row: Row)
      returns (derived: seq<Item>, s: Scheduler)
    requires PlanOf(rows, relays, schedulers, user) && row in rows
    ensures IsDerived(derived, schedulers) && row.relay in relays && s in schedulers && MadeBy(row, s, user, derived)
  {
    derived :| IsDerived(derived, schedulers) && RowsOf(rows, relays, schedulers, user, derived);
    SomeMaker(schedulers, row, user, derived);
    assert row in multiset(rows);
    assert Makers(schedulers, row, user, derived) > 0;
    s :| s in schedulers && MadeBy(row, s, user, derived);
  }

  ghost predicate Replaced(alm: Almanac, schedulers: seq<Scheduler>, date: Date) {
    exists s :: s in schedulers && Covers(alm, s.when, date)
  }

  lemma SilentByMember(alm: Almanac, row: Row, date: Date)
    ensures Silent(alm, row, date) <==> UserExcludes(alm, row.exclusions, date)
  {
    if x :| x in row.exclusions && InItem(alm, x, date) {
      var k :| 0 <= k < |row.exclusions| && row.exclusions[k] == x;
    }
  }

  lemma DerivedReplaces(alm: Almanac, schedulers: seq<Scheduler>, derived: seq<Item>, date: Date)
    requires IsDerived(derived, schedulers) && RealAlmanac(alm) && RealSchedulers(schedulers) && Valid(date)
    ensures UserExcludes(alm, derived, date) <==> Replaced(alm, schedulers, date)
  {
    DerivedMembers(derived, schedulers);
    if x :| x in derived && InItem(alm, x, date) {
      var s :| s in schedulers && DerivedItem(s.when) == Some(x);
      DerivedCovers(alm, s.when, date);
    }
    if s :| s in schedulers && Covers(alm, s.when, date) {
      DerivedCovers(alm, s.when, date);
      assert DerivedItem(s.when).value in derived;
    }
  }

  // ---- A holiday scheduler's events against the days it takes over ----

  /** One almanac, seen by date and by day number. */
  ghost predicate SameDays(alm: Almanac, sky: H.Sky) {
    forall d :: Valid(d) ==> alm.dayKeys(d) == sky.dayKeys(DayNumber(d))
  }

  predicate MorningAfter(side: H.Side, key: H.Key) {
    key.Motzaei? && side.Clock? && side.minute < H.NOON
  }

  predicate AnySelected(sky: H.Sky, keys: seq<H.Key>, day: int) {
    exists key :: key in keys && H.Selected(sky, key, day)
  }

  /** The date a holiday event lands on is taken over from the weekly rows, except the
      morning after an exit, unless the day after that morning is selected too. */
  lemma HolidayEventReplaces(alm: Almanac, sky: H.Sky, side: H.Side, keys: seq<H.Key>, key: H.Key, day: int, date: Date)
    requires SameDays(alm, sky) && Valid(date) && key in keys && H.Selected(sky, key, day)
    requires H.SideEventOn(sky, side, key, day).Some?
      && H.SideEventOn(sky, side, key, day).value.date == DayNumber(date)
    ensures Covers(alm, Holiday(keys), date) <==> !MorningAfter(side, key) || AnySelected(sky, keys, day + 2)
  {
    var n := DayNumber(date);
    ShiftAddsDays(date, 1);
    assert alm.dayKeys(date) == sky.dayKeys(n) && alm.dayKeys(Shift(date, 1)) == sky.dayKeys(n + 1);
    if !MorningAfter(side, key) {
      assert n == day || n == day - 1;
    } else {
      assert n == day + 1 && sky.dayKeys(n) == {};
    }
  }

  const SHABBAT := H.Motzaei("shabbat")

  /** Such a morning exists: after an ordinary Shabbat, "01:00 on its exit" lands on a Sunday
      that the weekly rows still have. */
  lemma MorningAfterIsNotReplaced(alm: Almanac, sky: H.Sky, day: int, date: Date)
    requires SameDays(alm, sky) && Valid(date) && DayNumber(date) == day + 1
    requires sky.dayKeys(day) == {"shabbat"} && sky.dayKeys(day + 1) == {} && sky.dayKeys(day + 2) == {}
    ensures H.SideEventOn(sky, H.Clock(60), SHABBAT, day) == Some(H.Event(day + 1, 60))
    ensures H.Selected(sky, SHABBAT, day) && !Covers(alm, Holiday([SHABBAT]), date)
  {
    HolidayEventReplaces(alm, sky, H.Clock(60), [SHABBAT], SHABBAT, day, date);
  }
}
