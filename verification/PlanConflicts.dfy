/** What keeps a plan from being saved (src/services/schedules.js): schedulers that contradict
    each other, exclusions that cancel what a scheduler was given, and plans without channels,
    schedulers or weekdays. */
module PlanConflicts {
  import opened Common
  import opened Civil
  import opened Exclusions
  import opened YearlySpans
  import opened Sorting
  import opened Plans
  import H = HolidayEvents

  // ---- Schedulers that contradict each other ----

  predicate SameMoment(a: Timing, b: Timing) {
    a == b
  }

  /** schedulerCollisions: the two schedulers share a day, as far as the code compares them. */
  predicate ShareADay(a: When, b: When) {
    if a.Weekly? && b.Weekly? then DaysOf(a) * DaysOf(b) != {}
    else if a.Holiday? && b.Holiday? then exists key :: key in a.keys && key in b.keys
    else if CivilDated(a) && CivilDated(b) then
      if a.Once? && b.Once? then AtMost(a.date, LastDay(b.date, b.end)) && AtMost(b.date, LastDay(a.date, a.end))
      else CyclicOverlap(MonthDay(a.date), MonthDay(LastDay(a.date, a.end)), MonthDay(b.date),
        MonthDay(LastDay(b.date, b.end)))
    else false
  }

  predicate CivilDated(w: When) {
    (w.Once? || w.Yearly?) && !w.hebrew
  }

  function DaysOf(w: When): set<int>
    requires w.Weekly?
  {
    if w.daily then {1, 2, 3, 4, 5, 6, 7} else w.days - {0}
  }

  predicate Collide(a: Scheduler, b: Scheduler) {
    a.off != b.off && SameMoment(a.at, b.at) && ShareADay(a.when, b.when)
  }

  /** Colliders are opposite actions at one clock time, or at one anchor and offset; schedulers of
      different kinds never collide, and Hebrew dates are left to the editor. */
  lemma CollidersAreAlike(a: Scheduler, b: Scheduler)
    requires Collide(a, b)
    ensures a.off == !b.off
    ensures match a.at
      case Clock(minute) => b.at.Clock? && b.at.minute == minute
      case Anchored(anchor, offset) => b.at.Anchored? && b.at.anchor == anchor && b.at.offset == offset
    ensures (a.when.Weekly? <==> b.when.Weekly?) && (a.when.Holiday? <==> b.when.Holiday?)
    ensures a.when.Once? || a.when.Yearly? ==> !a.when.hebrew && !b.when.hebrew
  {
  }

  method SchedulerCollisions(list: seq<Scheduler>) returns (out: seq<(nat, nat)>)
    ensures forall i: nat, j: nat :: (i, j) in out <==> i < j < |list| && Collide(list[i], list[j])
  {
    out := [];
    for i := 0 to |list|
      invariant forall a: nat, b: nat :: (a, b) in out <==> a < b < |list| && a < i && Collide(list[a], list[b])
    {
      for j := i + 1 to |list|
        invariant forall a: nat, b: nat ::
          (a, b) in out <==> a < b < |list| && (a < i || (a == i && b < j)) && Collide(list[a], list[b])
      {
        if Collide(list[i], list[j]) {
          out := out + [(i, j)];
        }
      }
    }
  }

  /** The days a scheduler acts on by itself. */
  ghost predicate ActsOn(w: When, date: Date) {
    match w
    case Weekly(daily, days) => daily || Dow(date) in days
    case Yearly(_, from, end) => InSpan(CIVIL, from, LastDay(from, end), date)
    case Once(_, day, _) => date == day
    case Holiday(_) => false
  }

  /** A weekly or civil scheduler as the editor makes it: a one-time one has no second date. */
  predicate Plain(w: When) {
    match w
    case Weekly(_, days) => forall d :: d in days ==> 1 <= d <= 7
    case Yearly(hebrew, date, end) => !hebrew && Valid(date) && Valid(LastDay(date, end))
    case Once(hebrew, date, end) => !hebrew && Valid(date) && LastDay(date, end) == date
    case Holiday(_) => false
  }

  ghost predicate ShareADate(a: When, b: When) {
    exists date :: Valid(date) && ActsOn(a, date) && ActsOn(b, date)
  }

  // ---- When the numbers decide ----

  function First(w: When): int
    requires w.Yearly? || w.Once?
  {
    MonthDay(w.date)
  }

  function Final(w: When): int
    requires w.Yearly? || w.Once?
  {
    MonthDay(LastDay(w.date, w.end))
  }

  /** Two yearly spans: the numbers overlap, or do not even with 29 February for the 28th. */
  predicate SpansDecide(a: When, b: When)
    requires a.Yearly? && b.Yearly?
  {
    || CyclicOverlap(First(a), Final(a), First(b), Final(b))
    || !CyclicOverlap(Clamped(First(a)), Clamped(Final(a)), Clamped(First(b)), Clamped(Final(b)))
  }

  /** A day against a span that starts on 29 February: the span begins on the 28th of a common
      year, and one that ends on the 28th comes round only after a leap year. */
  predicate DayDecides(day: Date, span: When)
    requires span.Yearly?
  {
    First(span) != LEAP_DAY ||
    if Final(span) == DAY_BEFORE then
      if Leap(day.y) then MonthDay(day) > DAY_BEFORE
      else MonthDay(day) == DAY_BEFORE || (Leap(day.y - 1) && MonthDay(day) < DAY_BEFORE)
    else Leap(day.y) || MonthDay(day) != DAY_BEFORE
  }

  predicate NumbersDecide(a: When, b: When) {
    if a.Yearly? && b.Yearly? then SpansDecide(a, b)
    else if a.Once? && b.Yearly? then DayDecides(a.date, b)
    else if a.Yearly? && b.Once? then DayDecides(b.date, a)
    else true
  }

  /** Two weekly schedulers, or two civil dated ones, share a day for the code exactly when
      there is a calendar date both act on, if and only if no 29 February end misleads it. */
  lemma CollisionMeansSharedDate(a: When, b: When)
    requires Plain(a) && Plain(b) && (a.Weekly? <==> b.Weekly?)
    ensures (ShareADay(a, b) <==> ShareADate(a, b)) <==> NumbersDecide(a, b)
  {
    if a.Weekly? {
      WeeklyMeet(a, b);
    } else if a.Yearly? && b.Yearly? {
      YearliesMeet(a, b);
    } else if a.Once? && b.Once? {
      assert ShareADay(a, b) ==> ActsOn(a, a.date) && ActsOn(b, a.date);
    } else if a.Once? {
      OnceAgainstYearly(a, b);
    } else {
      OnceAgainstYearly(b, a);
      OverlapIsSymmetric(First(a), Final(a), First(b), Final(b));
    }
  }

  lemma YearliesMeet(a: When, b: When)
    requires Plain(a) && Plain(b) && a.Yearly? && b.Yearly?
    ensures ShareADate(a, b) <==> ShareADay(a, b) || !SpansDecide(a, b)
  {
    var end1, end2 := LastDay(a.date, a.end), LastDay(b.date, b.end);
    OverlapIsExact(a.date, end1, b.date, end2);
    if date :| Valid(date) && InSpan(CIVIL, a.date, end1, date) && InSpan(CIVIL, b.date, end2, date) {
      assert ActsOn(a, date) && ActsOn(b, date);
    }
    if date :| Valid(date) && ActsOn(a, date) && ActsOn(b, date) {
      assert InSpan(CIVIL, a.date, end1, date) && InSpan(CIVIL, b.date, end2, date);
    }
  }

  lemma OverlapIsSymmetric(a1: int, a2: int, b1: int, b2: int)
    ensures CyclicOverlap(a1, a2, b1, b2) <==> CyclicOverlap(b1, b2, a1, a2)
  {
  }

  lemma OnceAgainstYearly(once: When, yearly: When)
    requires Plain(once) && Plain(yearly) && once.Once? && yearly.Yearly?
    ensures ShareADate(once, yearly) <==> ActsOn(yearly, once.date)
    ensures ShareADate(yearly, once) <==> ActsOn(yearly, once.date)
    ensures (CyclicOverlap(First(once), Final(once), First(yearly), Final(yearly)) <==> ActsOn(yearly, once.date))
      <==> DayDecides(once.date, yearly)
  {
    assert ActsOn(once, once.date);
    DayInNumbers(once.date, yearly);
  }

  lemma DayInNumbers(day: Date, yearly: When)
    requires Valid(day) && Plain(yearly) && yearly.Yearly?
    ensures (CyclicOverlap(MonthDay(day), MonthDay(day), First(yearly), Final(yearly)) <==> ActsOn(yearly, day))
      <==> DayDecides(day, yearly)
  {
    var s, e, m := First(yearly), Final(yearly), MonthDay(day);
    InSpanByMonthDay(yearly.date, LastDay(yearly.date, yearly.end), day);
    NumberOnTheYear(day);
    NumberOnTheYear(yearly.date);
    NumberOnTheYear(LastDay(yearly.date, yearly.end));
    OverlapAtAStart(m, m, s, e);
    NumbersAgree(m, s, e, day.y);
  }

  lemma NumberOnTheYear(a: Date)
    requires Valid(a)
    ensures OnTheYear(MonthDay(a)) && (MonthDay(a) == LEAP_DAY ==> Leap(a.y))
  {
  }

  lemma NumbersAgree(m: int, s: int, e: int, y: int)
    requires OnTheYear(m) && OnTheYear(s) && OnTheYear(e) && (m == LEAP_DAY ==> Leap(y))
    ensures (InCycle(m, s, e) <==> StartsBy(s, e, y, m) || WrapsTo(s, e, y - 1, m)) <==>
      (s != LEAP_DAY ||
       if e == DAY_BEFORE then (if Leap(y) then m > DAY_BEFORE else m == DAY_BEFORE || (Leap(y - 1) && m < DAY_BEFORE))
       else Leap(y) || m != DAY_BEFORE)
  {
  }

  lemma ActsOnItsDays(w: When, date: Date)
    requires w.Weekly? && Plain(w)
    ensures ActsOn(w, date) <==> Dow(date) in DaysOf(w)
  {
    var day := Dow(date);
    assert 1 <= day <= 7;
  }

  lemma ShareAWeekday(a: When, b: When, day: int)
    requires a.Weekly? && b.Weekly? && day in DaysOf(a) && day in DaysOf(b)
    ensures DaysOf(a) * DaysOf(b) != {}
  {
    assert day in DaysOf(a) * DaysOf(b);
  }

  lemma DaysAreWeekdays(w: When, day: int)
    requires w.Weekly? && Plain(w) && day in DaysOf(w)
    ensures 1 <= day <= 7
  {
  }

  lemma WeeklyMeet(a: When, b: When)
    requires Plain(a) && Plain(b) && a.Weekly? && b.Weekly?
    ensures DaysOf(a) * DaysOf(b) != {} <==> ShareADate(a, b)
  {
    if DaysOf(a) * DaysOf(b) != {} {
      var w := SomeElement(DaysOf(a) * DaysOf(b));
      DaysAreWeekdays(a, w);
      var date := SomeDateOn(w);
      ActsOnItsDays(a, date);
      ActsOnItsDays(b, date);
      assert ShareADate(a, b);
    }
    if ShareADate(a, b) {
      var date :| Valid(date) && ActsOn(a, date) && ActsOn(b, date);
      ActsOnItsDays(a, date);
      ActsOnItsDays(b, date);
      ShareAWeekday(a, b, Dow(date));
    }
  }

  lemma FirstWeek(d: int)
    requires 1 <= d <= 31
    ensures Valid(Date(1, 1, d)) && DayNumber(Date(1, 1, d)) == d
  {
    assert DaysBeforeYear(1) == 0 && DaysBeforeMonth(1, 1) == 0;
  }

  lemma WeekdayOf(w: int)
    requires 1 <= w <= 7
    ensures (if w == 1 then 7 else w - 1) % 7 + 1 == w
  {
  }

  /** The first week of the year 1 has every weekday. */
  function SomeDateOn(w: int): (date: Date)
    requires 1 <= w <= 7
    ensures Valid(date) && Dow(date) == w
  {
    var d := if w == 1 then 7 else w - 1;
    FirstWeek(d);
    WeekdayOf(w);
    Date(1, 1, d)
  }

  /** A second date on a one-time scheduler, which no other code reads, makes a collision of
      schedulers that act on different dates. */
  lemma StrayEndCollides()
    ensures var a, b := Once(false, Date(2025, 5, 1), Some(Date(2025, 5, 10))), Once(false, Date(2025, 5, 5), None);
      ShareADay(a, b) && !ShareADate(a, b)
  {
  }

  // ---- Holiday schedulers ----

  /** Two holiday schedulers of one timing fire at one moment. */
  ghost predicate ShareAMoment(sky: H.Sky, side: H.Side, a: seq<H.Key>, b: seq<H.Key>) {
    exists e :: H.Fires(sky, side, a, e) && H.Fires(sky, side, b, e)
  }

  // What a key's day makes of a side is one moment; two keys meet when theirs are the same.

  /** The key's day falls on `day` and the side has a moment for it. */
  predicate Comes(sky: H.Sky, side: H.Side, k: H.Key, day: int) {
    H.Selected(sky, k, day) && H.SideEventOn(sky, side, k, day).Some?
  }

  /** An anchored side looks at the evening before only for a day and a night anchor. */
  predicate AnchorHolds(side: H.Side, k: H.Key, day: int)
    requires side.Anchored?
  {
    side.resolve(if k.Day? && side.kind == H.Night then day - 1 else day).Some?
  }

  /** One date has both keys' days, no exit of it runs into another holy day, and the side treats
      a day and an exit alike: a clock time in the afternoon before the day's own evening, or an
      anchor that is no night one. */
  predicate MeetOn(sky: H.Sky, side: H.Side, k: H.Key, l: H.Key, day: int) {
    && H.Selected(sky, k, day) && H.Selected(sky, l, day)
    && (k.Motzaei? || l.Motzaei? ==> !H.Protected(sky, day + 1))
    && match side
       case Clock(minute) => k.Motzaei? == l.Motzaei? || H.NOON <= minute < sky.sunset(day - 1)
       case Anchored(kind, _) => (k.Motzaei? == l.Motzaei? || kind != H.Night) && AnchorHolds(side, k, day)
  }

  /** Two days in a row and a clock time in the minutes the sunset moved back from one evening to
      the next: of the first it is the day itself, of the second the evening before. */
  predicate Gap(sky: H.Sky, side: H.Side, k: H.Key, l: H.Key, day: int) {
    && k.Day? && l.Day? && H.Selected(sky, k, day) && H.Selected(sky, l, day + 1)
    && side.Clock? && sky.sunset(day) <= side.minute < sky.sunset(day - 1)
  }

  /** The almanac lets the two keys meet on this day. */
  predicate MayMeet(sky: H.Sky, side: H.Side, k: H.Key, l: H.Key, day: int) {
    MeetOn(sky, side, k, l, day) || Gap(sky, side, k, l, day) || Gap(sky, side, l, k, day)
  }

  ghost predicate AfternoonSunsets(sky: H.Sky) {
    forall day :: H.NOON <= sky.sunset(day)
  }

  /** The days `d` and `d'` give the two keys one moment. */
  predicate SameMomentOf(sky: H.Sky, side: H.Side, k: H.Key, d: int, l: H.Key, d': int) {
    Comes(sky, side, k, d) && Comes(sky, side, l, d')
    && H.SideEventOn(sky, side, k, d) == H.SideEventOn(sky, side, l, d')
  }

  /** Then they are one day, or a gap apart. */
  lemma MomentsMeet(sky: H.Sky, side: H.Side, k: H.Key, d: int, l: H.Key, d': int)
    requires AfternoonSunsets(sky) && SameMomentOf(sky, side, k, d, l, d')
    ensures (d == d' && MeetOn(sky, side, k, l, d)) || (d' == d + 1 && Gap(sky, side, k, l, d))
      || (d == d' + 1 && Gap(sky, side, l, k, d'))
  {
    assert H.NOON <= sky.sunset(d - 1) && H.NOON <= sky.sunset(d' - 1);
    assert H.Protected(sky, d) && H.Protected(sky, d');
  }

  lemma MeetingDay(sky: H.Sky, side: H.Side, k: H.Key, l: H.Key, day: int)
    requires AfternoonSunsets(sky) && MeetOn(sky, side, k, l, day)
    ensures SameMomentOf(sky, side, k, day, l, day)
  {
    assert H.NOON <= sky.sunset(day - 1);
  }

  lemma GapDay(sky: H.Sky, side: H.Side, k: H.Key, l: H.Key, day: int)
    requires Gap(sky, side, k, l, day)
    ensures SameMomentOf(sky, side, k, day, l, day + 1)
  {
  }

  ghost predicate SomeMeeting(sky: H.Sky, side: H.Side, k: H.Key, l: H.Key) {
    exists day :: MayMeet(sky, side, k, l, day)
  }

  /** Two holiday schedulers of one timing fire at one moment exactly when the almanac lets a key
      of one meet a key of the other. */
  lemma MomentsByAlmanac(sky: H.Sky, side: H.Side, a: seq<H.Key>, b: seq<H.Key>)
    requires AfternoonSunsets(sky)
    ensures ShareAMoment(sky, side, a, b) <==> exists k, l :: k in a && l in b && SomeMeeting(sky, side, k, l)
  {
    if e :| H.Fires(sky, side, a, e) && H.Fires(sky, side, b, e) {
      var k, d := MakerOf(sky, side, a, e);
      var l, d' := MakerOf(sky, side, b, e);
      MomentsMeet(sky, side, k, d, l, d');
      assert MayMeet(sky, side, k, l, d) || MayMeet(sky, side, k, l, d');
      assert SomeMeeting(sky, side, k, l);
    }
    if k, l :| k in a && l in b && SomeMeeting(sky, side, k, l) {
      var day :| MayMeet(sky, side, k, l, day);
      AlmanacMeeting(sky, side, a, b, k, l, day);
    }
  }

  lemma MakerOf(sky: H.Sky, side: H.Side, keys: seq<H.Key>, e: H.Event) returns (k: H.Key, day: int)
    requires H.Fires(sky, side, keys, e)
    ensures k in keys && Comes(sky, side, k, day) && H.SideEventOn(sky, side, k, day) == Some(e)
  {
    day :| H.Makes(sky, side, keys, day, e);
    k :| k in keys && H.Selected(sky, k, day) && H.SideEventOn(sky, side, k, day) == Some(e);
  }

  lemma AlmanacMeeting(sky: H.Sky, side: H.Side, a: seq<H.Key>, b: seq<H.Key>, k: H.Key, l: H.Key, day: int)
    requires AfternoonSunsets(sky) && k in a && l in b && MayMeet(sky, side, k, l, day)
    ensures ShareAMoment(sky, side, a, b)
  {
    if MeetOn(sky, side, k, l, day) {
      MeetingDay(sky, side, k, l, day);
      MomentIsShared(sky, side, a, b, k, day, l, day);
    } else if Gap(sky, side, k, l, day) {
      GapDay(sky, side, k, l, day);
      MomentIsShared(sky, side, a, b, k, day, l, day + 1);
    } else {
      GapDay(sky, side, l, k, day);
      MomentIsShared(sky, side, a, b, k, day + 1, l, day);
    }
  }

  lemma MomentIsShared(sky: H.Sky, side: H.Side, a: seq<H.Key>, b: seq<H.Key>, k: H.Key, d: int, l: H.Key, d': int)
    requires k in a && l in b && SameMomentOf(sky, side, k, d, l, d')
    ensures ShareAMoment(sky, side, a, b)
  {
    var e := H.SideEventOn(sky, side, k, d).value;
    assert H.Makes(sky, side, a, d, e) && H.Makes(sky, side, b, d', e);
    assert H.Fires(sky, side, a, e) && H.Fires(sky, side, b, e);
  }

  /** The code compares keys. When every key comes some day it reports no false collision of
      holiday schedulers; and it misses one exactly when none of their keys is shared and the
      almanac has a day on which two different ones meet, or a gap between two. */
  lemma HolidayCollisionIsExact(sky: H.Sky, side: H.Side, a: When, b: When)
    requires a.Holiday? && b.Holiday? && AfternoonSunsets(sky)
    requires forall k :: k in a.keys ==> exists day :: Comes(sky, side, k, day)
    ensures ShareADay(a, b) ==> ShareAMoment(sky, side, a.keys, b.keys)
    ensures !ShareADay(a, b) ==> (ShareAMoment(sky, side, a.keys, b.keys)
      <==> exists k, l :: k in a.keys && l in b.keys && k != l && SomeMeeting(sky, side, k, l))
  {
    MomentsByAlmanac(sky, side, a.keys, b.keys);
    if ShareADay(a, b) {
      var k :| k in a.keys && k in b.keys;
      var day :| Comes(sky, side, k, day);
      MomentIsShared(sky, side, a.keys, b.keys, k, day, k, day);
    }
  }

  /** Such a miss: a festival on Shabbat, one scheduler naming the festival and one the Shabbat. */
  lemma FestivalOnShabbatMissed(sky: H.Sky, minute: int, day: int, festival: string)
    requires festival in sky.dayKeys(day) && "shabbat" in sky.dayKeys(day) && festival != "shabbat"
    ensures var a, b := Holiday([H.Day(festival)]), Holiday([H.Day("shabbat")]);
      !ShareADay(a, b) && ShareAMoment(sky, H.Clock(minute), a.keys, b.keys)
  {
    var k, l := H.Day(festival), H.Day("shabbat");
    assert SameMomentOf(sky, H.Clock(minute), k, day, l, day);
    MomentIsShared(sky, H.Clock(minute), [k], [l], k, day, l, day);
  }

  /** And one of the other kind: the two days of a festival in a row, and a clock time that the
      sunset passed in between. */
  lemma FestivalDaysMissed(sky: H.Sky, minute: int, day: int, first: string, second: string)
    requires first in sky.dayKeys(day) && second in sky.dayKeys(day + 1) && first != second
    requires sky.sunset(day) <= minute < sky.sunset(day - 1)
    ensures var a, b := Holiday([H.Day(first)]), Holiday([H.Day(second)]);
      !ShareADay(a, b) && ShareAMoment(sky, H.Clock(minute), a.keys, b.keys)
  {
    var k, l := H.Day(first), H.Day(second);
    GapDay(sky, H.Clock(minute), k, l, day);
    MomentIsShared(sky, H.Clock(minute), [k], [l], k, day, l, day + 1);
  }

  // ---- Exclusions that cancel a scheduler ----

  /** An exclusion of the request; one flagged as derived rides along unchecked. */
  datatype UserItem =
    | NoWeekdays(derived: bool, days: set<int>)
    | NoHolidays(derived: bool, keys: seq<H.Key>)
    | NoDates(derived: bool, once: bool, hebrew: bool, date: Date, end: Option<Date>)

  function ItemOf(u: UserItem): Item {
    match u
    case NoWeekdays(_, days) => WeekdayItem(days)
    case NoHolidays(_, keys) => HolidayItem(Bases(keys))
    case NoDates(_, once, hebrew, date, end) => RangeItem(once, hebrew, Some(date), Some(LastDay(date, end)))
  }

  /** An entered exclusion means its weekdays, its holidays' days and eves, the days of its one-time
      range, or of its yearly one by the calendar it was entered in. */
  lemma ItemMeans(alm: Almanac, u: UserItem, n: int)
    ensures Means(alm, ItemOf(u), n) <==>
      match u
      case NoWeekdays(_, days) => n % 7 + 1 in days
      case NoHolidays(_, keys) => exists key, day ::
        key in keys && (HasNumber(day, n) || HasNumber(day, n + 1)) && key.base in alm.dayKeys(day)
      case NoDates(_, once, hebrew, date, end) =>
        var last := if end.Some? then end.value else date;
        if once then DayNumber(date) <= n <= DayNumber(last)
        else HeldInAYear(if hebrew then alm.hebrew else CIVIL, date, last, n)
  {
    match u
    case NoWeekdays(_, _) =>
    case NoHolidays(_, keys) =>
      forall base
        ensures base in Bases(keys) <==> exists key :: key in keys && key.base == base
      {
      }
      if key, day :| key in keys && (HasNumber(day, n) || HasNumber(day, n + 1)) && key.base in alm.dayKeys(day) {
        assert key.base in Bases(keys);
      }
    case NoDates(_, _, _, _, _) =>
  }

  function ItemsOf(user: seq<UserItem>): seq<Item> {
    seq(|user|, i requires 0 <= i < |user| => ItemOf(user[i]))
  }

  /** The exclusion cancels days the scheduler was explicitly given. */
  predicate Cancels(u: UserItem, w: When) {
    !u.derived &&
    match u
    case NoWeekdays(_, days) => (w.Weekly? && !w.daily && w.days * days != {})
      || (w.Once? && !w.hebrew && Dow(w.date) in days)
    case NoHolidays(_, keys) => w.Holiday? && exists key :: key in keys && key in w.keys
    case NoDates(_, _, _, _, _) => false
  }

  /** A weekday exclusion cancels a weekly scheduler with days of its own exactly when it covers a
      date that the scheduler has, and a civil one-time scheduler exactly when it covers its date;
      an everyday scheduler keeps its other days, and a flagged item is passed over. */
  lemma WeekdaysCancel(alm: Almanac, days: set<int>, w: When)
    requires Plain(w) && (w.Weekly? || w.Once?)
    ensures Cancels(NoWeekdays(false, days), w) <==>
      !(w.Weekly? && w.daily) && exists date :: Valid(date) && ActsOn(w, date) && InItem(alm, WeekdayItem(days), date)
    ensures !Cancels(NoWeekdays(true, days), w)
  {
    if w.Weekly? && !w.daily {
      if w.days * days != {} {
        var day := SomeElement(w.days * days);
        var date := SomeDateOn(day);
        assert Valid(date) && ActsOn(w, date) && InItem(alm, WeekdayItem(days), date);
      }
      if date :| Valid(date) && ActsOn(w, date) && InItem(alm, WeekdayItem(days), date) {
        assert Dow(date) in w.days * days;
      }
    } else if w.Once? {
      assert ActsOn(w, w.date);
    }
  }

  /** A holiday exclusion cancels exactly the holiday schedulers with which it shares a key; the
      days of that key are covered by it. */
  lemma HolidaysCancel(alm: Almanac, derived: bool, keys: seq<H.Key>, w: When)
    ensures Cancels(NoHolidays(derived, keys), w) <==>
      !derived && w.Holiday? && exists i, j :: 0 <= i < |keys| && 0 <= j < |w.keys| && keys[i] == w.keys[j]
    ensures forall key, date :: key in keys && key.base in alm.dayKeys(date) ==>
      InItem(alm, ItemOf(NoHolidays(derived, keys)), date)
  {
    if w.Holiday? {
      if key :| key in keys && key in w.keys {
        var i :| 0 <= i < |keys| && keys[i] == key;
        var j :| 0 <= j < |w.keys| && w.keys[j] == key;
      }
      if i, j :| 0 <= i < |keys| && 0 <= j < |w.keys| && keys[i] == w.keys[j] {
        assert keys[i] in keys && keys[i] in w.keys;
      }
    }
    forall key, date | key in keys && key.base in alm.dayKeys(date)
      ensures InItem(alm, ItemOf(NoHolidays(derived, keys)), date)
    {
      assert key.base in alm.dayKeys(date) * Bases(keys);
    }
  }

  /** A scheduler is refused for want of days exactly when it is a weekly one that would never
      act. */
  lemma NoDaysMeansNever(w: When)
    ensures NoDaysPicked(w) <==> w.Weekly? && forall date :: Valid(date) ==> !ActsOn(w, date)
  {
    if w.Weekly? {
      if w.daily {
        ActsSomeDate(w, 1);
      } else if d :| 1 <= d <= 7 && d in w.days {
        ActsSomeDate(w, d);
      }
      forall date | Valid(date) && ActsOn(w, date)
        ensures !NoDaysPicked(w)
      {
        var day := Dow(date);
        assert 1 <= day <= 7;
      }
    }
  }

  lemma ActsSomeDate(w: When, day: int)
    requires w.Weekly? && 1 <= day <= 7 && (w.daily || day in w.days)
    ensures exists date :: Valid(date) && ActsOn(w, date)
  {
    var date := SomeDateOn(day);
    assert ActsOn(w, date);
  }

  /** The rest of planConflicts: every pair of an exclusion and a scheduler it cancels. */
  method Cancellations(schedulers: seq<Scheduler>, user: seq<UserItem>) returns (out: seq<(nat, nat)>)
    ensures forall i: nat, j: nat ::
      (i, j) in out <==> i < |user| && j < |schedulers| && Cancels(user[i], schedulers[j].when)
  {
    out := [];
    for i := 0 to |user|
      invariant forall a: nat, b: nat ::
        (a, b) in out <==> a < i && b < |schedulers| && Cancels(user[a], schedulers[b].when)
    {
      for j := 0 to |schedulers|
        invariant forall a: nat, b: nat :: (a, b) in out <==>
          a < |user| && b < |schedulers| && (a < i || (a == i && b < j)) && Cancels(user[a], schedulers[b].when)
      {
        if Cancels(user[i], schedulers[j].when) {
          out := out + [(i, j)];
        }
      }
    }
  }

  // ---- savePlan ----

  const MAX_SCHEDULERS := 40

  predicate Colliding(schedulers: seq<Scheduler>) {
    exists i, j :: 0 <= i < j < |schedulers| && Collide(schedulers[i], schedulers[j])
  }

  predicate Cancelling(schedulers: seq<Scheduler>, user: seq<UserItem>) {
    exists i, j :: 0 <= i < |user| && 0 <= j < |schedulers| && Cancels(user[i], schedulers[j].when)
  }

  /** The channels of the request: positive ids, each once. */
  method ChooseRelays(ids: seq<int>) returns (relays: seq<int>)
    ensures Distinct(relays) && forall n :: n in relays <==> n in ids && n > 0
  {
    relays := [];
    for i := 0 to |ids|
      invariant Distinct(relays) && forall n :: n in relays <==> n in ids[..i] && n > 0
    {
      assert ids[..i + 1] == ids[..i] + [ids[i]];
      if ids[i] > 0 && ids[i] !in relays {
        relays := relays + [ids[i]];
      }
    }
    assert ids[..|ids|] == ids;
  }

  ghost predicate Refusable(checks: Checks, relays: seq<int>, schedulers: seq<Scheduler>, user: seq<UserItem>) {
    || relays == [] || schedulers == [] || |schedulers| > 40
    || Colliding(schedulers) || Cancelling(schedulers, user)
    || SomeRelayFails(checks, relays, schedulers, ItemsOf(user))
  }

  /** savePlan: refused exactly without channels or schedulers, with too many, with a conflict,
      or when a channel is not the user's or a scheduler fails to make its rows; otherwise the
      plan's rows, each as often as schedulers make it. */
  method SavePlan(checks: Checks, ids: seq<int>, schedulers: seq<Scheduler>, user: seq<UserItem>)
        returns (r: Result<seq<Row>>, relays: seq<int>)
    ensures Distinct(relays) && forall n :: n in relays <==> n in ids && n > 0
    ensures r.Refused? <==> Refusable(checks, relays, schedulers, user)
    ensures r.Ok? ==> PlanOf(r.value, relays, schedulers, ItemsOf(user))
    ensures r.Ok? ==> forall row :: row in r.value ==> checks.accepts(row)
  {
    relays := ChooseRelays(ids);
    if relays == [] {
      return Refused("pick at least one channel"), relays;
    }
    if schedulers == [] || |schedulers| > MAX_SCHEDULERS {
      return Refused("schedulers"), relays;
    }
    var collisions := SchedulerCollisions(schedulers);
    var cancelled := Cancellations(schedulers, user);
    ConflictsFound(schedulers, user, collisions, cancelled);
    if collisions != [] || cancelled != [] {
      return Refused("conflict"), relays;
    }
    r := InsertRows(checks, relays, schedulers, ItemsOf(user));
  }

  lemma ConflictsFound(schedulers: seq<Scheduler>, user: seq<UserItem>, collisions: seq<(nat, nat)>,
        cancelled: seq<(nat, nat)>)
    requires forall i: nat, j: nat ::
      (i, j) in collisions <==> i < j < |schedulers| && Collide(schedulers[i], schedulers[j])
    requires forall i: nat, j: nat :: (i, j) in cancelled <==>
      i < |user| && j < |schedulers| && Cancels(user[i], schedulers[j].when)
    ensures collisions != [] <==> Colliding(schedulers)
    ensures cancelled != [] <==> Cancelling(schedulers, user)
  {
    if collisions != [] {
      assert collisions[0] in collisions && collisions[0] == (collisions[0].0, collisions[0].1);
    }
    if cancelled != [] {
      assert cancelled[0] in cancelled && cancelled[0] == (cancelled[0].0, cancelled[0].1);
    }
    if i, j :| 0 <= i < j < |schedulers| && Collide(schedulers[i], schedulers[j]) {
      assert (i, j) in collisions;
    }
    if i, j :| 0 <= i < |user| && 0 <= j < |schedulers| && Cancels(user[i], schedulers[j].when) {
      assert (i, j) in cancelled;
    }
  }

  // ---- What a saved plan is free of ----

  predicate WeeklyOn(row: Row, date: Date) {
    row.kind.WeeklyRow? && (row.kind.day.None? || row.kind.day.value == Dow(date))
  }

  /** In a saved plan no channel has a weekly ON and a weekly OFF at one time on one date. */
  lemma NoWeeklyTies(rows: seq<Row>, relays: seq<int>, schedulers: seq<Scheduler>, user: seq<Item>, on: Row, off: Row,
        date: Date)
    requires PlanOf(rows, relays, schedulers, user) && !Colliding(schedulers)
    requires on in rows && off in rows && !on.off && off.off && WeeklyOn(on, date) && WeeklyOn(off, date)
    ensures on.at != off.at
  {
    var d1, s1 := RowMaker(rows, relays, schedulers, user, on);
    var d2, s2 := RowMaker(rows, relays, schedulers, user, off);
    MakerHasDay(s1, on, user, d1, date);
    MakerHasDay(s2, off, user, d2, date);
    ShareAWeekday(s1.when, s2.when, Dow(date));
    var i :| 0 <= i < |schedulers| && schedulers[i] == s1;
    var j :| 0 <= j < |schedulers| && schedulers[j] == s2;
    CollideBothWays(s1, s2);
    assert if i < j then !Collide(schedulers[i], schedulers[j]) else !Collide(schedulers[j], schedulers[i]);
  }

  /** Two weekly schedulers collide exactly when their rows tie: opposite actions at one time on a
      shared date. */
  lemma WeeklyCollisionIsATie(a: Scheduler, b: Scheduler)
    requires a.when.Weekly? && b.when.Weekly? && Plain(a.when) && Plain(b.when)
    ensures Collide(a, b) <==> a.off == !b.off && a.at == b.at && ShareADate(a.when, b.when)
  {
    WeeklyMeet(a.when, b.when);
  }

  lemma MakerHasDay(s: Scheduler, row: Row, user: seq<Item>, derived: seq<Item>, date: Date)
    requires MadeBy(row, s, user, derived) && WeeklyOn(row, date)
    ensures s.when.Weekly? && Dow(date) in DaysOf(s.when)
  {
    var day := Dow(date);
    assert 1 <= day <= 7;
    InDaysOf(s.when, day);
  }

  lemma InDaysOf(w: When, day: int)
    requires 1 <= day <= 7 && w.Weekly?
    ensures day in DaysOf(w) <==> w.daily || day in w.days
  {
  }

  lemma CollideBothWays(a: Scheduler, b: Scheduler)
    requires a.when.Weekly? && b.when.Weekly?
    ensures Collide(a, b) <==> Collide(b, a)
  {
    assert DaysOf(a.when) * DaysOf(b.when) == DaysOf(b.when) * DaysOf(a.when);
  }
}
