/** Per-schedule exclusions (src/services/holidays.js): the legacy single exclusion of a
    row and its list of items, and the split into weekday and dated parts that the
    Shelly compiler relies on. */
module Exclusions {
  import opened Common
  import opened Civil

  /** A way of counting years: the year a date lies in, and the anniversary of a date in a
      given year. */
  datatype Reckoning = Reckoning(yearOf: Date -> int, anniversary: (Date, int) -> Date)

  /** What the code asks of the Hebrew calendar: the holiday keys of a date, and its years. */
  datatype Almanac = Almanac(dayKeys: Date -> set<string>, hebrew: Reckoning)

  /** One exclusion. Holiday keys are already parsed to their base days. */
  datatype Item =
    | WeekdayItem(days: set<int>)
    | HolidayItem(bases: set<string>)
    | RangeItem(once: bool, hebrew: bool, date: Option<Date>, end: Option<Date>)

  datatype Exclusion = Exclusion(legacy: Option<Item>, list: seq<Item>)

  /** A civil anniversary; 29 February clamps. */
  function CivilAnniversary(src: Date, y: int): Date {
    Date(y, src.mo, if src.d <= DaysInMonth(y, src.mo) then src.d else DaysInMonth(y, src.mo))
  }

  const CIVIL := Reckoning((a: Date) => a.y, (src: Date, y: int) => CivilAnniversary(src, y))

  function ReckoningOf(alm: Almanac, hebrew: bool): Reckoning {
    if hebrew then alm.hebrew else CIVIL
  }

  /** yearlyOccurrence: the anniversary in the year of `around` plus an offset. */
  function YearlyOccurrence(alm: Almanac, src: Date, hebrew: bool, offset: int, around: Date): Date {
    var r := ReckoningOf(alm, hebrew);
    r.anniversary(src, r.yearOf(around) + offset)
  }

  /** One {on, off} pair of yearlyRangesAround; an end before its start wraps a year on. */
  function YearlyRange(alm: Almanac, src: Date, end: Date, hebrew: bool, offset: int, around: Date): (Date, Date) {
    var on := YearlyOccurrence(alm, src, hebrew, offset, around);
    var off := YearlyOccurrence(alm, end, hebrew, offset, around);
    (on, if Before(off, on) then YearlyOccurrence(alm, end, hebrew, offset + 1, around) else off)
  }

  predicate Within(date: Date, range: (Date, Date)) {
    AtMost(range.0, date) && AtMost(date, range.1)
  }

  predicate InDateRange(alm: Almanac, once: bool, hebrew: bool, date: Option<Date>, end: Option<Date>, tested: Date) {
    date.Some? &&
    var last := if end.Some? then end.value else date.value;
    if once then Within(tested, (date.value, last))
    else InYearlyRange(alm, date.value, last, hebrew, tested)
  }

  predicate InYearlyRange(alm: Almanac, src: Date, end: Date, hebrew: bool, tested: Date) {
    exists i :: -1 <= i < 2 && Within(tested, YearlyRange(alm, src, end, hebrew, i, tested))
  }

  /** A selected day or its eve. */
  predicate InHolidayBlock(alm: Almanac, bases: set<string>, tested: Date) {
    alm.dayKeys(tested) * bases != {} || alm.dayKeys(Shift(tested, 1)) * bases != {}
  }

  predicate InItem(alm: Almanac, x: Item, tested: Date) {
    match x
    case WeekdayItem(days) => Dow(tested) in days
    case HolidayItem(bases) => InHolidayBlock(alm, bases, tested)
    case RangeItem(once, hebrew, date, end) => InDateRange(alm, once, hebrew, date, end, tested)
  }

  /** inExclusionRange: the row is silent on this local date. */
  predicate InExclusion(alm: Almanac, x: Exclusion, tested: Date) {
    || (x.legacy.Some? && InItem(alm, x.legacy.value, tested))
    || exists k :: 0 <= k < |x.list| && InItem(alm, x.list[k], tested)
  }

  /** exclWeeklyDays */
  function WeekdaysOf(items: seq<Item>): (days: set<int>)
    ensures forall w :: w in days <==> exists k :: 0 <= k < |items| && items[k].WeekdayItem? && w in items[k].days
  {
    if items == [] then {}
    else
      var days := WeekdaysOf(items[1..]) + if items[0].WeekdayItem? then items[0].days else {};
      assert forall k :: 0 < k < |items| ==> items[k] == items[1..][k - 1];
      days
  }

  function WeeklyDays(x: Exclusion): set<int> {
    (if x.legacy.Some? && x.legacy.value.WeekdayItem? then x.legacy.value.days else {}) + WeekdaysOf(x.list)
  }

  function DatedItems(items: seq<Item>): (dated: seq<Item>)
    ensures forall y :: y in dated <==> y in items && !y.WeekdayItem?
  {
    if items == [] then [] else (if items[0].WeekdayItem? then [] else [items[0]]) + DatedItems(items[1..])
  }

  /** withoutWeeklyExcl */
  function WithoutWeekly(x: Exclusion): Exclusion {
    Exclusion(if x.legacy.Some? && x.legacy.value.WeekdayItem? then None else x.legacy, DatedItems(x.list))
  }

  predicate HasDated(x: Exclusion) {
    WithoutWeekly(x).legacy.Some? || WithoutWeekly(x).list != []
  }

  /** The split loses nothing: a date is excluded iff its weekday is dropped or the rest
      of the exclusion covers it. */
  lemma ExclusionSplits(alm: Almanac, x: Exclusion, tested: Date)
    ensures InExclusion(alm, x, tested)
       <==> Dow(tested) in WeeklyDays(x) || InExclusion(alm, WithoutWeekly(x), tested)
    ensures InExclusion(alm, WithoutWeekly(x), tested) ==> HasDated(x)
  {
    var dated := WithoutWeekly(x).list;
    if k :| 0 <= k < |x.list| && InItem(alm, x.list[k], tested) {
      if !x.list[k].WeekdayItem? {
        assert x.list[k] in dated;
        var j :| 0 <= j < |dated| && dated[j] == x.list[k];
      }
    }
    if j :| 0 <= j < |dated| && InItem(alm, dated[j], tested) {
      assert dated[j] in x.list;
      var k :| 0 <= k < |x.list| && x.list[k] == dated[j];
    }
  }

  /** What is left covers what the items of other kinds cover, and nothing is left exactly when
      there are none. */
  lemma StrippedCovers(alm: Almanac, x: Exclusion, tested: Date)
    ensures InExclusion(alm, WithoutWeekly(x), tested) <==>
      || (x.legacy.Some? && !x.legacy.value.WeekdayItem? && InItem(alm, x.legacy.value, tested))
      || exists item :: item in x.list && !item.WeekdayItem? && InItem(alm, item, tested)
    ensures HasDated(x) <==>
      (x.legacy.Some? && !x.legacy.value.WeekdayItem?) || exists item :: item in x.list && !item.WeekdayItem?
  {
    var dated := DatedItems(x.list);
    if item :| item in x.list && !item.WeekdayItem? && InItem(alm, item, tested) {
      assert item in dated;
      var k :| 0 <= k < |dated| && dated[k] == item;
    }
    if k :| 0 <= k < |dated| && InItem(alm, dated[k], tested) {
      assert dated[k] in dated;
    }
    if item :| item in x.list && !item.WeekdayItem? {
      assert item in dated;
    }
    if dated != [] {
      assert dated[0] in dated;
    }
  }

  /** An exclusion of one item without weekdays is dated altogether. */
  lemma OneDatedItem(item: Item)
    requires !item.WeekdayItem?
    ensures var x := Exclusion(None, [item]); WithoutWeekly(x) == x && WeeklyDays(x) == {}
  {
    assert [item][1..] == [];
    assert DatedItems([item]) == [item] + DatedItems([]);
    assert WeekdaysOf([item]) == {} by {
      assert forall w :: w !in WeekdaysOf([item]);
    }
  }
}
