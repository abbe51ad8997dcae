/** Holiday schedules (src/services/holidays.js): the moment one side fires at for a selected
    day, all its moments in a range of dates, and the next one. Dates are day numbers. */
module HolidayEvents {
  import opened Common
  import opened Sorting

  const NOON := 720
  const SCAN_LIMIT := 800

  /** What the code asks of the Hebrew calendar and the sky of a region. */
  datatype Sky = Sky(dayKeys: int -> set<string>, sunset: int -> int)

  /** A selected day, or the evening after it. */
  datatype Key = Day(base: string) | Motzaei(base: string)

  /** When an anchor belongs to: the night that starts the day, the exit, or the daytime. */
  datatype Kind = Night | Exit | Daytime

  /** A side fires at a clock time, or at an anchored one that a date may not have. */
  datatype Side = Clock(minute: int) | Anchored(kind: Kind, resolve: int -> Option<int>)

  datatype Event = Event(date: int, minute: int)

  predicate Before(a: Event, b: Event) {
    a.date < b.date || (a.date == b.date && a.minute < b.minute)
  }

  predicate Protected(sky: Sky, date: int) {
    sky.dayKeys(date) != {}
  }

  /** sideEventOn: what a selected key whose day falls on date `day` makes the side do. */
  function SideEventOn(sky: Sky, side: Side, key: Key, day: int): Option<Event> {
    if key.Motzaei? && Protected(sky, day + 1) then None
    else
      match side
      case Clock(minute) =>
        if key.Motzaei? then Some(Event(if minute < NOON then day + 1 else day, minute))
        else Some(Event(if minute >= sky.sunset(day - 1) then day - 1 else day, minute))
      case Anchored(kind, resolve) =>
        var date := if key.Motzaei? || kind != Night then day else day - 1;
        if resolve(date).None? then None else Some(Event(date, resolve(date).value))
  }

  predicate Selected(sky: Sky, key: Key, day: int) {
    key.base in sky.dayKeys(day)
  }

  predicate Makes(sky: Sky, side: Side, keys: seq<Key>, day: int, e: Event) {
    exists key :: key in keys && Selected(sky, key, day) && SideEventOn(sky, side, key, day) == Some(e)
  }

  /** The side fires at this moment, whatever range one looks at. */
  ghost predicate Fires(sky: Sky, side: Side, keys: seq<Key>, e: Event) {
    exists day :: Makes(sky, side, keys, day, e)
  }

  /** An event lands at most one date away from its day. */
  lemma LandsNearby(sky: Sky, side: Side, keys: seq<Key>, day: int, e: Event)
    requires Makes(sky, side, keys, day, e)
    ensures day - 1 <= e.date <= day + 1
  {
  }

  predicate FromTo(first: Event, e: Event, last: Event) {
    !Before(e, first) && Before(e, last)
  }

  /** The order of moments is that of their minutes. */
  lemma BeforeByMinutes(a: Event, b: Event)
    requires 0 <= a.minute < 1440 && 0 <= b.minute < 1440
    ensures Before(a, b) <==> 1440 * a.date + a.minute < 1440 * b.date + b.minute
  {
  }

  /** A day begins at the sunset before it: a clock time of a selected day is the one moment of that
      time in the 24 hours from there. A clock time of an exit is the one in the 24 hours from noon
      of the day, and there is none when the exit runs into another holy day. */
  lemma ClockMoments(sky: Sky, minute: int, base: string, day: int, e: Event)
    requires 0 <= minute < 1440 && 0 <= sky.sunset(day - 1) < 1440
    ensures SideEventOn(sky, Clock(minute), Day(base), day) == Some(e) <==>
      e.minute == minute && FromTo(Event(day - 1, sky.sunset(day - 1)), e, Event(day, sky.sunset(day - 1)))
    ensures SideEventOn(sky, Clock(minute), Motzaei(base), day) == Some(e) <==>
      && sky.dayKeys(day + 1) == {}
      && e.minute == minute && FromTo(Event(day, 12 * 60), e, Event(day + 1, 12 * 60))
  {
  }

  /** An anchored time of a selected day is the evening before's for a night anchor and the day's own
      for any other; of an exit it is always the day's own. A date without that time has no event. */
  lemma AnchoredMoments(sky: Sky, side: Side, base: string, day: int)
    requires side.Anchored?
    ensures var date := if side.kind == Night then day - 1 else day;
      SideEventOn(sky, side, Day(base), day) ==
        if side.resolve(date).Some? then Some(Event(date, side.resolve(date).value)) else None
    ensures SideEventOn(sky, side, Motzaei(base), day) ==
      if sky.dayKeys(day + 1) == {} && side.resolve(day).Some? then Some(Event(day, side.resolve(day).value)) else None
  {
  }

  predicate Ascending(events: seq<Event>) {
    forall i, j :: 0 <= i < j < |events| ==> Before(events[i], events[j])
  }

  /** `events` is exactly the side's moments on the dates [from, to], in order. */
  ghost predicate Lists(sky: Sky, side: Side, keys: seq<Key>, from: int, to: int, events: seq<Event>) {
    Ascending(events) && forall e :: e in events <==> from <= e.date <= to && Fires(sky, side, keys, e)
  }

  lemma {:induction false} AscendingUnique(a: seq<Event>, b: seq<Event>)
    requires Ascending(a) && Ascending(b) && forall e :: e in a <==> e in b
    ensures a == b
  {
    assert a != [] ==> a[0] in b;
    assert b != [] ==> b[0] in a;
    if a != [] && b != [] {
      assert a[0] == b[0];
      forall e
        ensures e in a[1..] <==> e in b[1..]
      {
        assert e in a[1..] ==> e in b && e != a[0];
        assert e in b[1..] ==> e in a && e != b[0];
      }
      AscendingUnique(a[1..], b[1..]);
    }
  }

  function Between(events: seq<Event>, from: int, to: int): (r: seq<Event>)
    ensures forall e :: e in r <==> e in events && from <= e.date <= to
    ensures Ascending(events) ==> Ascending(r)
  {
    if events == [] then []
    else
      var rest := Between(events[1..], from, to);
      assert events == [events[0]] + events[1..];
      assert forall e :: e in rest ==> e in events[1..];
      if from <= events[0].date <= to then [events[0]] + rest else rest
  }

  /** Locality: looking at a shorter range shows the same events, cut to it. */
  lemma Locality(sky: Sky, side: Side, keys: seq<Key>, from: int, to: int, events: seq<Event>, f: int, t: int,
        cut: seq<Event>)
    requires Lists(sky, side, keys, from, to, events) && Lists(sky, side, keys, f, t, cut) && from <= f && t <= to
    ensures cut == Between(events, f, t)
  {
    AscendingUnique(cut, Between(events, f, t));
  }

  // ---- holidaySideEvents ----

  /** The moments the days scanned so far make inside the range. */
  ghost predicate Scanned(sky: Sky, side: Side, keys: seq<Key>, from: int, to: int, upTo: int, out: set<Event>) {
    forall e :: e in out <==>
      from <= e.date <= to && exists day :: from - 1 <= day < upTo && Makes(sky, side, keys, day, e)
  }

  /** The keys of one scanned day. */
  method DayEvents(sky: Sky, side: Side, keys: seq<Key>, day: int, from: int, to: int) returns (out: set<Event>)
    ensures forall e :: e in out <==> from <= e.date <= to && Makes(sky, side, keys, day, e)
  {
    out := {};
    for i := 0 to |keys|
      invariant forall e :: e in out <==> from <= e.date <= to && Makes(sky, side, keys[..i], day, e)
    {
      assert keys[..i + 1] == keys[..i] + [keys[i]];
      if Selected(sky, keys[i], day) {
        var ev := SideEventOn(sky, side, keys[i], day);
        if ev.Some? && from <= ev.value.date <= to {
          out := out + {ev.value};
        }
      }
    }
    assert keys[..|keys|] == keys;
  }

  lemma ScanDay(sky: Sky, side: Side, keys: seq<Key>, from: int, to: int, day: int, out: set<Event>, more: set<Event>)
    requires from - 1 <= day && Scanned(sky, side, keys, from, to, day, out)
    requires forall e :: e in more <==> from <= e.date <= to && Makes(sky, side, keys, day, e)
    ensures Scanned(sky, side, keys, from, to, day + 1, out + more)
  {
  }

  lemma ScanIsComplete(sky: Sky, side: Side, keys: seq<Key>, from: int, to: int, upTo: int, out: set<Event>)
    requires Scanned(sky, side, keys, from, to, upTo, out)
    ensures forall e :: e in out ==> from <= e.date <= to && Fires(sky, side, keys, e)
    ensures forall e: Event :: from <= e.date <= to && e.date + 1 < upTo && Fires(sky, side, keys, e) ==> e in out
  {
    forall e: Event | from <= e.date <= to && e.date + 1 < upTo && Fires(sky, side, keys, e)
      ensures e in out
    {
      var day :| Makes(sky, side, keys, day, e);
      LandsNearby(sky, side, keys, day, e);
    }
  }

  method SortEvents(found: set<Event>) returns (events: seq<Event>)
    ensures Ascending(events) && forall e :: e in events <==> e in found
  {
    var left := found;
    var s: seq<Event> := [];
    while left != {}
      invariant left <= found && (forall e :: e in s <==> e in found - left)
      invariant Distinct(s)
      decreases left
    {
      var e :| e in left;
      assert e !in s;
      s, left := s + [e], left - {e};
    }
    events := Sort(s, Before);
    StaysDistinct(s, events);
    forall i, j | 0 <= i < j < |events|
      ensures Before(events[i], events[j])
    {
      assert !Before(events[j], events[i]) && events[i] != events[j];
    }
  }

  /** Every event of one side on the dates [from, to]. The scan stops after 800 days, so only
      the first 798 dates of the range are sure to be complete. */
  method HolidaySideEvents(sky: Sky, side: Side, keys: seq<Key>, from: int, to: int) returns (events: seq<Event>)
    ensures Ascending(events)
    ensures forall e :: e in events ==> from <= e.date <= to && Fires(sky, side, keys, e)
    ensures forall e: Event ::
      from <= e.date <= to && e.date - from < SCAN_LIMIT - 2 && Fires(sky, side, keys, e) ==> e in events
    ensures to - from < SCAN_LIMIT - 2 ==> Lists(sky, side, keys, from, to, events)
  {
    var out: set<Event> := {};
    var d, i := from - 1, 0;
    while d <= to + 1 && i < SCAN_LIMIT
      invariant i == d - (from - 1) && 0 <= i
      invariant Scanned(sky, side, keys, from, to, d, out)
    {
      var more := DayEvents(sky, side, keys, d, from, to);
      ScanDay(sky, side, keys, from, to, d, out, more);
      out := out + more;
      d, i := d + 1, i + 1;
    }
    ScanIsComplete(sky, side, keys, from, to, d, out);
    events := SortEvents(out);
  }

  // ---- The next occurrence ----

  /** `e` is the side's first moment strictly after `now`. */
  ghost predicate IsNext(sky: Sky, side: Side, keys: seq<Key>, now: Event, e: Event) {
    && Fires(sky, side, keys, e) && Before(now, e)
    && forall f :: Fires(sky, side, keys, f) && Before(now, f) ==> !Before(f, e)
  }

  /** The side makes nothing after `now` for 400 dates. */
  ghost predicate SilentAhead(sky: Sky, side: Side, keys: seq<Key>, now: Event) {
    forall e: Event :: Fires(sky, side, keys, e) && Before(now, e) ==> e.date > now.date + 400
  }

  method FirstAfter(events: seq<Event>, now: Event) returns (next: Option<Event>)
    requires Ascending(events)
    ensures next.None? ==> forall e :: e in events ==> !Before(now, e)
    ensures next.Some? ==> next.value in events && Before(now, next.value)
    ensures next.Some? ==> forall e :: e in events && Before(now, e) ==> !Before(e, next.value)
  {
    for i := 0 to |events|
      invariant forall e :: e in events[..i] ==> !Before(now, e)
    {
      if Before(now, events[i]) {
        assert events == events[..i] + events[i..];
        return Some(events[i]);
      }
      assert events[..i + 1] == events[..i] + [events[i]];
    }
    assert events[..|events|] == events;
    next := None;
  }

  /** One side of resolveHolidaySchedule: the first moment after now among those from two
      dates ago to 400 dates ahead; none means the side stays silent all that time. */
  method ResolveSide(sky: Sky, side: Side, keys: seq<Key>, now: Event) returns (next: Option<Event>)
    ensures next.Some? ==> IsNext(sky, side, keys, now, next.value) && next.value.date <= now.date + 400
    ensures next.None? ==> SilentAhead(sky, side, keys, now)
  {
    var events := HolidaySideEvents(sky, side, keys, now.date - 2, now.date + 400);
    next := FirstAfter(events, now);
  }

  datatype Resolved = Failed(why: string) | Resolved(on: Option<Event>, off: Option<Event>)

  ghost predicate SideResolved(sky: Sky, side: Option<Side>, keys: seq<Key>, now: Event, next: Option<Event>) {
    if side.None? then next.None? else next.Some? && IsNext(sky, side.value, keys, now, next.value)
  }

  /** resolveHolidaySchedule: each present side gets its own next moment, or the schedule is
      refused. */
  method ResolveHolidaySchedule(sky: Sky, on: Option<Side>, off: Option<Side>, keys: seq<Key>, now: Event)
        returns (r: Resolved)
    ensures r.Resolved? ==> on.Some? || off.Some?
    ensures r.Resolved? ==> SideResolved(sky, on, keys, now, r.on) && SideResolved(sky, off, keys, now, r.off)
    ensures r.Failed? && on.Some? && off.None? ==> SilentAhead(sky, on.value, keys, now)
    ensures r.Failed? && on.None? && off.Some? ==> SilentAhead(sky, off.value, keys, now)
    ensures r.Failed? && on.Some? && off.Some?
      ==> SilentAhead(sky, on.value, keys, now) || SilentAhead(sky, off.value, keys, now)
  {
    if on.None? && off.None? {
      return Failed("holiday schedule needs an ON and/or OFF side");
    }
    var sides := [on, off];
    var next: seq<Option<Event>> := [];
    for i := 0 to 2
      invariant |next| == i && forall k :: 0 <= k < i ==> SideResolved(sky, sides[k], keys, now, next[k])
    {
      var e: Option<Event> := None;
      if sides[i].Some? {
        e := ResolveSide(sky, sides[i].value, keys, now);
        if e.None? {
          return Failed("no upcoming occurrence for the chosen holidays");
        }
      }
      next := next + [e];
    }
    r := Resolved(next[0], next[1]);
  }
}
