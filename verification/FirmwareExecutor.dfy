/** The firmware's executor as it runs (firmware/src/main.cpp): globals updated in place by
    the boot pass, the tick and fireEvent. `clock` is time(nullptr) in local seconds. */
module FirmwareExecutor {
  import opened FirmwareModel
  import opened FirmwareTheory
  import opened Sorting

  const SANE_EPOCH := 1700000000
  const RELAY_SLOTS := 21

  /** boot: 0 = off, 1 = last_state, 2 = schedule */
  datatype RelayCfg = RelayCfg(present: bool, boot: int)

  // ---- Collecting the due events ----

  ghost predicate Found(entries: seq<Event>, prevMow: int, now: int, delta: int, d: DueEvt) {
    exists e :: e in entries && EntryDue(e, prevMow, now, delta, d.pos) && d == AsDue(e, d.pos)
  }

  lemma FoundMore(entries: seq<Event>, e: Event, prevMow: int, now: int, delta: int, d: DueEvt)
    ensures Found(entries + [e], prevMow, now, delta, d) <==>
      Found(entries, prevMow, now, delta, d) || (EntryDue(e, prevMow, now, delta, d.pos) && d == AsDue(e, d.pos))
  {
    assert forall x :: x in entries + [e] <==> x in entries || x == e;
  }

  predicate DayInWindow(minutes: int, prevMow: int, day: int, delta: int) {
    1 <= Wrap(Mow(day, minutes) - prevMow) <= delta
  }

  /** Two days of one weekly event are too far apart for one tick. */
  lemma OneDayAtMost(minutes: int, prevMow: int, day1: int, day2: int)
    requires 1 <= day1 < day2 <= 7
    ensures !DayInWindow(minutes, prevMow, day1, MAX_CATCH_UP) || !DayInWindow(minutes, prevMow, day2, MAX_CATCH_UP)
  {
    var x := Mow(day1, minutes) - prevMow;
    var y := Mow(day2, minutes) - prevMow;
    WrapIsModulo(x);
    WrapIsModulo(y);
    FarApart(x, y, day2 - day1);
  }

  lemma FarApart(x: int, y: int, days: int)
    requires y == x + days * MIN_PER_DAY && 1 <= days <= 6
    ensures !(1 <= x % MIN_PER_WEEK <= MAX_CATCH_UP) || !(1 <= y % MIN_PER_WEEK <= MAX_CATCH_UP)
  {
    var turns := y / MIN_PER_WEEK - x / MIN_PER_WEEK;
    assert y % MIN_PER_WEEK - x % MIN_PER_WEEK == days * MIN_PER_DAY - MIN_PER_WEEK * turns;
  }

  /** The loop over the days of one weekly event. */
  method DaysDue(e: Event, prevMow: int, now: int, delta: int) returns (found: seq<DueEvt>)
    requires e.Weekly? && delta <= MAX_CATCH_UP
    ensures |found| <= 1
    ensures forall d :: d in found <==> EntryDue(e, prevMow, now, delta, d.pos) && d == AsDue(e, d.pos)
  {
    found := [];
    ghost var hit := 0;
    for day := 1 to 8
      invariant 0 <= hit < day
      invariant hit == 0 ==> found == [] && forall k :: 1 <= k < day && OnDay(e, k) ==>
        !DayInWindow(e.minutes, prevMow, k, delta)
      invariant hit > 0 ==> OnDay(e, hit) && DayInWindow(e.minutes, prevMow, hit, delta)
      invariant hit > 0 ==> found == [AsDue(e, Wrap(Mow(hit, e.minutes) - prevMow))]
    {
      if OnDay(e, day) {
        var pos := Wrap(Mow(day, e.minutes) - prevMow);
        if 1 <= pos <= delta {
          if hit > 0 {
            OneDayAtMost(e.minutes, prevMow, hit, day);
          }
          found := found + [AsDue(e, pos)];
          hit := day;
        }
      }
    }
    if hit > 0 {
      forall k | 1 <= k <= 7 && OnDay(e, k) && DayInWindow(e.minutes, prevMow, k, delta)
        ensures k == hit
      {
        if k < hit { OneDayAtMost(e.minutes, prevMow, k, hit); }
        if hit < k { OneDayAtMost(e.minutes, prevMow, hit, k); }
      }
    }
  }

  /** The date test and the window of one once event. */
  method DateDue(o: Event, prevMow: int, now: int, delta: int) returns (found: seq<DueEvt>)
    requires o.Once?
    ensures |found| <= 1
    ensures forall d :: d in found <==> EntryDue(o, prevMow, now, delta, d.pos) && d == AsDue(o, d.pos)
  {
    found := [];
    if o.date == now / MIN_PER_DAY {
      var pos := Wrap(Mow(now / MIN_PER_DAY % 7 + 1, o.minutes) - prevMow);
      if 1 <= pos <= delta {
        found := [AsDue(o, pos)];
      }
    }
  }

  ghost predicate Collected(entries: seq<Event>, prevMow: int, now: int, delta: int, due: seq<DueEvt>) {
    DistinctDue(due) && forall d :: d in due <==> Found(entries, prevMow, now, delta, d)
  }

  lemma CollectOne(entries: seq<Event>, i: nat, prevMow: int, now: int, delta: int, due: seq<DueEvt>,
        found: seq<DueEvt>)
    requires DistinctKeys(entries) && i < |entries| && Collected(entries[..i], prevMow, now, delta, due)
    requires |found| <= 1
    requires forall d :: d in found <==>
      EntryDue(entries[i], prevMow, now, delta, d.pos) && d == AsDue(entries[i], d.pos)
    ensures Collected(entries[..i + 1], prevMow, now, delta, due + found)
  {
    var e := entries[i];
    assert entries[..i + 1] == entries[..i] + [e];
    forall d
      ensures d in due + found <==> Found(entries[..i + 1], prevMow, now, delta, d)
    {
      FoundMore(entries[..i], e, prevMow, now, delta, d);
    }
    if found != [] {
      assert found[0] in found;
      forall k | 0 <= k < |due|
        ensures FireKey(due[k].sid, due[k].on) != FireKey(found[0].sid, found[0].on)
      {
        assert due[k] in due;
        var f :| f in entries[..i] && EntryDue(f, prevMow, now, delta, due[k].pos) && due[k] == AsDue(f, due[k].pos);
        KeysAreInjective(f.sid, f.on, e.sid, e.on);
      }
    }
  }

  method CollectDue(weekly: seq<Event>, once: seq<Event>, prevMow: int, now: int, delta: int) returns (due: seq<DueEvt>)
    requires forall e :: e in weekly ==> e.Weekly?
    requires forall e :: e in once ==> e.Once?
    requires DistinctKeys(weekly + once) && delta <= MAX_CATCH_UP
    ensures Collected(weekly + once, prevMow, now, delta, due)
  {
    due := [];
    ghost var entries := weekly + once;
    for i := 0 to |weekly|
      invariant Collected(entries[..i], prevMow, now, delta, due)
    {
      var found := DaysDue(weekly[i], prevMow, now, delta);
      CollectOne(entries, i, prevMow, now, delta, due, found);
      due := due + found;
    }
    for i := 0 to |once|
      invariant Collected(entries[..|weekly| + i], prevMow, now, delta, due)
    {
      var found := DateDue(once[i], prevMow, now, delta);
      CollectOne(entries, |weekly| + i, prevMow, now, delta, due, found);
      due := due + found;
    }
    assert entries[..|entries|] == entries;
  }

  // ---- std::sort with the tick's comparator ----

  lemma KeysCompare(a: DueEvt, b: DueEvt)
    requires FireKey(a.sid, a.on) != FireKey(b.sid, b.on)
    ensures DueBefore(a, b) || DueBefore(b, a)
  {
    KeysAreInjective(a.sid, a.on, b.sid, b.on);
  }

  method SortDue(found: seq<DueEvt>) returns (due: seq<DueEvt>)
    requires DistinctDue(found)
    ensures DueSorted(due) && forall d :: d in due <==> d in found
  {
    due := Sort(found, DueBefore);
    StaysDistinct(found, due);
    forall i, j | 0 <= i < j < |due|
      ensures DueBefore(due[i], due[j])
    {
      assert due[i] in found && due[j] in found;
      var a :| 0 <= a < |found| && found[a] == due[i];
      var b :| 0 <= b < |found| && found[b] == due[j];
      assert a != b && !DueBefore(due[j], due[i]);
      KeysCompare(due[i], due[j]);
    }
  }

  // ---- Boot: the most recent occurrence of a weekly event ----

  /** weeklyLastOccurrence: how far back the event's latest minute lies. */
  method WeeklyLastOccurrence(e: Event, clock: int) returns (t: int, ghost minute: int)
    requires e.Weekly? && RealEvent(e)
    ensures t == clock - 60 * (clock / 60 - minute) && clock / 60 - MIN_PER_WEEK < minute <= clock / 60
    ensures Hits(e, minute) && forall u :: minute < u <= clock / 60 ==> !Hits(e, u)
    ensures t <= clock && Hits(e, t / 60) && forall u :: t / 60 < u <= clock / 60 ==> !Hits(e, u)
  {
    var now := clock / 60;
    var nowMow := now % MIN_PER_WEEK;
    var bestBack := MIN_PER_WEEK + 1;
    for day := 1 to 8
      invariant 0 <= bestBack <= MIN_PER_WEEK + 1
      invariant bestBack == MIN_PER_WEEK + 1 ==> forall k :: 1 <= k < day ==> !OnDay(e, k)
      invariant bestBack <= MIN_PER_WEEK ==> bestBack < MIN_PER_WEEK && Hits(e, now - bestBack)
      invariant forall k :: 1 <= k < day && OnDay(e, k) ==> bestBack <= Wrap(nowMow - Mow(k, e.minutes))
    {
      if OnDay(e, day) {
        var back := Wrap(nowMow - Mow(day, e.minutes));
        Behind(e, now, day);
        if back < bestBack {
          bestBack := back;
        }
      }
    }
    assert OnDay(e, if e.day == 0 then 1 else e.day);
    minute := now - bestBack;
    NoLaterMinute(e, now, bestBack);
    MinutesBack(clock, bestBack);
    t := clock - bestBack * 60;
  }

  lemma ModBack(now: int, v: int)
    requires 0 <= v < MIN_PER_WEEK
    ensures (now - (now % MIN_PER_WEEK - v) % MIN_PER_WEEK) % MIN_PER_WEEK == v
  {
    var q, d := now / MIN_PER_WEEK, now % MIN_PER_WEEK - v;
    assert now == MIN_PER_WEEK * q + d + v;
    if d >= 0 {
      assert d % MIN_PER_WEEK == d && now - d == MIN_PER_WEEK * q + v;
    } else {
      assert d % MIN_PER_WEEK == d + MIN_PER_WEEK && now - (d + MIN_PER_WEEK) == MIN_PER_WEEK * (q - 1) + v;
    }
  }

  lemma Behind(e: Event, now: int, day: int)
    requires e.Weekly? && RealEvent(e) && 1 <= day <= 7 && OnDay(e, day)
    ensures var back := Wrap(now % MIN_PER_WEEK - Mow(day, e.minutes));
      0 <= back < MIN_PER_WEEK && Hits(e, now - back)
  {
    var mow := Mow(day, e.minutes);
    WrapIsModulo(now % MIN_PER_WEEK - mow);
    ModBack(now, mow);
    HitsByMow(e, now - Wrap(now % MIN_PER_WEEK - mow));
  }

  /** The least distance behind over the event's days leaves no later minute. */
  lemma NoLaterMinute(e: Event, now: int, bestBack: int)
    requires e.Weekly? && RealEvent(e) && bestBack < MIN_PER_WEEK
    requires forall k :: 1 <= k <= 7 && OnDay(e, k) ==> bestBack <= Wrap(now % MIN_PER_WEEK - Mow(k, e.minutes))
    ensures forall u :: now - bestBack < u <= now ==> !Hits(e, u)
  {
    forall u | now - bestBack < u <= now
      ensures !Hits(e, u)
    {
      if Hits(e, u) {
        var day := HitIsBehind(e, now, u);
      }
    }
  }

  lemma MinutesBack(clock: int, back: int)
    ensures (clock - back * 60) / 60 == clock / 60 - back
  {
  }

  lemma RemainderOfDifference(a: int, b: int)
    requires 0 <= a - b < MIN_PER_WEEK
    ensures (a % MIN_PER_WEEK - b % MIN_PER_WEEK) % MIN_PER_WEEK == a - b
  {
    var turns := a / MIN_PER_WEEK - b / MIN_PER_WEEK;
    assert a % MIN_PER_WEEK - b % MIN_PER_WEEK == a - b - MIN_PER_WEEK * turns;
    assert turns == 0 || turns == 1;
  }

  lemma HitIsBehind(e: Event, now: int, u: int) returns (day: int)
    requires e.Weekly? && RealEvent(e) && Hits(e, u) && now - MIN_PER_WEEK < u <= now
    ensures 1 <= day <= 7 && OnDay(e, day) && Wrap(now % MIN_PER_WEEK - Mow(day, e.minutes)) == now - u
  {
    HitsByMow(e, u);
    RemainderOfDifference(now, u);
    day :| 1 <= day <= 7 && OnDay(e, day) && u % MIN_PER_WEEK == Mow(day, e.minutes);
    WrapIsModulo(now % MIN_PER_WEEK - Mow(day, e.minutes));
  }
}
