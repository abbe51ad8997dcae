/** The schedule the ESP32 firmware holds and what it means (firmware/src/main.cpp): events
    against the local minute, and the state a relay should be in.

    A local minute counts from a Sunday midnight, so minute / 1440 is the day, day % 7 is
    tm_wday, and minute % 10080 is the minute of the week. The clock has no transitions. */
module FirmwareModel {

  const MIN_PER_WEEK := 10080
  const MIN_PER_DAY := 1440
  const MAX_CATCH_UP := 180
  const DEDUPE_SECONDS := 55

  /** WeeklyEvent (day 0 = daily, else 1..7 from Sunday) and OnceEvent (by local day). */
  datatype Event =
    | Weekly(sid: int, relay: int, day: int, minutes: int, on: bool)
    | Once(sid: int, relay: int, date: int, minutes: int, on: bool)

  predicate OnDay(e: Event, day: int)
    requires e.Weekly?
  {
    e.day == 0 || e.day == day
  }

  /** The event's own minute, in the reader's terms: time of day and weekday, or the date. */
  predicate Hits(e: Event, t: int) {
    match e
    case Weekly(_, _, _, minutes, _) => t % MIN_PER_DAY == minutes && OnDay(e, t / MIN_PER_DAY % 7 + 1)
    case Once(_, _, date, minutes, _) => t == date * MIN_PER_DAY + minutes
  }

  predicate RealEvent(e: Event) {
    0 <= e.minutes < MIN_PER_DAY && (e.Weekly? ==> 0 <= e.day <= 7) && (e.Once? ==> e.date > 0)
  }

  // ---- The firmware's modular arithmetic ----

  /** C's remainder takes the sign of the dividend. */
  function CMod(a: int, b: int): int
    requires b > 0
  {
    if a >= 0 then a % b else -((-a) % b)
  }

  /** It is what a division that truncates toward zero leaves. */
  lemma CModIsC(a: int, b: int) returns (q: int)
    requires b > 0
    ensures a == q * b + CMod(a, b) && -b < CMod(a, b) < b
    ensures (a >= 0 ==> CMod(a, b) >= 0) && (a <= 0 ==> CMod(a, b) <= 0)
  {
    q := if a >= 0 then a / b else -((-a) / b);
    if a < 0 {
      var n := -a;
      assert n == n / b * b + n % b;
      assert -(n / b) * b == -(n / b * b);
    }
  }

  /** ((x % MIN_PER_WEEK) + MIN_PER_WEEK) % MIN_PER_WEEK */
  function Wrap(x: int): int {
    CMod(CMod(x, MIN_PER_WEEK) + MIN_PER_WEEK, MIN_PER_WEEK)
  }

  lemma WrapIsModulo(x: int)
    ensures Wrap(x) == x % MIN_PER_WEEK
  {
    if x < 0 {
      assert -x == (-x) / MIN_PER_WEEK * MIN_PER_WEEK + (-x) % MIN_PER_WEEK;
    }
  }

  lemma MinuteOfWeek(t: int)
    ensures t % MIN_PER_WEEK == t / MIN_PER_DAY % 7 * MIN_PER_DAY + t % MIN_PER_DAY
  {
  }

  /** The minute of the week of weekday `day` (1..7) and a time of day. */
  function Mow(day: int, minutes: int): int {
    (day - 1) * MIN_PER_DAY + minutes
  }

  lemma HitsByMow(e: Event, t: int)
    requires e.Weekly? && RealEvent(e)
    ensures Hits(e, t) <==> exists day :: 1 <= day <= 7 && OnDay(e, day) && t % MIN_PER_WEEK == Mow(day, e.minutes)
  {
    MinuteOfWeek(t);
    var day := t / MIN_PER_DAY % 7 + 1;
    if Hits(e, t) {
      assert OnDay(e, day) && t % MIN_PER_WEEK == Mow(day, e.minutes);
    }
    if d :| 1 <= d <= 7 && OnDay(e, d) && t % MIN_PER_WEEK == Mow(d, e.minutes) {
      assert d == day;
    }
  }

  /** Cyclic distance from `from` to `to`, as a number of minutes ahead. */
  lemma Ahead(m: int, mow: int, ev: int, pos: int)
    requires mow == m % MIN_PER_WEEK && 0 <= ev < MIN_PER_WEEK
    ensures pos == Wrap(ev - mow) <==> 0 <= pos < MIN_PER_WEEK && (m + pos) % MIN_PER_WEEK == ev
  {
    WrapIsModulo(ev - mow);
  }

  // ---- Which events a tick finds due ----

  /** inWindow over the days of a weekly event, or the date test and inWindow of a once
      event: the event is `pos` minutes after the previous tick. `now` is the local minute. */
  predicate EntryDue(e: Event, prevMow: int, now: int, delta: int, pos: int) {
    1 <= pos <= delta &&
    match e
    case Weekly(_, _, _, minutes, _) =>
      exists day :: 1 <= day <= 7 && OnDay(e, day) && pos == Wrap(Mow(day, minutes) - prevMow)
    case Once(_, _, date, minutes, _) =>
      date == now / MIN_PER_DAY && pos == Wrap(Mow(now / MIN_PER_DAY % 7 + 1, minutes) - prevMow)
  }

  lemma DueOnDay(e: Event, m: int, pos: int, day: int)
    requires e.Weekly? && RealEvent(e) && 1 <= day <= 7 && OnDay(e, day)
    requires pos == Wrap(Mow(day, e.minutes) - m % MIN_PER_WEEK)
    ensures Hits(e, m + pos)
  {
    Ahead(m, m % MIN_PER_WEEK, Mow(day, e.minutes), pos);
    HitsByMow(e, m + pos);
    assert (m + pos) % MIN_PER_WEEK == Mow(day, e.minutes);
  }

  lemma PassingIsOnDay(e: Event, m: int, pos: int) returns (day: int)
    requires e.Weekly? && RealEvent(e) && 0 <= pos < MIN_PER_WEEK && Hits(e, m + pos)
    ensures 1 <= day <= 7 && OnDay(e, day) && pos == Wrap(Mow(day, e.minutes) - m % MIN_PER_WEEK)
  {
    HitsByMow(e, m + pos);
    day :| 1 <= day <= 7 && OnDay(e, day) && (m + pos) % MIN_PER_WEEK == Mow(day, e.minutes);
    Ahead(m, m % MIN_PER_WEEK, Mow(day, e.minutes), pos);
  }

  lemma WeeklyDueMeansPassing(e: Event, m: int, now: int, pos: int)
    requires e.Weekly? && RealEvent(e) && 0 < now - m <= MAX_CATCH_UP
    ensures EntryDue(e, m % MIN_PER_WEEK, now, now - m, pos) <==> 1 <= pos <= now - m && Hits(e, m + pos)
  {
    if EntryDue(e, m % MIN_PER_WEEK, now, now - m, pos) {
      var day :| 1 <= day <= 7 && OnDay(e, day) && pos == Wrap(Mow(day, e.minutes) - m % MIN_PER_WEEK);
      DueOnDay(e, m, pos, day);
    }
    if 1 <= pos <= now - m && Hits(e, m + pos) {
      var day := PassingIsOnDay(e, m, pos);
    }
  }

  /** A once event is found only by a tick that runs on the event's own date. */
  lemma OnceDueMeansPassing(e: Event, m: int, now: int, pos: int)
    requires e.Once? && RealEvent(e) && 0 < now - m <= MAX_CATCH_UP
    ensures EntryDue(e, m % MIN_PER_WEEK, now, now - m, pos)
      <==> 1 <= pos <= now - m && Hits(e, m + pos) && e.date == now / MIN_PER_DAY
  {
    if e.date == now / MIN_PER_DAY {
      var t := e.date * MIN_PER_DAY + e.minutes;
      assert t / MIN_PER_DAY == e.date && t % MIN_PER_DAY == e.minutes;
      MinuteOfWeek(t);
      var ev := Mow(now / MIN_PER_DAY % 7 + 1, e.minutes);
      assert ev == t % MIN_PER_WEEK;
      Ahead(m, m % MIN_PER_WEEK, ev, pos);
      if 1 <= pos <= now - m && (m + pos) % MIN_PER_WEEK == t % MIN_PER_WEEK {
        CloseAndCongruent(m + pos, t);
      }
    }
  }

  lemma CloseAndCongruent(a: int, b: int)
    requires a % MIN_PER_WEEK == b % MIN_PER_WEEK && -MIN_PER_WEEK < a - b < MIN_PER_WEEK
    ensures a == b
  {
  }
}
