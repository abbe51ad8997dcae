/** Dead relays (src/monitor/dead-relay.js): since when each channel has been ON without flow,
    and the verdict that a whole unit stopped switching at one moment. */
module DeadRelay {
  import opened Common
  import opened Sorting

  const MIN_WATCHED := 2
  const DROP_WINDOW_MS := 90000

  /** One channel in one probe: on or off, its watts if the probe has them, and its amperes if the
      model measures current. */
  datatype Reading = Reading(ch: int, on: bool, apower: Option<real>, current: Option<real>)

  /** A probe reads some of the channels, each once. */
  datatype Probe = Probe(at: int, channels: seq<Reading>)

  predicate EachOnce(channels: seq<Reading>) {
    forall i, j :: 0 <= i < j < |channels| ==> channels[i].ch != channels[j].ch
  }

  const DEAD_A := 0.005
  const DEAD_W := 0.5
  const MIN_LEARNED_W := 15.0

  predicate Loaded(c: Reading) {
    c.on && c.apower.Some?
  }

  /** noFlow: judged on current where it is measured, on watts otherwise. */
  predicate NoFlow(c: Reading)
    requires c.apower.Some?
  {
    if c.current.Some? then c.current.value < DEAD_A else c.apower.value < DEAD_W
  }

  predicate Silent(c: Reading) {
    Loaded(c) && NoFlow(c)
  }

  /** Where current is measured, 5 milliamperes prove the contact closed, whatever the watts; where
      it is not, half a watt does. A channel that is off, or was not read, is not silent. */
  lemma SilentReadings(ch: int, watts: real, amps: real)
    ensures Silent(Reading(ch, true, Some(watts), Some(amps))) <==> amps < 0.005
    ensures Silent(Reading(ch, true, Some(watts), None)) <==> watts < 0.5
    ensures !Silent(Reading(ch, false, Some(watts), Some(amps))) && !Silent(Reading(ch, true, None, Some(amps)))
  {
  }

  /** The probe saw the channel ON without flow. */
  predicate SeenSilent(p: Probe, ch: int) {
    exists c :: c in p.channels && c.ch == ch && Silent(c)
  }

  datatype Change = Change(ch: int, since: Option<int>)

  function At(known: map<int, int>, ch: int): Option<int> {
    if ch in known then Some(known[ch]) else None
  }

  /** Writing the changes to the stored onsets, in order. */
  function Persisted(known: map<int, int>, changes: seq<Change>): map<int, int> {
    if changes == [] then known
    else
      var before := Persisted(known, changes[..|changes| - 1]);
      var c := changes[|changes| - 1];
      if c.since.None? then before - {c.ch} else before[c.ch := c.since.value]
  }

  /** What the onsets must be after a probe: a silent channel keeps its onset or begins one,
      any other channel, read or not, has none. */
  ghost predicate Tracked(known: map<int, int>, p: Probe, onsets: map<int, int>) {
    forall ch :: At(onsets, ch) ==
      if SeenSilent(p, ch) then (if ch in known then Some(known[ch]) else Some(p.at)) else None
  }

  lemma PersistOne(known: map<int, int>, changes: seq<Change>, c: Change)
    ensures Persisted(known, changes + [c]) ==
      if c.since.None? then Persisted(known, changes) - {c.ch} else Persisted(known, changes)[c.ch := c.since.value]
  {
    assert (changes + [c])[..|changes|] == changes;
  }

  predicate Read(channels: seq<Reading>, ch: int) {
    exists c :: c in channels && c.ch == ch
  }

  /** Half way: the channels read so far are settled, the others are as stored. */
  ghost predicate SettledSoFar(known: map<int, int>, p: Probe, n: nat, onsets: map<int, int>, stored: map<int, int>)
    requires n <= |p.channels|
  {
    var part := Probe(p.at, p.channels[..n]);
    && Tracked(known, part, onsets)
    && forall ch :: At(stored, ch) == if Read(part.channels, ch) then At(onsets, ch) else At(known, ch)
  }

  lemma SettleOne(known: map<int, int>, p: Probe, n: nat, onsets: map<int, int>, stored: map<int, int>,
        onsets': map<int, int>, stored': map<int, int>)
    requires n < |p.channels| && EachOnce(p.channels) && SettledSoFar(known, p, n, onsets, stored)
    requires var c := p.channels[n];
      var next := if Silent(c) then Some(if c.ch in known then known[c.ch] else p.at) else None;
      && onsets' == (if next.Some? then onsets[c.ch := next.value] else onsets)
      && stored' == (if next == At(known, c.ch) then stored
        else if next.Some? then stored[c.ch := next.value] else stored - {c.ch})
    ensures SettledSoFar(known, p, n + 1, onsets', stored')
  {
    var c := p.channels[n];
    var was, now := Probe(p.at, p.channels[..n]), Probe(p.at, p.channels[..n + 1]);
    assert now.channels == was.channels + [c];
    assert !Read(was.channels, c.ch);
    forall ch
      ensures SeenSilent(now, ch) <==> SeenSilent(was, ch) || (ch == c.ch && Silent(c))
      ensures Read(now.channels, ch) <==> Read(was.channels, ch) || ch == c.ch
    {
    }
    assert !SeenSilent(was, c.ch);
  }

  /** trackDeadOnsets: the new onsets, and changes that bring the stored ones to them. */
  method TrackDeadOnsets(known: map<int, int>, p: Probe) returns (onsets: map<int, int>, changes: seq<Change>)
    requires EachOnce(p.channels)
    ensures Tracked(known, p, onsets)
    ensures Persisted(known, changes) == onsets
  {
    onsets, changes := map[], [];
    for n := 0 to |p.channels|
      invariant SettledSoFar(known, p, n, onsets, Persisted(known, changes))
    {
      var c := p.channels[n];
      var prev := At(known, c.ch);
      var next := if Silent(c) then Some(if prev.Some? then prev.value else p.at) else None;
      ghost var onsets0, changes0 := onsets, changes;
      if next.Some? {
        onsets := onsets[c.ch := next.value];
      }
      if next != prev {
        PersistOne(known, changes, Change(c.ch, next));
        changes := changes + [Change(c.ch, next)];
      }
      SettleOne(known, p, n, onsets0, Persisted(known, changes0), onsets, Persisted(known, changes));
    }
    assert p.channels[..|p.channels|] == p.channels && Probe(p.at, p.channels) == p;
    var missing := set ch | ch in known && !Read(p.channels, ch);
    changes := ForgetUnread(known, onsets, changes, missing);
  }

  /** A channel that was not read is forgotten. */
  method ForgetUnread(known: map<int, int>, onsets: map<int, int>, changes0: seq<Change>, missing: set<int>)
        returns (changes: seq<Change>)
    requires forall ch :: At(Persisted(known, changes0), ch) == if ch in missing then At(known, ch) else At(onsets, ch)
    requires forall ch :: ch in missing ==> ch !in onsets
    ensures Persisted(known, changes) == onsets
  {
    changes := changes0;
    var left := missing;
    while left != {}
      invariant left <= missing
      invariant forall ch :: At(Persisted(known, changes), ch) == if ch in left then At(known, ch) else At(onsets, ch)
      decreases left
    {
      ghost var some := SomeElement(left);
      var ch :| ch in left;
      PersistOne(known, changes, Change(ch, None));
      changes := changes + [Change(ch, None)];
      left := left - {ch};
    }
    SameMap(Persisted(known, changes), onsets);
  }

  lemma SameMap(a: map<int, int>, b: map<int, int>)
    requires forall ch :: At(a, ch) == At(b, ch)
    ensures a == b
  {
    forall ch
      ensures ch in a <==> ch in b
      ensures ch in a && ch in b ==> a[ch] == b[ch]
    {
      assert At(a, ch) == At(b, ch);
    }
  }

  // ---- A whole history of probes ----

  /** `stored` are the onsets before each of the probes and after the last one. */
  ghost predicate TracksAll(probes: seq<Probe>, stored: seq<map<int, int>>) {
    && |stored| == |probes| + 1 && stored[0] == map[]
    && forall k :: 0 <= k < |probes| ==> Tracked(stored[k], probes[k], stored[k + 1])
  }

  /** The channel has been silent in every probe from index `i` on, and not in the one before. */
  ghost predicate RunBegins(probes: seq<Probe>, ch: int, i: nat) {
    && i < |probes| && (forall k :: i <= k < |probes| ==> SeenSilent(probes[k], ch))
    && (i > 0 ==> !SeenSilent(probes[i - 1], ch))
  }

  /** The channel's current unbroken run of silent probes began at time `t`. */
  ghost predicate SilentSince(probes: seq<Probe>, ch: int, t: int) {
    exists i: nat :: RunBegins(probes, ch, i) && probes[i].at == t
  }

  lemma RunIsUnique(probes: seq<Probe>, ch: int, i: nat, k: nat)
    requires RunBegins(probes, ch, i) && RunBegins(probes, ch, k)
    ensures i == k
  {
    assert k == 0 || k - 1 < i;
    assert i == 0 || i - 1 < k;
  }

  lemma RunGrows(probes: seq<Probe>, p: Probe, ch: int, i: nat)
    requires SeenSilent(p, ch)
    ensures i < |probes| ==> (RunBegins(probes + [p], ch, i) <==> RunBegins(probes, ch, i))
  {
    var more := probes + [p];
    assert forall k :: 0 <= k < |probes| ==> more[k] == probes[k];
    assert more[|probes|] == p;
  }

  lemma RunStartsHere(probes: seq<Probe>, p: Probe, ch: int)
    requires SeenSilent(p, ch)
    ensures RunBegins(probes + [p], ch, |probes|) <==> probes == [] || !SeenSilent(probes[|probes| - 1], ch)
  {
    assert (probes + [p])[|probes|] == p;
  }

  /** The stored onset of a channel is the time of the first probe of its current unbroken run
      of silent probes; a channel without such a run has none. */
  lemma {:induction false} OnsetIsRunStart(probes: seq<Probe>, stored: seq<map<int, int>>, ch: int)
    requires TracksAll(probes, stored)
    ensures ch in stored[|probes|] <==> probes != [] && SeenSilent(probes[|probes| - 1], ch)
    ensures ch in stored[|probes|] ==> SilentSince(probes, ch, stored[|probes|][ch])
    decreases |probes|
  {
    if probes != [] {
      var n := |probes| - 1;
      var front, last := probes[..n], probes[n];
      assert probes == front + [last];
      assert TracksAll(front, stored[..n + 1]);
      OnsetIsRunStart(front, stored[..n + 1], ch);
      assert Tracked(stored[n], last, stored[n + 1]);
      OnsetStep(front, last, stored[n], stored[n + 1], ch);
    }
  }

  lemma OnsetStep(front: seq<Probe>, last: Probe, known: map<int, int>, onsets: map<int, int>, ch: int)
    requires ch in known <==> front != [] && SeenSilent(front[|front| - 1], ch)
    requires ch in known ==> SilentSince(front, ch, known[ch])
    requires Tracked(known, last, onsets)
    ensures ch in onsets <==> SeenSilent(last, ch)
    ensures ch in onsets ==> SilentSince(front + [last], ch, onsets[ch])
  {
    var probes := front + [last];
    assert At(onsets, ch) ==
      if SeenSilent(last, ch) then (if ch in known then Some(known[ch]) else Some(last.at)) else None;
    if SeenSilent(last, ch) {
      if ch in known {
        var i: nat :| RunBegins(front, ch, i) && front[i].at == known[ch];
        RunGrows(front, last, ch, i);
        assert RunBegins(probes, ch, i) && probes[i].at == onsets[ch];
      } else {
        RunStartsHere(front, last, ch);
        assert RunBegins(probes, ch, |front|) && probes[|front|].at == onsets[ch];
      }
    }
  }

  // ---- Together, and the verdict ----

  /** Two of the moments lie within the window. */
  ghost predicate ClosePair(times: seq<int>, window: int) {
    exists i, j :: 0 <= i < j < |times| && Close(times[i], times[j], window)
  }

  predicate Close(a: int, b: int, window: int) {
    -window <= b - a <= window
  }

  predicate NumberBefore(a: int, b: int) {
    a < b
  }

  predicate Spread(s: seq<int>, window: int) {
    forall i :: 0 <= i < |s| - 1 ==> s[i + 1] - s[i] > window
  }

  lemma SpreadPairs(s: seq<int>, window: int, i: nat, j: nat)
    requires NoInversion(s, NumberBefore) && Spread(s, window) && window >= 0 && i < j < |s|
    ensures s[j] - s[i] > window
  {
    assert s[i + 1] - s[i] > window;
    assert j == i + 1 || !NumberBefore(s[j], s[i + 1]);
  }

  /** If no neighbours of the sorted moments are close, no two moments are. */
  lemma SpreadMeansNoPair(times: seq<int>, s: seq<int>, window: int)
    requires Permutation(times, s) && NoInversion(s, NumberBefore) && Spread(s, window) && window >= 0
    ensures !ClosePair(times, window)
  {
    forall i, j | 0 <= i < j < |s|
      ensures s[i] != s[j]
    {
      SpreadPairs(s, window, i, j);
    }
    StaysDistinct(s, times);
    SameMembers(times, s);
    forall i, j | 0 <= i < j < |times|
      ensures !Close(times[i], times[j], window)
    {
      assert times[i] in s && times[j] in s;
      var a :| 0 <= a < |s| && s[a] == times[i];
      var b :| 0 <= b < |s| && s[b] == times[j];
      if a < b {
        SpreadPairs(s, window, a, b);
      } else {
        SpreadPairs(s, window, b, a);
      }
    }
  }

  lemma PairInPermutation(times: seq<int>, s: seq<int>, window: int, i: nat)
    requires Permutation(times, s) && i + 1 < |s| && 0 <= s[i + 1] - s[i] <= window
    ensures ClosePair(times, window)
  {
    SameMembers(times, s);
    if forall a, b :: 0 <= a < b < |times| ==> times[a] != times[b] {
      StaysDistinct(times, s);
      assert s[i] in times && s[i + 1] in times;
      var a :| 0 <= a < |times| && times[a] == s[i];
      var b :| 0 <= b < |times| && times[b] == s[i + 1];
      assert ClosePair(times, window) by {
        if a < b {
          assert Close(times[a], times[b], window);
        } else {
          assert Close(times[b], times[a], window);
        }
      }
    } else {
      var a, b :| 0 <= a < b < |times| && times[a] == times[b];
      assert Close(times[a], times[b], window);
    }
  }

  function TimesOf(dead: seq<int>, since: map<int, int>): seq<int> {
    if dead == [] then []
    else
      var ch := dead[|dead| - 1];
      TimesOf(dead[..|dead| - 1], since) + (if ch in since then [since[ch]] else [])
  }

  lemma TimesPush(dead: seq<int>, ch: int, since: map<int, int>)
    ensures TimesOf(dead + [ch], since) == TimesOf(dead, since) + if ch in since then [since[ch]] else []
  {
    assert (dead + [ch])[..|dead|] == dead;
  }

  /** droppedTogether: sorting the onsets and looking at neighbours finds any close pair. */
  method DroppedTogether(dead: seq<int>, since: map<int, int>, window: int) returns (together: bool)
    requires window >= 0
    ensures together <==> ClosePair(TimesOf(dead, since), window)
  {
    var times: seq<int> := [];
    for k := 0 to |dead|
      invariant times == TimesOf(dead[..k], since)
    {
      assert dead[..k + 1] == dead[..k] + [dead[k]];
      TimesPush(dead[..k], dead[k], since);
      if dead[k] in since {
        times := times + [since[dead[k]]];
      }
    }
    assert dead[..|dead|] == dead;
    var s := Sort(times, NumberBefore);
    var i := 0;
    while i + MIN_WATCHED - 1 < |s|
      invariant 0 <= i && (i < |s| || i == 0)
      invariant forall k :: 0 <= k < i ==> s[k + 1] - s[k] > window
    {
      if s[i + MIN_WATCHED - 1] - s[i] <= window {
        assert !NumberBefore(s[i + 1], s[i]);
        PairInPermutation(times, s, window, i);
        return true;
      }
      i := i + 1;
    }
    SpreadMeansNoPair(times, s, window);
    together := false;
  }

  /** What a unit's channels are judged by: their learned draws in watts, those that idle on their
      own, and the onsets. */
  datatype Known = Known(learned: map<int, real>, idles: set<int>, since: map<int, int>)

  predicate Watched(c: Reading, k: Known) {
    Loaded(c) && c.ch !in k.idles && c.ch in k.learned && k.learned[c.ch] >= MIN_LEARNED_W
  }

  /** Of the channels that are on and read, the known thermostats are not watched, nor those
      without a learned draw of 15 W. */
  lemma WatchedChannels(ch: int, draw: real, current: Option<real>, idles: set<int>, since: map<int, int>)
    requires ch !in idles
    ensures var on, known := Reading(ch, true, Some(0.0), current), Known(map[ch := draw], idles, since);
      && (Watched(on, known) <==> draw >= 15.0)
      && !Watched(on, known.(idles := idles + {ch})) && !Watched(on, known.(learned := map[]))
      && !Watched(on.(on := false), known) && !Watched(on.(apower := None), known)
  {
  }

  predicate DeadWatched(c: Reading, k: Known) {
    Watched(c, k) && Silent(c)
  }

  predicate Together(a: Reading, b: Reading, k: Known) {
    && DeadWatched(a, k) && DeadWatched(b, k) && a.ch in k.since && b.ch in k.since
    && -DROP_WINDOW_MS <= k.since[b.ch] - k.since[a.ch] <= DROP_WINDOW_MS
  }

  /** Two watched silent channels have onsets within the window. */
  ghost predicate TwoDroppedTogether(channels: seq<Reading>, k: Known) {
    exists i, j :: 0 <= i < j < |channels| && Together(channels[i], channels[j], k)
  }

  ghost predicate AtLeastTwoWatched(channels: seq<Reading>, k: Known) {
    exists i, j :: 0 <= i < j < |channels| && Watched(channels[i], k) && Watched(channels[j], k)
  }

  ghost predicate NoneFlows(channels: seq<Reading>, k: Known) {
    forall c :: c in channels && Watched(c, k) ==> Silent(c)
  }

  datatype Verdict = Verdict(watched: seq<int>, dead: seq<int>, together: bool, allDead: bool)

  ghost predicate ListsWatched(channels: seq<Reading>, k: Known, watched: seq<int>) {
    && (forall ch :: ch in watched <==> exists c :: c in channels && c.ch == ch && Watched(c, k))
    && (|watched| >= 2 <==> AtLeastTwoWatched(channels, k))
  }

  ghost predicate ListsDead(channels: seq<Reading>, k: Known, dead: seq<int>) {
    forall ch :: ch in dead <==> exists c :: c in channels && c.ch == ch && DeadWatched(c, k)
  }

  /** Some watched silent channel has this onset. */
  predicate DeadSince(channels: seq<Reading>, k: Known, t: int) {
    exists c :: c in channels && DeadWatched(c, k) && At(k.since, c.ch) == Some(t)
  }

  ghost predicate TimesDead(channels: seq<Reading>, k: Known, dead: seq<int>) {
    && (forall t :: t in TimesOf(dead, k.since) <==> DeadSince(channels, k, t))
    && (ClosePair(TimesOf(dead, k.since), DROP_WINDOW_MS) <==> TwoDroppedTogether(channels, k))
  }

  ghost predicate CountsDead(channels: seq<Reading>, k: Known, watched: seq<int>, dead: seq<int>) {
    |dead| <= |watched| && (|dead| == |watched| <==> NoneFlows(channels, k))
  }

  lemma PushClose(times: seq<int>, t: int, window: int)
    ensures ClosePair(times + [t], window)
      <==> ClosePair(times, window) || exists x :: x in times && Close(x, t, window)
  {
    var more := times + [t];
    assert forall i :: 0 <= i < |times| ==> more[i] == times[i];
    if x :| x in times && Close(x, t, window) {
      var i :| 0 <= i < |times| && times[i] == x;
      assert Close(more[i], more[|times|], window);
    }
    if i, j :| 0 <= i < j < |times| && Close(times[i], times[j], window) {
      assert Close(more[i], more[j], window);
    }
    if i, j :| 0 <= i < j < |more| && Close(more[i], more[j], window) {
      assert times[i] in times;
      assert j < |times| ==> Close(times[i], times[j], window);
    }
  }

  lemma PushTogether(channels: seq<Reading>, c: Reading, k: Known)
    ensures TwoDroppedTogether(channels + [c], k) <==>
      TwoDroppedTogether(channels, k) || exists d :: d in channels && Together(d, c, k)
  {
    var more := channels + [c];
    assert forall i :: 0 <= i < |channels| ==> more[i] == channels[i];
    if d :| d in channels && Together(d, c, k) {
      var i :| 0 <= i < |channels| && channels[i] == d;
      assert Together(more[i], more[|channels|], k);
    }
    if i, j :| 0 <= i < j < |channels| && Together(channels[i], channels[j], k) {
      assert Together(more[i], more[j], k);
    }
  }

  lemma PushWatched(channels: seq<Reading>, c: Reading, k: Known, watched: seq<int>)
    requires ListsWatched(channels, k, watched)
    ensures ListsWatched(channels + [c], k, if Watched(c, k) then watched + [c.ch] else watched)
  {
    var more := channels + [c];
    assert forall i :: 0 <= i < |channels| ==> more[i] == channels[i];
    if AtLeastTwoWatched(channels, k) {
      var i, j :| 0 <= i < j < |channels| && Watched(channels[i], k) && Watched(channels[j], k);
      assert Watched(more[i], k) && Watched(more[j], k);
    }
    if Watched(c, k) && watched != [] {
      assert watched[0] in watched;
      var d :| d in channels && d.ch == watched[0] && Watched(d, k);
      var i :| 0 <= i < |channels| && channels[i] == d;
      assert Watched(more[i], k) && Watched(more[|channels|], k);
    }
    if i, j :| 0 <= i < j < |more| && Watched(more[i], k) && Watched(more[j], k) {
      assert Watched(channels[i], k) && channels[i] in channels;
      assert channels[i].ch in watched;
      assert j < |channels| ==> Watched(channels[j], k);
    }
  }

  lemma CloseMeansTogether(channels: seq<Reading>, c: Reading, k: Known, dead: seq<int>)
    requires TimesDead(channels, k, dead) && DeadWatched(c, k) && c.ch in k.since
    ensures (exists x :: x in TimesOf(dead, k.since) && Close(x, k.since[c.ch], DROP_WINDOW_MS))
      <==> exists d :: d in channels && Together(d, c, k)
  {
    var times, t := TimesOf(dead, k.since), k.since[c.ch];
    if x :| x in times && Close(x, t, DROP_WINDOW_MS) {
      var d :| d in channels && DeadWatched(d, k) && At(k.since, d.ch) == Some(x);
      assert Together(d, c, k);
    }
    if d :| d in channels && Together(d, c, k) {
      assert At(k.since, d.ch) == Some(k.since[d.ch]);
      assert k.since[d.ch] in times && Close(k.since[d.ch], t, DROP_WINDOW_MS);
    }
  }

  lemma DeadSinceMore(channels: seq<Reading>, c: Reading, k: Known, t: int)
    ensures DeadSince(channels + [c], k, t) <==>
      DeadSince(channels, k, t) || (DeadWatched(c, k) && At(k.since, c.ch) == Some(t))
  {
    assert forall d :: d in channels + [c] <==> d in channels || d == c;
  }

  lemma PushDeadTimes(channels: seq<Reading>, c: Reading, k: Known, dead: seq<int>, t: int)
    requires DeadWatched(c, k) && (t in TimesOf(dead, k.since) <==> DeadSince(channels, k, t))
    ensures t in TimesOf(dead + [c.ch], k.since) <==> DeadSince(channels + [c], k, t)
  {
    TimesPush(dead, c.ch, k.since);
    DeadSinceMore(channels, c, k, t);
  }

  lemma PushDeadClose(channels: seq<Reading>, c: Reading, k: Known, dead: seq<int>)
    requires TimesDead(channels, k, dead) && DeadWatched(c, k)
    ensures ClosePair(TimesOf(dead + [c.ch], k.since), DROP_WINDOW_MS) <==> TwoDroppedTogether(channels + [c], k)
  {
    TimesPush(dead, c.ch, k.since);
    PushTogether(channels, c, k);
    if c.ch in k.since {
      PushClose(TimesOf(dead, k.since), k.since[c.ch], DROP_WINDOW_MS);
      CloseMeansTogether(channels, c, k, dead);
    } else {
      assert TimesOf(dead + [c.ch], k.since) == TimesOf(dead, k.since);
    }
  }

  lemma PushDead(channels: seq<Reading>, c: Reading, k: Known, dead: seq<int>)
    requires TimesDead(channels, k, dead) && DeadWatched(c, k)
    ensures TimesDead(channels + [c], k, dead + [c.ch])
  {
    PushDeadClose(channels, c, k, dead);
    forall t
      ensures t in TimesOf(dead + [c.ch], k.since) <==> DeadSince(channels + [c], k, t)
    {
      PushDeadTimes(channels, c, k, dead, t);
    }
  }

  lemma PushFlowing(channels: seq<Reading>, c: Reading, k: Known, dead: seq<int>)
    requires TimesDead(channels, k, dead) && !DeadWatched(c, k)
    ensures TimesDead(channels + [c], k, dead)
  {
    PushTogether(channels, c, k);
    forall t
      ensures DeadSince(channels + [c], k, t) <==> DeadSince(channels, k, t)
    {
      DeadSinceMore(channels, c, k, t);
    }
  }

  lemma PushCount(channels: seq<Reading>, c: Reading, k: Known, watched: seq<int>, dead: seq<int>)
    requires CountsDead(channels, k, watched, dead)
    ensures CountsDead(channels + [c], k, if Watched(c, k) then watched + [c.ch] else watched,
      if DeadWatched(c, k) then dead + [c.ch] else dead)
  {
    assert NoneFlows(channels + [c], k) <==> NoneFlows(channels, k) && (Watched(c, k) ==> Silent(c)) by {
      assert c in channels + [c];
    }
  }

  lemma PushListed(channels: seq<Reading>, c: Reading, k: Known, dead: seq<int>)
    requires ListsDead(channels, k, dead)
    ensures ListsDead(channels + [c], k, if DeadWatched(c, k) then dead + [c.ch] else dead)
  {
  }

  /** The two lists built so far, against the channels read so far. */
  ghost predicate Judged(channels: seq<Reading>, k: Known, watched: seq<int>, dead: seq<int>) {
    && ListsWatched(channels, k, watched) && CountsDead(channels, k, watched, dead)
    && ListsDead(channels, k, dead) && TimesDead(channels, k, dead)
  }

  lemma JudgeOne(channels: seq<Reading>, n: nat, k: Known, watched: seq<int>, dead: seq<int>)
    requires n < |channels| && Judged(channels[..n], k, watched, dead)
    ensures var c := channels[n];
      Judged(channels[..n + 1], k, if Watched(c, k) then watched + [c.ch] else watched,
        if DeadWatched(c, k) then dead + [c.ch] else dead)
  {
    var c := channels[n];
    assert channels[..n + 1] == channels[..n] + [c];
    PushWatched(channels[..n], c, k, watched);
    PushCount(channels[..n], c, k, watched, dead);
    PushListed(channels[..n], c, k, dead);
    if DeadWatched(c, k) {
      PushDead(channels[..n], c, k, dead);
    } else {
      PushFlowing(channels[..n], c, k, dead);
    }
  }

  /** judgeLoads: the unit is dead exactly when at least two channels are watched, none of
      them has flow, and two of their onsets lie within the window. */
  method JudgeLoads(channels: seq<Reading>, k: Known) returns (v: Verdict)
    ensures forall ch :: ch in v.watched <==> exists c :: c in channels && c.ch == ch && Watched(c, k)
    ensures forall ch :: ch in v.dead <==> exists c :: c in channels && c.ch == ch && DeadWatched(c, k)
    ensures v.together <==> TwoDroppedTogether(channels, k)
    ensures v.allDead <==> AtLeastTwoWatched(channels, k) && NoneFlows(channels, k) && TwoDroppedTogether(channels, k)
  {
    var watched, dead: seq<int> := [], [];
    for n := 0 to |channels|
      invariant Judged(channels[..n], k, watched, dead)
    {
      var c := channels[n];
      JudgeOne(channels, n, k, watched, dead);
      if Loaded(c) && c.ch !in k.idles && c.ch in k.learned && k.learned[c.ch] >= MIN_LEARNED_W {
        watched := watched + [c.ch];
        if NoFlow(c) {
          dead := dead + [c.ch];
        }
      }
    }
    assert channels[..|channels|] == channels;
    var together := DroppedTogether(dead, k.since, DROP_WINDOW_MS);
    v := Verdict(watched, dead, together, |watched| >= MIN_WATCHED && |dead| == |watched| && together);
  }

  /** With the onsets of the same probe, the verdict is about the history: two watched silent
      channels whose current unbroken runs of silent probes began within the window. */
  lemma TogetherMeansRuns(probes: seq<Probe>, stored: seq<map<int, int>>, k: Known, a: Reading, b: Reading, t: int,
        u: int)
    requires TracksAll(probes, stored) && probes != [] && k.since == stored[|probes|]
    requires a in probes[|probes| - 1].channels && b in probes[|probes| - 1].channels
    requires DeadWatched(a, k) && DeadWatched(b, k) && SilentSince(probes, a.ch, t) && SilentSince(probes, b.ch, u)
    ensures Together(a, b, k) <==> -90000 <= u - t <= 90000
  {
    OnsetIsRunStart(probes, stored, a.ch);
    OnsetIsRunStart(probes, stored, b.ch);
    SilentSinceIsUnique(probes, a.ch, t, k.since[a.ch]);
    SilentSinceIsUnique(probes, b.ch, u, k.since[b.ch]);
  }

  lemma SilentSinceIsUnique(probes: seq<Probe>, ch: int, t: int, u: int)
    requires SilentSince(probes, ch, t) && SilentSince(probes, ch, u)
    ensures t == u
  {
    var i: nat :| RunBegins(probes, ch, i) && probes[i].at == t;
    var j: nat :| RunBegins(probes, ch, j) && probes[j].at == u;
    RunIsUnique(probes, ch, i, j);
  }
}
