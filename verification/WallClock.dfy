/** Wall time to UTC (wallToUtc, src/services/time.js), in minutes. A zone is a function from
    a UTC minute to its offset; near the tested wall time it changes at most once. */
module WallClock {
  import opened Sorting

  const DAY := 1440
  const REACH := 27 * 60
  const MAX_OFFSET := 15 * 60

  function Local(off: int -> int, t: int): int {
    t + off(t)
  }

  ghost predicate RealZone(off: int -> int) {
    forall t :: -MAX_OFFSET <= off(t) <= MAX_OFFSET
  }

  /** On [lo, hi] the offset is `before` up to minute `at` and `after` from it on. */
  ghost predicate OneChange(off: int -> int, lo: int, hi: int, at: int, before: int, after: int) {
    forall t :: lo <= t <= hi ==> off(t) == if t < at then before else after
  }

  ghost predicate NearlySteady(off: int -> int, wall: int, at: int, before: int, after: int) {
    RealZone(off) && OneChange(off, wall - REACH, wall + REACH, at, before, after)
  }

  ghost predicate Skipped(off: int -> int, wall: int) {
    forall u :: Local(off, u) != wall
  }

  /** The instants a wall time means: those reading it, or for a skipped one the first
      instant past it. */
  ghost predicate Resolves(off: int -> int, wall: int, t: int) {
    Local(off, t) == wall || (Skipped(off, wall) && Local(off, t - 1) < wall < Local(off, t))
  }

  predicate Ascending(s: seq<int>) {
    forall i, j :: 0 <= i < j < |s| ==> s[i] < s[j]
  }

  /** A reading instant is one of the offsets in force a day around the wall time away. */
  lemma ReadingIsProbed(off: int -> int, wall: int, t: int, at: int, before: int, after: int)
    requires NearlySteady(off, wall, at, before, after) && Local(off, t) == wall
    ensures off(t) == off(wall - DAY) || off(t) == off(wall + DAY)
    ensures t == wall - off(t) && wall - MAX_OFFSET <= t <= wall + MAX_OFFSET
  {
    assert -MAX_OFFSET <= off(t) <= MAX_OFFSET;
  }

  /** A skipped wall time lies in the jump of the one change. */
  lemma SkippedInJump(off: int -> int, wall: int, at: int, before: int, after: int)
    requires NearlySteady(off, wall, at, before, after) && Skipped(off, wall)
    ensures wall - after < at <= wall - before
    ensures -MAX_OFFSET <= before <= MAX_OFFSET && -MAX_OFFSET <= after <= MAX_OFFSET
  {
    var lo, hi := wall - REACH, wall + REACH;
    assert -MAX_OFFSET <= off(lo) <= MAX_OFFSET && -MAX_OFFSET <= off(hi) <= MAX_OFFSET;
    assert Local(off, wall - off(lo)) != wall && Local(off, wall - off(hi)) != wall;
  }

  lemma JumpIsTheOnly(off: int -> int, wall: int, at: int, before: int, after: int, t: int)
    requires NearlySteady(off, wall, at, before, after) && Skipped(off, wall)
    ensures Local(off, t - 1) < wall < Local(off, t) <==> t == at
  {
    SkippedInJump(off, wall, at, before, after);
    assert off(at - 1) == before && off(at) == after;
    assert -MAX_OFFSET <= off(t) <= MAX_OFFSET && -MAX_OFFSET <= off(t - 1) <= MAX_OFFSET;
    if Local(off, t - 1) < wall < Local(off, t) {
      assert wall - REACH < t < wall + REACH;
    }
  }

  /** The distinct offsets of the three probes. */
  method ProbeOffsets(off: int -> int, wall: int) returns (offsets: seq<int>)
    ensures forall o :: o in offsets <==> o == off(wall - DAY) || o == off(wall) || o == off(wall + DAY)
    ensures Distinct(offsets)
  {
    offsets := [];
    var probes := [wall - DAY, wall, wall + DAY];
    for i := 0 to 3
      invariant forall o :: o in offsets <==> exists k :: 0 <= k < i && o == off(probes[k])
      invariant Distinct(offsets)
    {
      if off(probes[i]) !in offsets {
        offsets := offsets + [off(probes[i])];
      }
    }
    forall o
      ensures o in offsets <==> o == off(wall - DAY) || o == off(wall) || o == off(wall + DAY)
    {
      assert off(probes[0]) == off(wall - DAY) && off(probes[1]) == off(wall) && off(probes[2]) == off(wall + DAY);
    }
  }

  /** wallToUtc: all the UTC instants whose clock reads `wall`, ascending; when there are
      none, the jump instant is the transition itself. */
  method WallToUtc(off: int -> int, wall: int, ghost at: int, ghost before: int, ghost after: int)
      returns (instants: seq<int>, jumpInstant: int)
    requires NearlySteady(off, wall, at, before, after)
    ensures Ascending(instants) && forall t :: t in instants <==> Local(off, t) == wall
    ensures instants == [] <==> Skipped(off, wall)
    ensures instants == [] ==> jumpInstant == at && Local(off, at - 1) < wall < Local(off, at)
  {
    var offsets := ProbeOffsets(off, wall);
    var found := [];
    for i := 0 to |offsets|
      invariant forall t :: t in found <==> Local(off, t) == wall && off(t) in offsets[..i]
      invariant Distinct(found)
    {
      var t := wall - offsets[i];
      if Local(off, t) == wall {
        assert off(t) == offsets[i];
        found := found + [t];
      }
      assert offsets[..i + 1] == offsets[..i] + [offsets[i]];
    }
    assert offsets[..|offsets|] == offsets;
    forall t
      ensures t in found <==> Local(off, t) == wall
    {
      if Local(off, t) == wall {
        ReadingIsProbed(off, wall, t, at, before, after);
      }
    }
    instants := Sort(found, (a: int, b: int) => a < b);
    StaysDistinct(found, instants);
    jumpInstant := wall;
    assert instants != [] ==> Local(off, instants[0]) == wall;
    if instants == [] {
      jumpInstant := FindJump(off, wall, at, before, after);
    }
  }

  /** The binary search over 54 hours for the first minute at or past the wall time. */
  method FindJump(off: int -> int, wall: int, ghost at: int, ghost before: int, ghost after: int) returns (jump: int)
    requires NearlySteady(off, wall, at, before, after) && Skipped(off, wall)
    ensures jump == at && Local(off, at - 1) < wall < Local(off, at)
  {
    SkippedInJump(off, wall, at, before, after);
    var lo, hi := wall - REACH, wall + REACH;
    while hi - lo > 1
      invariant wall - REACH <= lo < at <= hi <= wall + REACH
      decreases hi - lo
    {
      var mid := lo + (hi - lo) / 2;
      assert off(mid) == if mid < at then before else after;
      if Local(off, mid) >= wall {
        hi := mid;
      } else {
        lo := mid;
      }
    }
    jump := hi;
    JumpIsTheOnly(off, wall, at, before, after, at);
  }

  /** The instants an occurrence falls on: the reading ones, or the jump. */
  method Hits(off: int -> int, wall: int, ghost at: int, ghost before: int, ghost after: int) returns (hits: seq<int>)
    requires NearlySteady(off, wall, at, before, after)
    ensures Ascending(hits) && forall t :: t in hits <==> Resolves(off, wall, t)
  {
    var instants, jump := WallToUtc(off, wall, at, before, after);
    if instants != [] {
      assert Local(off, instants[0]) == wall;
      return instants;
    }
    hits := [jump];
    forall t
      ensures t in hits <==> Resolves(off, wall, t)
    {
      JumpIsTheOnly(off, wall, at, before, after, t);
    }
  }
}
