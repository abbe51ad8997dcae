/** The firmware's two bounded buffers (firmware/src/main.cpp): the queue of execution
    reports kept while offline, and the ring of the last command ids. */
module FirmwareQueues {

  const MAX_EXEC_QUEUE := 100
  const RING := 32

  // ---- Execution reports ----

  /** The reports of `all` whose fate is `kept`: delivered (true) or dropped (false). */
  function WithFate<R>(all: seq<R>, fate: seq<bool>, kept: bool): seq<R>
    requires |fate| <= |all|
  {
    if fate == [] then []
    else WithFate(all, fate[..|fate| - 1], kept) + if fate[|fate| - 1] == kept then [all[|fate| - 1]] else []
  }

  lemma {:induction false} LongerHistory<R>(all: seq<R>, r: R, fate: seq<bool>, kept: bool)
    requires |fate| <= |all|
    ensures WithFate(all + [r], fate, kept) == WithFate(all, fate, kept)
  {
    if fate != [] {
      LongerHistory(all, r, fate[..|fate| - 1], kept);
    }
  }

  lemma OneMoreFate<R>(all: seq<R>, fate: seq<bool>, b: bool, kept: bool)
    requires |fate| < |all|
    ensures WithFate(all, fate + [b], kept) == WithFate(all, fate, kept) + if b == kept then [all[|fate|]] else []
  {
    assert (fate + [b])[..|fate|] == fate;
  }

  lemma {:induction false} FatesOfPrefix<R>(all: seq<R>, fate: seq<bool>)
    requires |fate| <= |all|
    ensures multiset(all[..|fate|]) == multiset(WithFate(all, fate, true)) + multiset(WithFate(all, fate, false))
  {
    if fate != [] {
      var n := |fate| - 1;
      FatesOfPrefix(all, fate[..n]);
      assert all[..n + 1] == all[..n] + [all[n]];
    }
  }

  /** Nothing is lost silently and nothing is duplicated: every report ever queued is
      delivered, dropped or waiting. */
  lemma FatesPartition<R>(all: seq<R>, fate: seq<bool>)
    requires |fate| <= |all|
    ensures multiset(all)
      == multiset(WithFate(all, fate, true)) + multiset(WithFate(all, fate, false)) + multiset(all[|fate|..])
  {
    FatesOfPrefix(all, fate);
    assert all == all[..|fate|] + all[|fate|..];
  }

  class ExecQueue<R> {
    var waiting: seq<R>
    var execDropped: nat
    ghost var queued: seq<R>   // every report ever queued, oldest first
    ghost var fate: seq<bool>  // of those that left: delivered or dropped

    constructor ()
      ensures Valid() && queued == [] && fate == []
    {
      waiting, execDropped, queued, fate := [], 0, [], [];
    }

    /** The waiting reports are the newest ones, in order; the counter counts the drops. */
    ghost predicate Valid()
      reads this
    {
      && |waiting| <= MAX_EXEC_QUEUE
      && |fate| <= |queued| && waiting == queued[|fate|..]
      && execDropped == |WithFate(queued, fate, false)|
    }

    /** The oldest report leaves, delivered or dropped. */
    method RemoveFirst(delivered: bool)
      requires Valid() && waiting != []
      modifies this
      ensures Valid() && queued == old(queued) && fate == old(fate) + [delivered]
      ensures waiting == old(waiting)[1..] && execDropped == old(execDropped) + if delivered then 0 else 1
      ensures WithFate(queued, fate, true)
        == old(WithFate(queued, fate, true)) + if delivered then [old(waiting)[0]] else []
    {
      OneMoreFate(queued, fate, delivered, true);
      OneMoreFate(queued, fate, delivered, false);
      waiting := waiting[1..];
      execDropped := if delivered then execDropped else execDropped + 1;
      fate := fate + [delivered];
    }

    /** queueExecReport: room is made by dropping the oldest. */
    method QueueExecReport(r: R)
      requires Valid()
      modifies this
      ensures Valid() && queued == old(queued) + [r]
      ensures fate == old(fate) + if old(|waiting|) == 100 then [false] else []
    {
      while |waiting| >= MAX_EXEC_QUEUE
        invariant Valid() && queued == old(queued)
        invariant fate == old(fate) + if |waiting| == old(|waiting|) then [] else [false]
        invariant |waiting| == old(|waiting|) || (old(|waiting|) == MAX_EXEC_QUEUE && |waiting| == MAX_EXEC_QUEUE - 1)
        decreases |waiting|
      {
        RemoveFirst(false);
      }
      LongerHistory(queued, r, fate, false);
      waiting := waiting + [r];
      queued := queued + [r];
    }

    /** flushExecQueue on a line that accepts `accepts` publishes: oldest first, and what was
        not accepted stays. */
    method FlushExecQueue(accepts: nat) returns (published: seq<R>)
      requires Valid()
      modifies this
      ensures Valid() && queued == old(queued) && execDropped == old(execDropped)
      ensures |published| == if accepts < old(|waiting|) then accepts else old(|waiting|)
      ensures old(waiting) == published + waiting
      ensures WithFate(queued, fate, true) == old(WithFate(queued, fate, true)) + published
    {
      published := [];
      while |waiting| > 0 && |published| < accepts
        invariant Valid() && queued == old(queued) && execDropped == old(execDropped)
        invariant old(waiting) == published + waiting && |published| <= accepts
        invariant WithFate(queued, fate, true) == old(WithFate(queued, fate, true)) + published
      {
        published := published + [waiting[0]];
        RemoveFirst(true);
      }
    }
  }

  // ---- Command ids ----

  /** The ring starts zeroed, so its history starts with as many zero ids. */
  function History(accepted: seq<int>): (h: seq<int>)
    ensures |h| == RING + |accepted|
  {
    seq(RING, i => 0) + accepted
  }

  function LastIds(accepted: seq<int>): seq<int> {
    History(accepted)[|accepted|..]
  }

  class CommandRing {
    const lastCmdIds: array<int>
    var lastCmdIdx: nat
    ghost var accepted: seq<int>

    constructor ()
      ensures Valid() && accepted == [] && fresh(lastCmdIds)
    {
      lastCmdIds := new int[RING](i => 0);
      lastCmdIdx, accepted := 0, [];
    }

    /** Slot n % 32 holds the n-th id of the history, for the last 32 of them. */
    ghost predicate Valid()
      reads this, lastCmdIds
    {
      && lastCmdIds.Length == RING && lastCmdIdx == |accepted| % RING
      && forall n :: |accepted| <= n < |accepted| + RING ==> lastCmdIds[n % RING] == History(accepted)[n]
    }

    lemma SlotsAreLastIds(id: int)
      requires Valid()
      ensures id in LastIds(accepted) <==> exists i :: 0 <= i < RING && lastCmdIds[i] == id
    {
      var k := |accepted|;
      if id in LastIds(accepted) {
        var j :| 0 <= j < RING && LastIds(accepted)[j] == id;
        assert lastCmdIds[(k + j) % RING] == History(accepted)[k + j];
      }
      if i :| 0 <= i < RING && lastCmdIds[i] == id {
        var n := k + (i - k) % RING;
        assert n % RING == i;
        assert lastCmdIds[n % RING] == History(accepted)[n];
        assert LastIds(accepted)[n - k] == id;
      }
    }

    /** The duplicate test of handleCmd: a command is a duplicate iff its id is among the last
        32 accepted ones, counting the zeros the ring starts with. */
    method Accept(cmdId: int) returns (dup: bool)
      requires Valid()
      modifies this, lastCmdIds
      ensures Valid()
      ensures dup <==> cmdId in LastIds(old(accepted))
      ensures accepted == old(accepted) + if dup then [] else [cmdId]
    {
      dup := false;
      for i := 0 to RING
        invariant dup <==> exists k :: 0 <= k < i && lastCmdIds[k] == cmdId
      {
        if lastCmdIds[i] == cmdId {
          dup := true;
        }
      }
      SlotsAreLastIds(cmdId);
      if !dup {
        lastCmdIds[lastCmdIdx] := cmdId;
        lastCmdIdx := (lastCmdIdx + 1) % RING;
        accepted := accepted + [cmdId];
      }
    }
  }

  /** A redelivery is recognized as long as fewer than 32 other commands were accepted since,
      and no longer. */
  lemma RememberedFor32(accepted: seq<int>, i: nat)
    requires i < |accepted| && forall j, k :: 0 <= j < k < |accepted| ==> accepted[j] != accepted[k]
    requires accepted[i] != 0
    ensures accepted[i] in LastIds(accepted) <==> |accepted| - i <= 32
  {
    var n := |accepted|;
    if n - i <= RING {
      assert History(accepted)[RING + i] == accepted[i];
      assert LastIds(accepted)[RING + i - n] == accepted[i];
    }
  }
}
