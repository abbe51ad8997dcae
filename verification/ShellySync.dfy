/** The delta reconcile of syncShellyLocalSchedules (src/services/shelly-schedules.js): the
    device's own job table is brought to the desired list one write at a time, and the line
    may die after any write. Jobs are compared through `canonical`, their identity string. */
module ShellySync {
  import opened Common

  /** One line of Schedule.List: the device's id for the job and the job. */
  datatype Entry<J> = Entry(id: int, job: J)

  function Keys<J, K>(jobs: seq<J>, canonical: J -> K): multiset<K> {
    multiset(seq(|jobs|, i requires 0 <= i < |jobs| => canonical(jobs[i])))
  }

  function TableKeys<J, K>(table: seq<Entry<J>>, canonical: J -> K): multiset<K> {
    multiset(seq(|table|, i requires 0 <= i < |table| => canonical(table[i].job)))
  }

  lemma KeysConcat<J, K>(a: seq<J>, b: seq<J>, canonical: J -> K)
    ensures Keys(a + b, canonical) == Keys(a, canonical) + Keys(b, canonical)
  {
    assert seq(|a + b|, i requires 0 <= i < |a + b| => canonical((a + b)[i]))
      == seq(|a|, i requires 0 <= i < |a| => canonical(a[i])) + seq(|b|, i requires 0 <= i < |b| => canonical(b[i]));
  }

  lemma TableConcat<J, K>(a: seq<Entry<J>>, b: seq<Entry<J>>, canonical: J -> K)
    ensures TableKeys(a + b, canonical) == TableKeys(a, canonical) + TableKeys(b, canonical)
  {
    assert seq(|a + b|, i requires 0 <= i < |a + b| => canonical((a + b)[i].job))
      == seq(|a|, i requires 0 <= i < |a| => canonical(a[i].job))
        + seq(|b|, i requires 0 <= i < |b| => canonical(b[i].job));
  }

  lemma KeysPrefix<J, K>(jobs: seq<J>, i: nat, canonical: J -> K)
    requires i < |jobs|
    ensures Keys(jobs[..i + 1], canonical) == Keys(jobs[..i], canonical) + multiset{canonical(jobs[i])}
  {
    assert jobs[..i + 1] == jobs[..i] + [jobs[i]];
    KeysConcat(jobs[..i], [jobs[i]], canonical);
  }

  lemma TablePush<J, K>(table: seq<Entry<J>>, e: Entry<J>, canonical: J -> K)
    ensures TableKeys(table + [e], canonical) == TableKeys(table, canonical) + multiset{canonical(e.job)}
  {
    TableConcat(table, [e], canonical);
  }

  lemma KeyInList<J, K>(jobs: seq<J>, k: K, canonical: J -> K)
    ensures k in Keys(jobs, canonical) <==> exists i :: 0 <= i < |jobs| && canonical(jobs[i]) == k
  {
    var keys := seq(|jobs|, i requires 0 <= i < |jobs| => canonical(jobs[i]));
    assert k in Keys(jobs, canonical) <==> k in keys;
    if i :| 0 <= i < |jobs| && canonical(jobs[i]) == k {
      assert keys[i] == k;
    }
  }

  lemma KeyOnTable<J, K>(table: seq<Entry<J>>, k: K, canonical: J -> K)
    ensures k in TableKeys(table, canonical) <==> exists i :: 0 <= i < |table| && canonical(table[i].job) == k
  {
    var keys := seq(|table|, i requires 0 <= i < |table| => canonical(table[i].job));
    assert k in TableKeys(table, canonical) <==> k in keys;
    if i :| 0 <= i < |table| && canonical(table[i].job) == k {
      assert keys[i] == k;
    }
  }

  // ---- Distance ----

  /** How many writes separate a table from the desired list. */
  function Distance<K>(have: multiset<K>, want: multiset<K>): nat {
    |have - want| + |want - have|
  }

  lemma NoDistanceIsEqual<K>(have: multiset<K>, want: multiset<K>)
    ensures Distance(have, want) == 0 <==> have == want
  {
    if Distance(have, want) == 0 {
      assert have - want == multiset{} && want - have == multiset{};
      forall k ensures have[k] == want[k] {
        assert (have - want)[k] == 0 && (want - have)[k] == 0;
      }
    }
  }

  /** With the matching keys and `rest` of the surplus on the table. */
  lemma DistanceWithSurplus<K>(have: multiset<K>, want: multiset<K>, rest: multiset<K>)
    requires rest <= have - want
    ensures Distance(have * want + rest, want) == |rest| + |want - have|
  {
    var now := have * want + rest;
    assert now - want == rest;
    assert want - now == want - have;
  }

  /** With the matching keys and `made` of the missing ones on the table. */
  lemma DistanceWithMade<K>(have: multiset<K>, want: multiset<K>, made: multiset<K>)
    requires made <= want - have
    ensures Distance(have * want + made, want) == |want - have| - |made|
  {
    var now := have * want + made;
    assert now - want == multiset{};
    assert want - now == (want - have) - made;
  }

  lemma PartsOfWant<K>(have: multiset<K>, want: multiset<K>)
    ensures |have * want| + |want - have| == |want| && |have * want| + |have - want| == |have|
  {
    assert have * want + (want - have) == want;
    assert have * want + (have - want) == have;
  }

  lemma Cancel<T>(a: multiset<T>, b: multiset<T>, x: multiset<T>)
    requires a + x == b + x
    ensures a == b
  {
    assert (a + x) - x == a;
    assert (b + x) - x == b;
  }

  lemma TakeOut<J, K>(table: seq<Entry<J>>, n: nat, canonical: J -> K)
    requires n < |table|
    ensures multiset(table) == multiset(table[..n] + table[n + 1..]) + multiset{table[n]}
    ensures TableKeys(table, canonical)
      == TableKeys(table[..n] + table[n + 1..], canonical) + multiset{canonical(table[n].job)}
  {
    var front, back := table[..n], table[n + 1..];
    assert table == (front + [table[n]]) + back;
    TableConcat(front + [table[n]], back, canonical);
    TablePush(front, table[n], canonical);
    TableConcat(front, back, canonical);
  }

  lemma {:induction false} SameEntriesSameKeys<J, K>(a: seq<Entry<J>>, b: seq<Entry<J>>, canonical: J -> K)
    requires multiset(a) == multiset(b)
    ensures TableKeys(a, canonical) == TableKeys(b, canonical)
  {
    assert |multiset(a)| == |multiset(b)|;
    if a != [] {
      assert a[0] in multiset(b);
      var n :| 0 <= n < |b| && b[n] == a[0];
      TakeOut(a, 0, canonical);
      TakeOut(b, n, canonical);
      assert a[..0] + a[1..] == a[1..];
      Cancel(multiset(a[1..]), multiset(b[..n] + b[n + 1..]), multiset{a[0]});
      SameEntriesSameKeys(a[1..], b[..n] + b[n + 1..], canonical);
    }
  }

  // ---- The device ----

  predicate DistinctIds<J>(table: seq<Entry<J>>) {
    forall i, j :: 0 <= i < j < |table| ==> table[i].id != table[j].id
  }

  function IndexOf<J>(table: seq<Entry<J>>, id: int): (i: nat)
    ensures i <= |table| && (i < |table| ==> table[i].id == id)
    ensures forall j :: 0 <= j < i ==> table[j].id != id
  {
    if table == [] || table[0].id == id then 0 else
      assert forall j :: 0 < j < |table| ==> table[j] == table[1..][j - 1];
      1 + IndexOf(table[1..], id)
  }

  function Without<J>(table: seq<Entry<J>>, id: int): seq<Entry<J>> {
    var i := IndexOf(table, id);
    if i == |table| then table else table[..i] + table[i + 1..]
  }

  /** Deleting a job takes exactly that job off the table. */
  lemma WithoutTakesOne<J>(table: seq<Entry<J>>, e: Entry<J>)
    requires DistinctIds(table) && e in multiset(table)
    ensures multiset(table) == multiset(Without(table, e.id)) + multiset{e}
  {
    var n :| 0 <= n < |table| && table[n] == e;
    assert IndexOf(table, e.id) == n;
    assert table == table[..n] + [table[n]] + table[n + 1..];
  }

  /** The device's Schedule component: its table and the next id it will hand out. */
  class Device<J> {
    var table: seq<Entry<J>>
    var nextId: int

    constructor ()
      ensures Valid() && table == []
    {
      table, nextId := [], 1;
    }

    ghost predicate Valid()
      reads this
    {
      DistinctIds(table) && forall i :: 0 <= i < |table| ==> table[i].id < nextId
    }

    /** Schedule.Delete */
    method Delete(id: int)
      requires Valid()
      modifies this`table
      ensures Valid() && table == Without(old(table), id)
    {
      table := Without(table, id);
    }

    /** Schedule.Create */
    method Create(job: J)
      requires Valid()
      modifies this
      ensures Valid() && table == old(table) + [Entry(old(nextId), job)]
    {
      table := table + [Entry(nextId, job)];
      nextId := nextId + 1;
    }
  }

  // ---- What to write ----

  lemma CountOne<K>(have: multiset<K>, want: multiset<K>, k: K)
    ensures (want - have)[k] > 0 ==>
      want - (have + multiset{k}) == (want - have) - multiset{k} && (have + multiset{k}) - want == have - want
      && (have + multiset{k}) * want == have * want + multiset{k}
    ensures (want - have)[k] == 0 ==>
      want - (have + multiset{k}) == want - have && (have + multiset{k}) - want == have - want + multiset{k}
      && (have + multiset{k}) * want == have * want
  {
  }

  /** `extras`, `left` and `kept` split the table's keys against the wanted ones. */
  ghost predicate Sorted<J, K>(existing: seq<Entry<J>>, want: multiset<K>, canonical: J -> K,
    extras: seq<Entry<J>>, left: multiset<K>, kept: seq<Entry<J>>)
  {
    var have := TableKeys(existing, canonical);
    && left == want - have
    && TableKeys(extras, canonical) == have - want
    && TableKeys(kept, canonical) == have * want
    && multiset(extras) + multiset(kept) == multiset(existing)
  }

  lemma KeepOne<J, K>(existing: seq<Entry<J>>, i: nat, want: multiset<K>, canonical: J -> K,
      extras: seq<Entry<J>>, left: multiset<K>, kept: seq<Entry<J>>)
    requires i < |existing| && Sorted(existing[..i], want, canonical, extras, left, kept)
    requires left[canonical(existing[i].job)] > 0
    ensures Sorted(existing[..i + 1], want, canonical, extras, left - multiset{canonical(existing[i].job)},
      kept + [existing[i]])
  {
    CountOne(TableKeys(existing[..i], canonical), want, canonical(existing[i].job));
    assert existing[..i + 1] == existing[..i] + [existing[i]];
    TablePush(existing[..i], existing[i], canonical);
    TablePush(kept, existing[i], canonical);
  }

  lemma RejectOne<J, K>(existing: seq<Entry<J>>, i: nat, want: multiset<K>, canonical: J -> K,
      extras: seq<Entry<J>>, left: multiset<K>, kept: seq<Entry<J>>)
    requires i < |existing| && Sorted(existing[..i], want, canonical, extras, left, kept)
    requires left[canonical(existing[i].job)] == 0
    ensures Sorted(existing[..i + 1], want, canonical, extras + [existing[i]], left, kept)
  {
    CountOne(TableKeys(existing[..i], canonical), want, canonical(existing[i].job));
    assert existing[..i + 1] == existing[..i] + [existing[i]];
    TablePush(existing[..i], existing[i], canonical);
    TablePush(extras, existing[i], canonical);
  }

  /** The scan of Schedule.List against the wanted counts: what no longer belongs, and what
      of the wanted counts is left. */
  method FindExtras<J, K(==)>(existing: seq<Entry<J>>, want: multiset<K>, canonical: J -> K)
      returns (extras: seq<Entry<J>>, left: multiset<K>, ghost kept: seq<Entry<J>>)
    ensures Sorted(existing, want, canonical, extras, left, kept)
    ensures TableKeys(extras, canonical) == TableKeys(existing, canonical) - want
    ensures left == want - TableKeys(existing, canonical)
  {
    extras, left, kept := [], want, [];
    for i := 0 to |existing|
      invariant Sorted(existing[..i], want, canonical, extras, left, kept)
    {
      var e := existing[i];
      if left[canonical(e.job)] > 0 {
        KeepOne(existing, i, want, canonical, extras, left, kept);
        left, kept := left - multiset{canonical(e.job)}, kept + [e];
      } else {
        RejectOne(existing, i, want, canonical, extras, left, kept);
        extras := extras + [e];
      }
    }
    assert existing[..|existing|] == existing;
  }

  /** `counts` of the keys in `left` are still to be found in the rest of the list. */
  ghost predicate Searching<J, K>(missing: seq<J>, counts: multiset<K>, left: multiset<K>, rest: seq<J>,
        canonical: J -> K) {
    Keys(missing, canonical) + counts == left && counts <= Keys(rest, canonical)
  }

  lemma TakeOne<J, K>(missing: seq<J>, counts: multiset<K>, left: multiset<K>, desired: seq<J>, i: nat,
        canonical: J -> K)
    requires i < |desired| && Searching(missing, counts, left, desired[i..], canonical)
    ensures var k := canonical(desired[i]);
      if counts[k] > 0 then Searching(missing + [desired[i]], counts - multiset{k}, left, desired[i + 1..], canonical)
      else Searching(missing, counts, left, desired[i + 1..], canonical)
  {
    var k := canonical(desired[i]);
    assert desired[i..] == [desired[i]] + desired[i + 1..];
    KeysConcat([desired[i]], desired[i + 1..], canonical);
    KeysConcat(missing, [desired[i]], canonical);
    assert Keys(desired[i..], canonical) == Keys(desired[i + 1..], canonical) + multiset{k};
  }

  /** The scan of the desired list for the wanted counts still left. */
  method FindMissing<J, K(==)>(desired: seq<J>, left: multiset<K>, canonical: J -> K) returns (missing: seq<J>)
    requires left <= Keys(desired, canonical)
    ensures Keys(missing, canonical) == left
  {
    missing := [];
    var counts := left;
    assert desired[0..] == desired;
    for i := 0 to |desired|
      invariant Searching(missing, counts, left, desired[i..], canonical)
    {
      TakeOne(missing, counts, left, desired, i, canonical);
      var k := canonical(desired[i]);
      if counts[k] > 0 {
        missing := missing + [desired[i]];
        counts := counts - multiset{k};
      }
    }
    NothingLeft(missing, counts, left, desired[|desired|..], canonical);
  }

  lemma NothingLeft<J, K>(missing: seq<J>, counts: multiset<K>, left: multiset<K>, rest: seq<J>, canonical: J -> K)
    requires Searching(missing, counts, left, rest, canonical) && rest == []
    ensures Keys(missing, canonical) == left
  {
    assert counts == multiset{};
  }

  // ---- The writes ----

  lemma KeyCount<J, K>(jobs: seq<J>, canonical: J -> K)
    ensures |Keys(jobs, canonical)| == |jobs|
  {
  }

  lemma TableCount<J, K>(table: seq<Entry<J>>, canonical: J -> K)
    ensures |TableKeys(table, canonical)| == |table|
  {
  }

  lemma DeleteOne<J>(table: seq<Entry<J>>, kept: seq<Entry<J>>, extras: seq<Entry<J>>, n: nat)
    requires n < |extras| && DistinctIds(table) && multiset(table) == multiset(kept) + multiset(extras[n..])
    ensures multiset(Without(table, extras[n].id)) == multiset(kept) + multiset(extras[n + 1..])
  {
    assert extras[n..] == [extras[n]] + extras[n + 1..];
    assert multiset(extras[n..]) == multiset{extras[n]} + multiset(extras[n + 1..]);
    WithoutTakesOne(table, extras[n]);
    assert multiset(table) == multiset(kept) + multiset(extras[n + 1..]) + multiset{extras[n]};
    Cancel(multiset(Without(table, extras[n].id)), multiset(kept) + multiset(extras[n + 1..]), multiset{extras[n]});
  }

  /** The deletes, while the line lives for `budget` writes. */
  method DeleteExtras<J>(device: Device<J>, extras: seq<Entry<J>>, budget: nat, ghost kept: seq<Entry<J>>)
        returns (writes: nat)
    requires device.Valid() && multiset(device.table) == multiset(kept) + multiset(extras)
    modifies device
    ensures device.Valid() && writes == Least(|extras|, budget)
    ensures multiset(device.table) == multiset(kept) + multiset(extras[writes..])
  {
    assert extras[0..] == extras;
    writes := 0;
    while writes < |extras| && writes < budget
      invariant writes <= |extras| && writes <= budget
      invariant device.Valid() && multiset(device.table) == multiset(kept) + multiset(extras[writes..])
    {
      DeleteOne(device.table, kept, extras, writes);
      device.Delete(extras[writes].id);
      writes := writes + 1;
    }
  }

  /** The creates, while the line lives for `budget` writes. */
  method CreateMissing<J, K>(device: Device<J>, missing: seq<J>, budget: nat, ghost canonical: J -> K)
      returns (writes: nat)
    requires device.Valid()
    modifies device
    ensures device.Valid() && writes == Least(|missing|, budget)
    ensures old(device.table) <= device.table && |device.table| == old(|device.table|) + writes
    ensures TableKeys(device.table, canonical)
      == old(TableKeys(device.table, canonical)) + Keys(missing[..writes], canonical)
  {
    writes := 0;
    while writes < |missing| && writes < budget
      invariant writes <= |missing| && writes <= budget
      invariant device.Valid() && old(device.table) <= device.table && |device.table| == old(|device.table|) + writes
      invariant TableKeys(device.table, canonical)
        == old(TableKeys(device.table, canonical)) + Keys(missing[..writes], canonical)
    {
      KeysPrefix(missing, writes, canonical);
      TablePush(device.table, Entry(device.nextId, missing[writes]), canonical);
      device.Create(missing[writes]);
      writes := writes + 1;
    }
  }

  /** What an attempt cut off among its deletes leaves. */
  lemma AfterDeletes<J, K>(table: seq<Entry<J>>, have: multiset<K>, want: multiset<K>, kept: seq<Entry<J>>,
      extras: seq<Entry<J>>, n: nat, canonical: J -> K)
    requires n <= |extras| && multiset(table) == multiset(kept) + multiset(extras[n..])
    requires TableKeys(kept, canonical) == have * want && TableKeys(extras, canonical) == have - want
    ensures TableKeys(table, canonical) == have * want + TableKeys(extras[n..], canonical)
    ensures Distance(TableKeys(table, canonical), want) == Distance(have, want) - n
    ensures |table| == |kept| + |extras| - n
  {
    assert multiset(kept + extras[n..]) == multiset(table);
    assert |multiset(table)| == |kept| + |extras[n..]|;
    SameEntriesSameKeys(table, kept + extras[n..], canonical);
    TableConcat(kept, extras[n..], canonical);
    assert extras == extras[..n] + extras[n..];
    TableConcat(extras[..n], extras[n..], canonical);
    DistanceWithSurplus(have, want, TableKeys(extras[n..], canonical));
  }

  /** What an attempt cut off among its creates leaves. */
  lemma AfterCreates<J, K>(now: multiset<K>, have: multiset<K>, want: multiset<K>, missing: seq<J>, n: nat,
        canonical: J -> K)
    requires n <= |missing| && Keys(missing, canonical) == want - have
    requires now == have * want + Keys(missing[..n], canonical)
    ensures Distance(now, want) == |missing| - n
  {
    assert missing == missing[..n] + missing[n..];
    KeysConcat(missing[..n], missing[n..], canonical);
    DistanceWithMade(have, want, Keys(missing[..n], canonical));
  }

  lemma PlanSizes<J, K>(table: seq<Entry<J>>, desired: seq<J>, extras: seq<Entry<J>>, missing: seq<J>,
        kept: seq<Entry<J>>, canonical: J -> K)
    requires Plan(table, desired, extras, missing, kept, canonical)
    ensures |kept| + |extras| == |table| && |kept| + |missing| == |desired|
    ensures Distance(TableKeys(table, canonical), Keys(desired, canonical)) == |extras| + |missing|
  {
    PartsOfWant(TableKeys(table, canonical), Keys(desired, canonical));
    TableCount(table, canonical);
    TableCount(extras, canonical);
    TableCount(kept, canonical);
    KeyCount(missing, canonical);
    KeyCount(desired, canonical);
  }

  ghost predicate Plan<J, K>(table: seq<Entry<J>>, desired: seq<J>, extras: seq<Entry<J>>, missing: seq<J>,
        kept: seq<Entry<J>>, canonical: J -> K) {
    var have, want := TableKeys(table, canonical), Keys(desired, canonical);
    && TableKeys(extras, canonical) == have - want && TableKeys(kept, canonical) == have * want
    && Keys(missing, canonical) == want - have && multiset(extras) + multiset(kept) == multiset(table)
  }

  /** What one attempt on a line that survives `budget` writes makes of a table: every write
      brings it exactly one closer to the desired list; the attempt is complete iff the
      budget covers the distance; the entries that already match (`kept`) are still there;
      and the table never outgrows the larger of what it held and what is desired. */
  ghost predicate Attempt<J, K>(before: seq<Entry<J>>, after: seq<Entry<J>>, desired: seq<J>, canonical: J -> K,
    budget: nat, writes: nat, kept: seq<Entry<J>>)
  {
    var have, want := TableKeys(before, canonical), Keys(desired, canonical);
    && writes == Least(Distance(have, want), budget)
    && Distance(TableKeys(after, canonical), want) == Distance(have, want) - writes
    && TableKeys(kept, canonical) == have * want
    && multiset(kept) <= multiset(before) && multiset(kept) <= multiset(after)
    && (|after| <= |desired| || |after| <= |before|)
  }

  lemma CutOffWhileDeleting<J, K>(before: seq<Entry<J>>, after: seq<Entry<J>>, desired: seq<J>,
        canonical: J -> K, budget: nat, extras: seq<Entry<J>>, missing: seq<J>, kept: seq<Entry<J>>)
    requires Plan(before, desired, extras, missing, kept, canonical) && budget <= |extras|
    requires multiset(after) == multiset(kept) + multiset(extras[budget..])
    ensures Attempt(before, after, desired, canonical, budget, budget, kept)
  {
    PlanSizes(before, desired, extras, missing, kept, canonical);
    AfterDeletes(after, TableKeys(before, canonical), Keys(desired, canonical), kept, extras, budget, canonical);
  }

  lemma CutOffWhileCreating<J, K>(before: seq<Entry<J>>, cleared: seq<Entry<J>>, after: seq<Entry<J>>, desired: seq<J>,
      canonical: J -> K, budget: nat, extras: seq<Entry<J>>, missing: seq<J>, kept: seq<Entry<J>>, created: nat)
    requires Plan(before, desired, extras, missing, kept, canonical) && |extras| <= budget
    requires multiset(cleared) == multiset(kept) && cleared <= after && |after| == |cleared| + created
    requires created == Least(|missing|, budget - |extras|)
    requires TableKeys(after, canonical) == TableKeys(cleared, canonical) + Keys(missing[..created], canonical)
    ensures Attempt(before, after, desired, canonical, budget, |extras| + created, kept)
  {
    PlanSizes(before, desired, extras, missing, kept, canonical);
    SameEntriesSameKeys(cleared, kept, canonical);
    AfterCreates(TableKeys(after, canonical), TableKeys(before, canonical), Keys(desired, canonical), missing, created,
      canonical);
    assert after == cleared + after[|cleared|..];
    assert |multiset(cleared)| == |multiset(kept)|;
  }

  /** One sync attempt. */
  method Sync<J, K(==)>(device: Device<J>, desired: seq<J>, canonical: J -> K, budget: nat)
      returns (done: bool, writes: nat, ghost kept: seq<Entry<J>>)
    requires device.Valid()
    modifies device
    ensures device.Valid()
    ensures Attempt(old(device.table), device.table, desired, canonical, budget, writes, kept)
    ensures done <==> TableKeys(device.table, canonical) == Keys(desired, canonical)
  {
    var extras, left;
    extras, left, kept := FindExtras(device.table, Keys(desired, canonical), canonical);
    var missing := FindMissing(desired, left, canonical);
    ghost var before := device.table;
    assert Plan(before, desired, extras, missing, kept, canonical);
    writes := DeleteExtras(device, extras, budget, kept);
    if writes < |extras| {
      CutOffWhileDeleting(before, device.table, desired, canonical, budget, extras, missing, kept);
      PlanSizes(before, desired, extras, missing, kept, canonical);
      NoDistanceIsEqual(TableKeys(device.table, canonical), Keys(desired, canonical));
      return false, writes, kept;
    }
    assert extras[writes..] == [];
    ghost var cleared := device.table;
    var created := CreateMissing(device, missing, budget - writes, canonical);
    CutOffWhileCreating(before, cleared, device.table, desired, canonical, budget, extras, missing, kept, created);
    PlanSizes(before, desired, extras, missing, kept, canonical);
    NoDistanceIsEqual(TableKeys(device.table, canonical), Keys(desired, canonical));
    return created == |missing|, writes + created, kept;
  }

  function Sum(budgets: seq<nat>): nat {
    if budgets == [] then 0 else Sum(budgets[..|budgets| - 1]) + budgets[|budgets| - 1]
  }

  /** Interrupted attempts add up instead of starting over: after attempts that survive
      `budgets` writes the distance has gone down by their sum, or to zero. */
  method SyncRepeatedly<J, K(==)>(device: Device<J>, desired: seq<J>, canonical: J -> K, budgets: seq<nat>)
    requires device.Valid()
    modifies device
    ensures device.Valid()
    ensures var want := Keys(desired, canonical); var d := old(Distance(TableKeys(device.table, canonical), want));
      && Distance(TableKeys(device.table, canonical), want) == d - Least(d, Sum(budgets))
      && (d <= Sum(budgets) ==> TableKeys(device.table, canonical) == want)
  {
    ghost var want := Keys(desired, canonical);
    ghost var d := Distance(TableKeys(device.table, canonical), want);
    for i := 0 to |budgets|
      invariant device.Valid()
      invariant Distance(TableKeys(device.table, canonical), want) == d - Least(d, Sum(budgets[..i]))
    {
      assert budgets[..i + 1][..i] == budgets[..i];
      var _, _, _ := Sync(device, desired, canonical, budgets[i]);
    }
    assert budgets[..|budgets|] == budgets;
    NoDistanceIsEqual(TableKeys(device.table, canonical), want);
  }
}
