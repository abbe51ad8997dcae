/** Array.prototype.sort and std::sort with a comparator, as a stable insertion sort. */
module Sorting {

  /** What a comparator must be for a sort to mean anything. */
  ghost predicate WeakOrder<T(!new)>(less: (T, T) -> bool) {
    && (forall a, b :: less(a, b) ==> !less(b, a))
    && (forall a, b, c :: less(a, b) ==> less(a, c) || less(c, b))
  }

  ghost predicate NoInversion<T>(s: seq<T>, less: (T, T) -> bool) {
    forall i, j :: 0 <= i < j < |s| ==> !less(s[j], s[i])
  }

  ghost predicate Permutation<T>(a: seq<T>, b: seq<T>) {
    |a| == |b| && multiset(a) == multiset(b)
  }

  lemma SomeElement<T>(s: set<T>) returns (x: T)
    requires s != {}
    ensures x in s
  {
    x :| x in s;
  }

  lemma SameMembers<T>(a: seq<T>, b: seq<T>)
    requires Permutation(a, b)
    ensures forall x :: x in a <==> x in b
  {
    assert forall x :: x in a <==> x in multiset(a);
    assert forall x :: x in b <==> x in multiset(b);
  }

  ghost predicate Distinct<T>(s: seq<T>) {
    forall i, j :: 0 <= i < j < |s| ==> s[i] != s[j]
  }

  /** Two lists together repeat nothing exactly when neither does and they share nothing. */
  lemma DistinctConcat<T>(a: seq<T>, b: seq<T>)
    ensures Distinct(a + b) <==> Distinct(a) && Distinct(b) && forall x :: x in a ==> x !in b
  {
    var s := a + b;
    assert forall i :: 0 <= i < |a| ==> s[i] == a[i];
    assert forall j :: 0 <= j < |b| ==> s[|a| + j] == b[j];
    if Distinct(s) {
      forall i, j | 0 <= i < |a| && 0 <= j < |b|
        ensures a[i] != b[j]
      {
        assert s[i] != s[|a| + j];
      }
      forall i, j | 0 <= i < j < |b|
        ensures b[i] != b[j]
      {
        assert s[|a| + i] != s[|a| + j];
      }
    } else {
      var i, j :| 0 <= i < j < |s| && s[i] == s[j];
      if i < |a| <= j {
        assert s[i] in a && s[j] in b;
      }
    }
  }

  function Flatten<T>(parts: seq<seq<T>>): seq<T> {
    if parts == [] then [] else Flatten(parts[..|parts| - 1]) + parts[|parts| - 1]
  }

  lemma FlattenMore<T>(parts: seq<seq<T>>, part: seq<T>)
    ensures Flatten(parts + [part]) == Flatten(parts) + part
  {
    assert (parts + [part])[..|parts|] == parts;
  }

  lemma {:induction false} FlattenMembers<T>(parts: seq<seq<T>>)
    ensures forall x :: x in Flatten(parts) <==> exists k :: 0 <= k < |parts| && x in parts[k]
  {
    if parts != [] {
      var front := parts[..|parts| - 1];
      FlattenMembers(front);
      assert forall k :: 0 <= k < |front| ==> front[k] == parts[k];
    }
  }

  ghost predicate ShareNothing<T(!new)>(parts: seq<seq<T>>) {
    forall j, k, x :: 0 <= j < k < |parts| && x in parts[j] ==> x !in parts[k]
  }

  /** Joined lists repeat nothing exactly when none does and no two share anything. */
  lemma {:induction false} FlattenDistinct<T(!new)>(parts: seq<seq<T>>)
    ensures Distinct(Flatten(parts)) <==> (forall k :: 0 <= k < |parts| ==> Distinct(parts[k])) && ShareNothing(parts)
  {
    if parts != [] {
      var front, last := parts[..|parts| - 1], parts[|parts| - 1];
      FlattenDistinct(front);
      FlattenMembers(front);
      DistinctConcat(Flatten(front), last);
      assert forall k :: 0 <= k < |front| ==> front[k] == parts[k];
    }
  }

  /** `part` lists what `shows` has of index `k`, each once. */
  ghost predicate Part<T(!new)>(part: seq<T>, k: nat, shows: (nat, T) -> bool) {
    Distinct(part) && forall x :: x in part <==> shows(k, x)
  }

  ghost predicate Parts<T(!new)>(parts: seq<seq<T>>, shows: (nat, T) -> bool) {
    forall k: nat :: k < |parts| ==> Part(parts[k], k, shows)
  }

  lemma OneMorePart<T(!new)>(parts: seq<seq<T>>, part: seq<T>, shows: (nat, T) -> bool)
    requires Parts(parts, shows) && Part(part, |parts|, shows)
    ensures Parts(parts + [part], shows)
  {
  }

  ghost predicate ShownBelow<T>(shows: (nat, T) -> bool, n: nat, x: T) {
    exists k :: 0 <= k < n && shows(k, x)
  }

  ghost predicate ShownTwice<T(!new)>(shows: (nat, T) -> bool, n: nat) {
    exists j, k, x :: 0 <= j < k < n && shows(j, x) && shows(k, x)
  }

  /** Listing index by index lists everything shown, and repeats something exactly when two
      indices show the same. */
  lemma Gathered<T(!new)>(parts: seq<seq<T>>, shows: (nat, T) -> bool)
    requires Parts(parts, shows)
    ensures forall x :: x in Flatten(parts) <==> ShownBelow(shows, |parts|, x)
    ensures Distinct(Flatten(parts)) <==> !ShownTwice(shows, |parts|)
  {
    FlattenMembers(parts);
    FlattenDistinct(parts);
    forall x
      ensures x in Flatten(parts) <==> ShownBelow(shows, |parts|, x)
    {
      if x in Flatten(parts) {
        var k :| 0 <= k < |parts| && x in parts[k];
        assert Part(parts[k], k, shows);
      }
      if k :| 0 <= k < |parts| && shows(k, x) {
        assert Part(parts[k], k, shows);
      }
    }
    if !ShareNothing(parts) {
      var j, k, x :| 0 <= j < k < |parts| && x in parts[j] && x in parts[k];
      assert Part(parts[j], j, shows) && Part(parts[k], k, shows);
    }
    if ShownTwice(shows, |parts|) {
      var j, k, x :| 0 <= j < k < |parts| && shows(j, x) && shows(k, x);
      assert Part(parts[j], j, shows) && Part(parts[k], k, shows);
    }
  }

  lemma {:induction false} DistinctByCount<T>(a: seq<T>)
    ensures Distinct(a) <==> (forall x :: x in a ==> multiset(a)[x] == 1)
  {
    if a != [] {
      var front, last := a[..|a| - 1], a[|a| - 1];
      assert a == front + [last];
      DistinctByCount(front);
      assert forall x :: x in a <==> x in front || x == last;
      if forall x :: x in a ==> multiset(a)[x] == 1 {
        assert multiset(a)[last] == multiset(front)[last] + 1;
      }
    }
  }

  /** A permutation repeats something exactly when the list does. */
  lemma StaysDistinct<T>(a: seq<T>, b: seq<T>)
    requires Permutation(a, b)
    ensures Distinct(a) <==> Distinct(b)
  {
    DistinctByCount(a);
    DistinctByCount(b);
    SameMembers(a, b);
  }

  lemma PutAt<T>(s: seq<T>, p: nat, x: T)
    requires p <= |s|
    ensures Permutation(s[..p] + [x] + s[p..], s + [x])
  {
    assert s == s[..p] + s[p..];
  }

  lemma StaysSorted<T(!new)>(s: seq<T>, p: nat, x: T, less: (T, T) -> bool)
    requires WeakOrder(less) && NoInversion(s, less) && p <= |s|
    requires p > 0 ==> !less(x, s[p - 1])
    requires forall n :: p <= n < |s| ==> less(x, s[n])
    ensures NoInversion(s[..p] + [x] + s[p..], less)
  {
    forall n | 0 <= n < p
      ensures !less(x, s[n])
    {
      assert !less(x, s[p - 1]) && (n < p - 1 ==> !less(s[p - 1], s[n]));
    }
  }

  method Sort<T(!new)>(xs: seq<T>, less: (T, T) -> bool) returns (s: seq<T>)
    requires WeakOrder(less)
    ensures Permutation(xs, s) && NoInversion(s, less)
    ensures forall x :: x in s <==> x in xs
  {
    s := [];
    for i := 0 to |xs|
      invariant Permutation(xs[..i], s) && NoInversion(s, less)
    {
      var p: nat := |s|;
      while p > 0 && less(xs[i], s[p - 1])
        invariant 0 <= p <= |s| && forall n :: p <= n < |s| ==> less(xs[i], s[n])
      {
        p := p - 1;
      }
      StaysSorted(s, p, xs[i], less);
      PutAt(s, p, xs[i]);
      assert xs[..i + 1] == xs[..i] + [xs[i]];
      s := s[..p] + [xs[i]] + s[p..];
    }
    assert xs[..|xs|] == xs;
    SameMembers(xs, s);
  }
}
