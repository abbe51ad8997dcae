/** Paging through the merged history of commands and calls (src/services/history.js): the
    total order, the two per-table cursor conditions, one page, and following the cursor while
    newer rows keep arriving. */
module HistoryPages {
  import opened Common
  import opened Sorting

  datatype Kind = Call | Cmd

  /** A row of one of the two tables; `ts` is the moment that never changes. */
  datatype Item = Item(ts: int, kind: Kind, id: int)

  /** compareItems: newest first, a call before a command, the higher id first. */
  function CompareItems(a: Item, b: Item): int {
    if a.ts != b.ts then (if a.ts < b.ts then 1 else -1)
    else if a.kind != b.kind then (if a.kind == Call then -1 else 1)
    else b.id - a.id
  }

  predicate Earlier(a: Item, b: Item) {
    CompareItems(a, b) < 0
  }

  /** Newest first; of one moment the calls before the commands, and the higher id first. */
  predicate NewestFirst(s: seq<Item>) {
    forall i, j :: 0 <= i < j < |s| ==>
      var a, b := s[i], s[j];
      && a.ts >= b.ts
      && (a.ts == b.ts && b.kind.Call? ==> a.kind.Call?)
      && (a.ts == b.ts && a.kind == b.kind ==> a.id >= b.id)
  }

  lemma OrderIsNewestFirst(s: seq<Item>)
    requires Ascending(s)
    ensures NewestFirst(s)
  {
    forall i, j | 0 <= i < j < |s|
      ensures CompareItems(s[i], s[j]) < 0
    {
      assert Earlier(s[i], s[j]);
    }
  }

  predicate Ascending(s: seq<Item>) {
    forall i, j :: 0 <= i < j < |s| ==> Earlier(s[i], s[j])
  }

  // ---- The conditions of the two queries ----

  predicate CallCondition(c: Item, x: Item) {
    if c.kind == Call then x.ts < c.ts || (x.ts == c.ts && x.id < c.id) else x.ts < c.ts
  }

  predicate CmdCondition(c: Item, x: Item) {
    if c.kind == Call then x.ts <= c.ts else x.ts < c.ts || (x.ts == c.ts && x.id < c.id)
  }

  predicate Passes(cursor: Option<Item>, x: Item) {
    cursor.None? || if x.kind == Call then CallCondition(cursor.value, x) else CmdCondition(cursor.value, x)
  }

  function Rest(cursor: Option<Item>, rows: set<Item>): (rest: set<Item>) {
    set x | x in rows && Passes(cursor, x)
  }

  /** Together the two conditions are "strictly after the cursor in the total order". */
  lemma ConditionsFollowTheOrder(c: Item, x: Item)
    ensures Passes(Some(c), x) <==> Earlier(c, x)
  {
  }

  // ---- The first n rows in order ----

  /** `s` is the first `n` of `rows`, in order. */
  ghost predicate First(s: seq<Item>, rows: set<Item>, n: nat) {
    && Ascending(s) && |s| == Least(n, |rows|) && (forall x :: x in s ==> x in rows)
    && forall x, y :: x in rows && x !in s && y in s ==> Earlier(y, x)
  }

  /** `s` is all of `rows`, in order, each once. */
  ghost predicate Lists(s: seq<Item>, rows: set<Item>) {
    Ascending(s) && forall x :: x in s <==> x in rows
  }

  lemma {:induction false} CardinalityOf(s: seq<Item>, rows: set<Item>)
    requires Ascending(s) && forall x :: x in s <==> x in rows
    ensures |s| == |rows|
  {
    if s != [] {
      forall x
        ensures x in s[1..] <==> x in rows - {s[0]}
      {
        assert x in s[1..] ==> Earlier(s[0], x);
        assert s == [s[0]] + s[1..];
      }
      CardinalityOf(s[1..], rows - {s[0]});
      assert s[0] in rows;
    } else {
      assert forall x :: x in rows ==> x in s;
      assert rows == {};
    }
  }

  /** Fewer rows than asked for means all of them. */
  lemma ShortIsAll(s: seq<Item>, rows: set<Item>, n: nat)
    requires First(s, rows, n) && |rows| <= n
    ensures Lists(s, rows)
  {
    var found := set x | x in s;
    CardinalityOf(s, found);
    SameSize(found, rows);
  }

  lemma SameSize(a: set<Item>, b: set<Item>)
    requires a <= b && |a| == |b|
    ensures a == b
  {
    assert b == a + (b - a);
    assert |b| == |a| + |b - a|;
  }

  /** The k-th of some ordered rows is no earlier than k-th in any ordered list holding them. */
  lemma {:induction false} NoEarlierThan(s: seq<Item>, items: seq<Item>, k: nat, i: nat)
    requires Ascending(s) && Ascending(items) && forall x :: x in s ==> x in items
    requires k < |s| && i < |items| && items[i] == s[k]
    ensures k <= i
  {
    if k > 0 {
      assert s[k - 1] in items;
      var h :| 0 <= h < |items| && items[h] == s[k - 1];
      NoEarlierThan(s, items, k - 1, h);
      assert Earlier(s[k - 1], s[k]);
    }
  }

  // ---- One page ----

  datatype Page = Page(items: seq<Item>, next: Option<Item>)

  function ClampLimit(limit: int): (n: int)
    ensures 1 <= n <= 200
    ensures 1 <= limit <= 200 ==> n == limit
    ensures limit == 0 ==> n == 50
    ensures limit < 0 ==> n == 1
    ensures limit > 200 ==> n == 200
  {
    var asked := if limit == 0 then 50 else limit;
    Least(if asked < 1 then 1 else asked, 200)
  }

  method Query(rows: set<Item>, n: nat) returns (s: seq<Item>)
    ensures First(s, rows, n)
  {
    var left := rows;
    var all: seq<Item> := [];
    while left != {}
      invariant left <= rows && (forall x :: x in all <==> x in rows - left)
      invariant Distinct(all)
      decreases left
    {
      var x :| x in left;
      assert x !in all;
      all, left := all + [x], left - {x};
    }
    var sorted := SortItems(all);
    CardinalityOf(sorted, rows);
    s := sorted[..Least(n, |sorted|)];
    forall x, y | x in rows && x !in s && y in s
      ensures Earlier(y, x)
    {
      assert x in sorted;
      var i :| 0 <= i < |sorted| && sorted[i] == x;
      var j :| 0 <= j < |s| && s[j] == y;
      NotInPrefix(sorted, |s|, x, i);
      assert Earlier(sorted[j], sorted[i]);
    }
  }

  lemma NotInPrefix(s: seq<Item>, n: nat, x: Item, i: nat)
    requires n <= |s| && i < |s| && s[i] == x && x !in s[..n]
    ensures n <= i
  {
    assert forall k :: 0 <= k < n ==> s[k] in s[..n];
  }

  method SortItems(all: seq<Item>) returns (sorted: seq<Item>)
    requires Distinct(all)
    ensures Ascending(sorted) && |sorted| == |all| && forall x :: x in sorted <==> x in all
  {
    sorted := Sort(all, Earlier);
    StaysDistinct(all, sorted);
    forall i, j | 0 <= i < j < |sorted|
      ensures Earlier(sorted[i], sorted[j])
    {
      assert !Earlier(sorted[j], sorted[i]) && sorted[i] != sorted[j];
    }
  }

  /** One row too many from each table is enough to know the first `limit` of both, and
      whether there is more. */
  lemma MergedPrefix(cmds: seq<Item>, calls: seq<Item>, c: set<Item>, d: set<Item>, items: seq<Item>, limit: nat)
    requires First(cmds, c, limit + 1) && First(calls, d, limit + 1) && c !! d
    requires Ascending(items) && |items| == |cmds| + |calls| && forall x :: x in items <==> x in cmds || x in calls
    ensures First(items[..Least(limit, |items|)], c + d, limit)
    ensures |items| > limit <==> |c + d| > limit
  {
    assert |c + d| == |c| + |d|;
    var page := items[..Least(limit, |items|)];
    forall x, y | x in c + d && x !in page && y in page
      ensures Earlier(y, x)
    {
      var j :| 0 <= j < |page| && page[j] == y;
      if x in items {
        var i :| 0 <= i < |items| && items[i] == x;
        NotInPrefix(items, |page|, x, i);
        assert Earlier(items[j], items[i]);
      } else if x in c {
        CutOff(cmds, c, items, limit, x, j);
      } else {
        CutOff(calls, d, items, limit, x, j);
      }
    }
  }

  /** A row that its own query cut off comes after the whole page. */
  lemma CutOff(s: seq<Item>, rows: set<Item>, items: seq<Item>, limit: nat, x: Item, j: nat)
    requires First(s, rows, limit + 1) && x in rows && x !in s
    requires Ascending(items) && (forall y :: y in s ==> y in items) && j < limit && j < |items|
    ensures Earlier(items[j], x)
  {
    if |rows| <= limit + 1 {
      ShortIsAll(s, rows, limit + 1);
    }
    assert |s| == limit + 1;
    assert s[limit] in s && s[limit] in items;
    var i :| 0 <= i < |items| && items[i] == s[limit];
    NoEarlierThan(s, items, limit, i);
    assert Earlier(items[j], items[i]) && Earlier(s[limit], x);
  }

  /** getHistory: the first `limit` rows of both tables after the cursor, and a next cursor,
      the page's last row, exactly when rows remain. */
  method GetHistory(cmds: set<Item>, calls: set<Item>, cursor: Option<Item>, limit: int) returns (page: Page)
    requires (forall x :: x in cmds ==> x.kind == Cmd) && forall x :: x in calls ==> x.kind == Call
    ensures IsPage(page, cmds + calls, cursor, ClampLimit(limit)) && NewestFirst(page.items)
  {
    var n := ClampLimit(limit);
    var a := Query(Rest(cursor, cmds), n + 1);
    var b := Query(Rest(cursor, calls), n + 1);
    assert forall i, j :: 0 <= i < |a| && 0 <= j < |b| ==> a[i].kind == Cmd && b[j].kind == Call by {
      assert forall x :: x in a ==> x.kind == Cmd;
      assert forall x :: x in b ==> x.kind == Call;
    }
    var items := SortItems(a + b);
    MergedPrefix(a, b, Rest(cursor, cmds), Rest(cursor, calls), items, n);
    assert Rest(cursor, cmds + calls) == Rest(cursor, cmds) + Rest(cursor, calls);
    var shown := items[..Least(n, |items|)];
    OrderIsNewestFirst(shown);
    page := Page(shown, if |items| > n then Some(shown[|shown| - 1]) else None);
  }

  ghost predicate IsPage(page: Page, rows: set<Item>, cursor: Option<Item>, limit: nat) {
    var rest := Rest(cursor, rows);
    && limit >= 1 && First(page.items, rest, limit)
    && (page.next.Some? <==> |rest| > limit)
    && (page.next.Some? ==> page.items != [] && page.next.value == page.items[|page.items| - 1])
  }

  // ---- Following the cursor ----

  /** What a reader who starts at `cursor` and follows next_cursor until null is shown, when
      page k is read from the rows `at(k)`. */
  ghost predicate Browse(at: nat -> set<Item>, k: nat, cursor: Option<Item>, limit: nat, pages: seq<Page>)
    decreases |pages|
  {
    && pages != [] && IsPage(pages[0], at(k), cursor, limit)
    && (if pages[0].next.None? then |pages| == 1 else Browse(at, k + 1, pages[0].next, limit, pages[1..]))
  }

  function Shown(pages: seq<Page>): seq<Item> {
    if pages == [] then [] else pages[0].items + Shown(pages[1..])
  }

  /** Rows only arrive, and before the cursor in the order. */
  predicate OnlyNewer(was: set<Item>, now: set<Item>, cursor: Item) {
    was <= now && forall x :: x in now && x !in was ==> Earlier(x, cursor)
  }

  /** Between two pages only rows newer than the cursor arrive. */
  ghost predicate Undisturbed(at: nat -> set<Item>, k: nat, pages: seq<Page>) {
    forall j: nat :: j + 1 < |pages| && pages[j].next.Some? ==> OnlyNewer(at(k + j), at(k + j + 1), pages[j].next.value)
  }

  /** What comes after a cursor is not touched by rows that come before it. */
  lemma NewerRowsAreSkipped(was: set<Item>, now: set<Item>, c: Item)
    requires OnlyNewer(was, now, c)
    ensures Rest(Some(c), now) == Rest(Some(c), was)
  {
    forall x | x in now && Passes(Some(c), x)
      ensures x in was
    {
      ConditionsFollowTheOrder(c, x);
    }
  }

  /** After a page that has a next cursor, what remains is what the page did not show. */
  lemma NextRest(page: Page, rows: set<Item>, cursor: Option<Item>, limit: nat)
    requires IsPage(page, rows, cursor, limit) && page.next.Some?
    ensures page.next.value in rows
      && forall x :: x in Rest(page.next, rows) <==> x in Rest(cursor, rows) && x !in page.items
    ensures |Rest(page.next, rows)| < |Rest(cursor, rows)|
  {
    var last := page.next.value;
    assert last in page.items && last in Rest(cursor, rows);
    forall x
      ensures x in Rest(page.next, rows) <==> x in Rest(cursor, rows) && x !in page.items
    {
      ConditionsFollowTheOrder(last, x);
      if x in page.items {
        var i :| 0 <= i < |page.items| && page.items[i] == x;
        assert i < |page.items| - 1 ==> Earlier(x, last);
      } else if x in Rest(page.next, rows) {
        PassesTwice(cursor, last, x);
      }
    }
    Smaller(Rest(page.next, rows), Rest(cursor, rows), last);
  }

  lemma PassesTwice(cursor: Option<Item>, c: Item, x: Item)
    requires Passes(cursor, c) && Passes(Some(c), x)
    ensures Passes(cursor, x)
  {
  }

  lemma Smaller(a: set<Item>, b: set<Item>, x: Item)
    requires a <= b && x in b && x !in a
    ensures |a| < |b|
  {
    assert a <= b - {x};
    SubsetSize(a, b - {x});
  }

  lemma SubsetSize(a: set<Item>, b: set<Item>)
    requires a <= b
    ensures |a| <= |b|
  {
    assert b == a + (b - a);
    assert |b| == |a| + |b - a|;
  }

  lemma Joined(page: seq<Item>, rest: seq<Item>, all: set<Item>, left: set<Item>, limit: nat)
    requires First(page, all, limit) && Lists(rest, left)
    requires forall x :: x in left <==> x in all && x !in page
    ensures Lists(page + rest, all)
  {
    forall i, j | 0 <= i < j < |page + rest|
      ensures Earlier((page + rest)[i], (page + rest)[j])
    {
      if i < |page| <= j {
        assert page[i] in page && rest[j - |page|] in rest;
      }
    }
  }

  lemma {:induction false} BrowseFrom(at: nat -> set<Item>, k: nat, cursor: Option<Item>, limit: nat, pages: seq<Page>)
    requires Browse(at, k, cursor, limit, pages) && Undisturbed(at, k, pages)
    ensures Lists(Shown(pages), Rest(cursor, at(k)))
    decreases |pages|
  {
    var page := pages[0];
    if page.next.None? {
      ShortIsAll(page.items, Rest(cursor, at(k)), limit);
      assert pages[1..] == [] && Shown(pages) == page.items;
    } else {
      NextRest(page, at(k), cursor, limit);
      assert OnlyNewer(at(k + 0), at(k + 0 + 1), page.next.value);
      NewerRowsAreSkipped(at(k), at(k + 1), page.next.value);
      LaterPages(at, k, pages);
      BrowseFrom(at, k + 1, page.next, limit, pages[1..]);
      Joined(page.items, Shown(pages[1..]), Rest(cursor, at(k)), Rest(page.next, at(k)), limit);
    }
  }

  lemma LaterPages(at: nat -> set<Item>, k: nat, pages: seq<Page>)
    requires Undisturbed(at, k, pages) && pages != []
    ensures Undisturbed(at, k + 1, pages[1..])
  {
    forall j: nat | j + 1 < |pages[1..]| && pages[1..][j].next.Some?
      ensures OnlyNewer(at(k + 1 + j), at(k + 1 + j + 1), pages[1..][j].next.value)
    {
      assert OnlyNewer(at(k + (j + 1)), at(k + (j + 1) + 1), pages[j + 1].next.value);
    }
  }

  /** Following the cursor until null shows every row that was there at the start exactly
      once and in order, for any limit, whatever rows newer than the cursor arrive between
      pages. */
  lemma EveryRowOnce(at: nat -> set<Item>, limit: nat, pages: seq<Page>)
    requires Browse(at, 0, None, limit, pages) && Undisturbed(at, 0, pages)
    ensures Lists(Shown(pages), at(0)) && NewestFirst(Shown(pages))
  {
    BrowseFrom(at, 0, None, limit, pages);
    OrderIsNewestFirst(Shown(pages));
    assert Rest(None, at(0)) == at(0);
  }

  /** The cursor a reader holds after `j` more pages. */
  function CursorAfter(read: (nat, Option<Item>) -> Page, k: nat, cursor: Option<Item>, j: nat): Option<Item>
    decreases j
  {
    if j == 0 then cursor else CursorAfter(read, k + 1, read(k, cursor).next, j - 1)
  }

  /** Only rows newer than the cursor arrive after the reader's j-th page. */
  predicate CalmAt(at: nat -> set<Item>, read: (nat, Option<Item>) -> Page, k: nat, cursor: Option<Item>, j: nat) {
    var held := CursorAfter(read, k, cursor, j + 1);
    held.Some? ==> OnlyNewer(at(k + j), at(k + j + 1), held.value)
  }

  ghost predicate Calm(at: nat -> set<Item>, read: (nat, Option<Item>) -> Page, k: nat, cursor: Option<Item>) {
    forall j: nat :: CalmAt(at, read, k, cursor, j)
  }

  lemma CalmNext(at: nat -> set<Item>, read: (nat, Option<Item>) -> Page, k: nat, cursor: Option<Item>)
    requires Calm(at, read, k, cursor)
    ensures Calm(at, read, k + 1, read(k, cursor).next)
  {
    var later, next := k + 1, read(k, cursor).next;
    forall j: nat
      ensures CalmAt(at, read, later, next, j)
    {
      assert CalmAt(at, read, k, cursor, j + 1);
      assert k + (j + 1) == k + 1 + j;
    }
  }

  /** And the null comes: a reader who is given a page each time gets to the end. */
  lemma {:induction false} BrowsingEnds(at: nat -> set<Item>, k: nat, cursor: Option<Item>, limit: nat,
      read: (nat, Option<Item>) -> Page) returns (pages: seq<Page>)
    requires Calm(at, read, k, cursor) && forall n: nat, c :: IsPage(read(n, c), at(n), c, limit)
    ensures Browse(at, k, cursor, limit, pages)
    decreases |Rest(cursor, at(k))|
  {
    var page := read(k, cursor);
    pages := [page];
    if page.next.Some? {
      NextRest(page, at(k), cursor, limit);
      assert CalmAt(at, read, k, cursor, 0) && CursorAfter(read, k, cursor, 1) == page.next;
      NewerRowsAreSkipped(at(k), at(k + 1), page.next.value);
      CalmNext(at, read, k, cursor);
      var more := BrowsingEnds(at, k + 1, page.next, limit, read);
      pages := [page] + more;
      assert pages[1..] == more;
    }
  }
}
