/** Keyset pagination over any strict total order: each request asks for the first `size + 1` rows
    after a cursor, returns at most `size` of them, and hands out the last one returned as the next
    cursor when there was one more. The rows present may change between requests. */
module Keyset {
  import opened Wrappers

  predicate Irreflexive<T>(less: (T, T) -> bool, x: T) {
    !less(x, x)
  }

  predicate Transitive<T>(less: (T, T) -> bool, x: T, y: T, z: T) {
    less(x, y) && less(y, z) ==> less(x, z)
  }

  predicate Total<T(==)>(less: (T, T) -> bool, x: T, y: T) {
    x != y ==> less(x, y) || less(y, x)
  }

  /** The laws of the order, each used in a proof where it is named. */
  ghost predicate StrictTotalOrder<T(!new)>(less: (T, T) -> bool) {
    && (forall x {:trigger Irreflexive(less, x)} :: Irreflexive(less, x))
    && (forall x, y, z {:trigger Transitive(less, x, y, z)} :: Transitive(less, x, y, z))
    && (forall x, y {:trigger Total(less, x, y)} :: Total(less, x, y))
  }

  ghost predicate Ascending<T>(less: (T, T) -> bool, s: seq<T>) {
    forall i, j | 0 <= i < j < |s| :: less(s[i], s[j])
  }

  ghost predicate IsFirst<T>(less: (T, T) -> bool, s: set<T>, x: T) {
    x in s && forall y <- s :: y != x ==> less(x, y)
  }

  lemma FirstExists<T(!new)>(less: (T, T) -> bool, s: set<T>)
    requires StrictTotalOrder(less) && s != {}
    ensures exists x :: IsFirst(less, s, x)
  {
    var x :| x in s;
    if s == {x} {
      assert IsFirst(less, s, x);
    } else {
      FirstExists(less, s - {x});
      var y :| IsFirst(less, s - {x}, y);
      assert Total(less, x, y);
      if less(x, y) {
        forall z | z in s && z != x ensures less(x, z) {
          assert Transitive(less, x, y, z);
        }
        assert IsFirst(less, s, x);
      } else {
        assert IsFirst(less, s, y);
      }
    }
  }

  ghost function First<T(!new)>(less: (T, T) -> bool, s: set<T>): (x: T)
    requires StrictTotalOrder(less) && s != {}
    ensures IsFirst(less, s, x)
  {
    FirstExists(less, s);
    var x :| IsFirst(less, s, x);
    x
  }

  /** `ORDER BY ... LIMIT n`. */
  ghost function Sorted<T(!new)>(less: (T, T) -> bool, s: set<T>, n: nat): seq<T>
    requires StrictTotalOrder(less)
  {
    if n == 0 || s == {} then []
    else
      var x := First(less, s);
      [x] + Sorted(less, s - {x}, n - 1)
  }

  /** The rows behind a cursor: the keyset clause of the query. */
  ghost function Behind<T>(less: (T, T) -> bool, s: set<T>, cursor: Option<T>): set<T> {
    if cursor.None? then s else set x | x in s && less(cursor.value, x)
  }

  ghost function Query<T(!new)>(less: (T, T) -> bool, s: set<T>, cursor: Option<T>, limit: nat): seq<T>
    requires StrictTotalOrder(less)
  {
    Sorted(less, Behind(less, s, cursor), limit)
  }

  type Size = n: nat | n >= 1 witness 1

  datatype Page<T> = Page(items: seq<T>, next: Option<T>)

  /** The limit+1 probe: a row too many means there is another page. */
  function Cut<T>(rows: seq<T>, size: Size): Page<T> {
    if |rows| > size then Page(rows[..size], Some(rows[size - 1])) else Page(rows, None)
  }

  ghost function Fetch<T(!new)>(less: (T, T) -> bool, s: set<T>, cursor: Option<T>, size: Size): Page<T>
    requires StrictTotalOrder(less)
  {
    Cut(Query(less, s, cursor, size + 1), size)
  }

  // ----- one query -----

  lemma {:induction false} SortedFacts<T(!new)>(less: (T, T) -> bool, s: set<T>, n: nat)
    requires StrictTotalOrder(less)
    ensures Ascending(less, Sorted(less, s, n))
    ensures |Sorted(less, s, n)| == if n < |s| then n else |s|
    ensures forall x <- Sorted(less, s, n) :: x in s
    ensures forall x <- s, y <- Sorted(less, s, n) :: x !in Sorted(less, s, n) ==> less(y, x)
    ensures |s| <= n ==> forall x <- s :: x in Sorted(less, s, n)
    decreases n
  {
    if n != 0 && s != {} {
      var x := First(less, s);
      var rest := Sorted(less, s - {x}, n - 1);
      SortedFacts(less, s - {x}, n - 1);
      var all := Sorted(less, s, n);
      assert all == [x] + rest;
      forall i, j | 0 <= i < j < |all| ensures less(all[i], all[j]) {
        assert all[j] == rest[j - 1] && rest[j - 1] in s - {x};
      }
      forall z, y | z in s && y in all && z !in all ensures less(y, z) {
        assert z in s - {x} && (y == x || y in rest);
      }
    }
  }

  ghost predicate Lists<T>(list: seq<T>, s: set<T>) {
    s == set x | x in list
  }

  lemma AscendingHead<T(!new)>(less: (T, T) -> bool, s: set<T>, list: seq<T>)
    requires StrictTotalOrder(less) && Ascending(less, list) && Lists(list, s) && list != []
    ensures s != {} && list[0] == First(less, s)
    ensures Ascending(less, list[1..]) && Lists(list[1..], s - {list[0]})
  {
    assert list[0] in s;
    var first := First(less, s);
    var i :| 0 <= i < |list| && list[i] == first;
    assert Transitive(less, first, list[0], first) && Irreflexive(less, first);
    forall y ensures y in list[1..] <==> y in s - {list[0]} {
      if y in list[1..] {
        var j :| 1 <= j < |list| && list[j] == y;
        assert Irreflexive(less, y);
      }
    }
  }

  lemma SortedHead<T(!new)>(less: (T, T) -> bool, s: set<T>, list: seq<T>, n: nat)
    requires StrictTotalOrder(less) && s != {} && n > 0 && list != [] && list[0] == First(less, s)
    requires list[1..] == Sorted(less, s - {list[0]}, n - 1)
    ensures list == Sorted(less, s, n)
  {
    assert list == [list[0]] + list[1..];
  }

  /** An ascending list of a whole set is the sorted list of that set. */
  lemma {:induction false} SortedUnique<T(!new)>(less: (T, T) -> bool, s: set<T>, list: seq<T>, n: nat)
    requires StrictTotalOrder(less) && Ascending(less, list) && Lists(list, s) && |s| <= n
    ensures list == Sorted(less, s, n)
    decreases n
  {
    if list == [] {
    } else {
      AscendingHead(less, s, list);
      SortedUnique(less, s - {list[0]}, list[1..], n - 1);
      SortedHead(less, s, list, n);
    }
  }

  // ----- a client that keeps asking -----

  /** One request: the rows it met and the page size it asked for. */
  datatype Visit<T> = Visit(rows: set<T>, size: Size)

  /** What a client has received after its requests met the given row sets, one per request; it
      stops at the first page without a next cursor. */
  ghost function Browse<T(!new)>(less: (T, T) -> bool, visits: seq<Visit<T>>, cursor: Option<T>): seq<T>
    requires StrictTotalOrder(less)
  {
    if visits == [] then []
    else
      var page := Fetch(less, visits[0].rows, cursor, visits[0].size);
      if page.next.None? then page.items
      else page.items + Browse(less, visits[1..], page.next)
  }

  /** How many pages that took, and whether the last of them was the end of the list. */
  ghost function Pages<T(!new)>(less: (T, T) -> bool, visits: seq<Visit<T>>, cursor: Option<T>): nat
    requires StrictTotalOrder(less)
  {
    if visits == [] then 0
    else
      var page := Fetch(less, visits[0].rows, cursor, visits[0].size);
      if page.next.None? then 1 else 1 + Pages(less, visits[1..], page.next)
  }

  ghost predicate ReachesEnd<T(!new)>(less: (T, T) -> bool, visits: seq<Visit<T>>, cursor: Option<T>)
    requires StrictTotalOrder(less)
  {
    visits != [] &&
    var page := Fetch(less, visits[0].rows, cursor, visits[0].size);
    page.next.None? || ReachesEnd(less, visits[1..], page.next)
  }

  ghost predicate After<T>(less: (T, T) -> bool, cursor: Option<T>, x: T) {
    cursor.None? || less(cursor.value, x)
  }

  lemma FetchFacts<T(!new)>(less: (T, T) -> bool, s: set<T>, cursor: Option<T>, size: Size)
    requires StrictTotalOrder(less)
    ensures var page := Fetch(less, s, cursor, size);
            && Ascending(less, page.items)
            && (forall x <- page.items :: x in s && After(less, cursor, x))
            && (page.next.None? ==> forall x <- s :: After(less, cursor, x) ==> x in page.items)
            && (page.next.Some? ==>
                  && |page.items| == size && page.next.value == page.items[size - 1]
                  && (forall x <- s :: After(less, cursor, x) && x !in page.items ==> less(page.next.value, x)))
  {
    var behind := Behind(less, s, cursor);
    var rows := Query(less, s, cursor, size + 1);
    var page := Fetch(less, s, cursor, size);
    assert page == Cut(rows, size);
    SortedFacts(less, behind, size + 1);
    forall x | x in page.items ensures x in s && After(less, cursor, x) {
      assert x in rows && x in behind;
    }
    if page.next.None? {
      assert page.items == rows;
      forall x | x in s && After(less, cursor, x) ensures x in page.items {
        assert x in behind;
      }
    } else {
      assert page.items == rows[..size] && page.next.value == rows[size - 1];
      assert forall i | 0 <= i < size :: rows[i] == page.items[i];
      forall x | x in s && After(less, cursor, x) && x !in page.items ensures less(page.next.value, x) {
        assert x in behind && rows[size - 1] in rows;
        if x in rows {
          var i :| 0 <= i < |rows| && rows[i] == x;
          assert size <= i;
        }
      }
    }
  }

  lemma LastIsGreatest<T(!new)>(less: (T, T) -> bool, list: seq<T>, x: T)
    requires Ascending(less, list) && x in list
    ensures x == list[|list| - 1] || less(x, list[|list| - 1])
  {
    var i :| 0 <= i < |list| && list[i] == x;
  }

  /** However rows come and go between requests, the client receives a strictly ascending list, so
      no row twice, and only rows that were present when they were returned. */
  lemma {:induction false} NeverRepeats<T(!new)>(less: (T, T) -> bool, visits: seq<Visit<T>>, cursor: Option<T>)
    requires StrictTotalOrder(less)
    ensures Ascending(less, Browse(less, visits, cursor))
    ensures forall x <- Browse(less, visits, cursor) :: After(less, cursor, x) && exists v <- visits :: x in v.rows
    decreases |visits|
  {
    if visits == [] {
    } else {
      FetchFacts(less, visits[0].rows, cursor, visits[0].size);
      var page := Fetch(less, visits[0].rows, cursor, visits[0].size);
      assert visits[0] in visits;
      if page.next.Some? {
        NeverRepeats(less, visits[1..], page.next);
        var rest := Browse(less, visits[1..], page.next);
        var all := Browse(less, visits, cursor);
        assert all == page.items + rest;
        forall i, j | 0 <= i < j < |all| ensures less(all[i], all[j]) {
          if i < |page.items| <= j {
            assert page.items[i] in page.items && rest[j - |page.items|] in rest;
            LastIsGreatest(less, page.items, page.items[i]);
            assert Transitive(less, page.items[i], page.next.value, rest[j - |page.items|]);
          }
        }
        forall x | x in all ensures After(less, cursor, x) && exists v <- visits :: x in v.rows {
          if x in rest {
            assert page.next.value in page.items;
            if cursor.Some? {
              assert Transitive(less, cursor.value, page.next.value, x);
            }
            var v :| v in visits[1..] && x in v.rows;
            assert v in visits;
          } else {
            assert x in page.items;
          }
        }
      }
    }
  }

  /** A client that reaches the end has received every row that was there all along. */
  lemma {:induction false} NeverMisses<T(!new)>(less: (T, T) -> bool, visits: seq<Visit<T>>, cursor: Option<T>, x: T)
    requires StrictTotalOrder(less) && ReachesEnd(less, visits, cursor)
    requires After(less, cursor, x) && forall v <- visits :: x in v.rows
    ensures x in Browse(less, visits, cursor)
    decreases |visits|
  {
    FetchFacts(less, visits[0].rows, cursor, visits[0].size);
    var page := Fetch(less, visits[0].rows, cursor, visits[0].size);
    assert visits[0] in visits;
    if page.next.Some? && x !in page.items {
      NeverMisses(less, visits[1..], page.next, x);
    }
  }

  // ----- rows that do not change -----

  function PagesFor(n: nat, size: Size): nat
  {
    if n <= size then 1 else 1 + PagesFor(n - size, size)
  }

  /** The ceiling of `n / size`: enough pages, and one fewer would not do; and one for no rows at all. */
  lemma {:induction false} PagesForCeiling(n: nat, size: Size)
    ensures PagesFor(n, size) * size >= n
    ensures n > 0 ==> (PagesFor(n, size) - 1) * size < n
    ensures n == 0 ==> PagesFor(n, size) == 1
    decreases n
  {
    if n <= size {
      assert (PagesFor(n, size) - 1) * size == 0;
    } else {
      var p := PagesFor(n - size, size);
      PagesForCeiling(n - size, size);
      assert (p + 1) * size == p * size + size && (p - 1) * size == p * size - size;
    }
  }

  ghost predicate Still<T(!new)>(visits: seq<Visit<T>>, s: set<T>, size: Size) {
    forall i | 0 <= i < |visits| :: visits[i] == Visit(s, size)
  }

  lemma {:induction false} StaticPages<T(!new)>(less: (T, T) -> bool, visits: seq<Visit<T>>, s: set<T>,
                                                    cursor: Option<T>, size: Size)
    requires StrictTotalOrder(less) && Still(visits, s, size)
    requires |visits| >= PagesFor(|Behind(less, s, cursor)|, size)
    ensures ReachesEnd(less, visits, cursor)
    ensures Pages(less, visits, cursor) == PagesFor(|Behind(less, s, cursor)|, size)
    decreases |visits|
  {
    SortedFacts(less, Behind(less, s, cursor), size + 1);
    var page := Fetch(less, s, cursor, size);
    if page.next.Some? {
      RemainingAfterPage(less, s, cursor, size);
      StaticPages(less, visits[1..], s, page.next, size);
    }
  }

  lemma DistinctSize<T(!new)>(less: (T, T) -> bool, list: seq<T>)
    requires StrictTotalOrder(less) && Ascending(less, list)
    ensures |set x | x in list| == |list|
  {
    if list != [] {
      var init, last := list[..|list| - 1], list[|list| - 1];
      DistinctSize(less, init);
      assert (set x | x in list) == (set x | x in init) + {last};
      assert Irreflexive(less, last);
      assert last !in init;
    }
  }

  lemma RemainingAfterPage<T(!new)>(less: (T, T) -> bool, s: set<T>, cursor: Option<T>, size: Size)
    requires StrictTotalOrder(less) && Fetch(less, s, cursor, size).next.Some?
    ensures var page := Fetch(less, s, cursor, size);
            |Behind(less, s, page.next)| == |Behind(less, s, cursor)| - size
  {
    var page := Fetch(less, s, cursor, size);
    var returned := set x | x in page.items;
    var behind := Behind(less, s, cursor);
    FetchFacts(less, s, cursor, size);
    DistinctSize(less, page.items);
    assert returned <= behind && page.next.value in page.items;
    forall x | x in page.items ensures !less(page.next.value, x) {
      LastIsGreatest(less, page.items, x);
      assert Irreflexive(less, x) && Transitive(less, x, page.next.value, x);
    }
    forall x | x in Behind(less, s, page.next) ensures x in behind {
      if cursor.Some? {
        assert Transitive(less, cursor.value, page.next.value, x);
      }
    }
    assert Behind(less, s, page.next) == behind - returned;
  }

  /** On rows that do not change the pages concatenate to the whole sorted list, and there are
      exactly as many as needed: the ceiling of count over size, and one for an empty list. */
  lemma StaticList<T(!new)>(less: (T, T) -> bool, visits: seq<Visit<T>>, s: set<T>, size: Size)
    requires StrictTotalOrder(less) && Still(visits, s, size)
    requires |visits| >= PagesFor(|s|, size)
    ensures Browse(less, visits, None) == Sorted(less, s, |s|)
    ensures Ascending(less, Browse(less, visits, None)) && Lists(Browse(less, visits, None), s)
    ensures Pages(less, visits, None) == PagesFor(|s|, size)
  {
    StaticPages(less, visits, s, None, size);
    NeverRepeats(less, visits, None);
    var all := Browse(less, visits, None);
    forall x ensures x in all <==> x in s {
      if x in s {
        NeverMisses(less, visits, None, x);
      }
    }
    assert Lists(all, s);
    SortedUnique(less, s, all, |s|);
  }
}
