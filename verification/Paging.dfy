/** The three lists that page by keyset: message history, matches and discovery candidates. Each has
    its own SQL order and cursor clause; all three are instances of `Keyset`. */
module Paging {
  import opened Wrappers
  import opened Uuids
  import Keyset

  // ----- page sizes -----

  datatype Config = Config(dailySwipeLimit: int, defaultPageSize: int, maxPageSize: int)

  /** The defaults of the matching service. */
  function WithDefaults(c: Config): Config {
    var limit := if c.dailySwipeLimit <= 0 then 100 else c.dailySwipeLimit;
    var most := if c.maxPageSize <= 0 || c.maxPageSize > 50 then 50 else c.maxPageSize;
    var usual := if c.defaultPageSize <= 0 || c.defaultPageSize > most then 20 else c.defaultPageSize;
    Config(limit, usual, most)
  }

  function PageLimit(c: Config, requested: int): Option<int> {
    if requested < 0 || requested > c.maxPageSize then None
    else if requested == 0 then Some(c.defaultPageSize)
    else Some(requested)
  }

  /** The page size of the messaging service. */
  function NormalizePageSize(limit: int): (size: Option<nat>)
    ensures size.Some? ==> 1 <= size.value <= 100
    ensures size.None? <==> limit < 0 || limit > 100
  {
    if limit == 0 then Some(30)
    else if limit < 0 || limit > 100 then None
    else Some(limit)
  }

  /** Every accepted request gets a page of at least one row, but the maximum is respected only when
      the default need not be replaced or the maximum leaves room for twenty: with a configured
      maximum below twenty and no usable default, a request without a size gets more than it. */
  lemma DefaultWithinMaximum(c: Config, requested: int)
    ensures PageLimit(WithDefaults(c), requested).Some? ==> PageLimit(WithDefaults(c), requested).value >= 1
    ensures (forall r :: PageLimit(WithDefaults(c), r).Some? ==>
                           PageLimit(WithDefaults(c), r).value <= WithDefaults(c).maxPageSize)
       <==> !(1 <= c.maxPageSize < 20) || 1 <= c.defaultPageSize <= c.maxPageSize
  {
    assert PageLimit(WithDefaults(c), 0) == Some(WithDefaults(c).defaultPageSize);
  }

  /** What the defaults make of a configuration: a hundred swipes a day, at most fifty rows a page, twenty by
      default, wherever a setting is missing or out of range. */
  lemma DefaultsExactly(c: Config)
    ensures var d := WithDefaults(c);
            && (c.dailySwipeLimit >= 1 ==> d.dailySwipeLimit == c.dailySwipeLimit)
            && (c.dailySwipeLimit <= 0 ==> d.dailySwipeLimit == 100)
            && (1 <= c.maxPageSize <= 50 ==> d.maxPageSize == c.maxPageSize)
            && (!(1 <= c.maxPageSize <= 50) ==> d.maxPageSize == 50)
            && (1 <= c.defaultPageSize <= d.maxPageSize ==> d.defaultPageSize == c.defaultPageSize)
            && (!(1 <= c.defaultPageSize <= d.maxPageSize) ==> d.defaultPageSize == 20)
  {
  }

  /** A requested size within the maximum is granted as it is, no size gets the default, all else is refused. */
  lemma PageLimitExactly(c: Config, requested: int)
    ensures 1 <= requested <= c.maxPageSize ==> PageLimit(c, requested) == Some(requested)
    ensures requested == 0 && c.maxPageSize >= 0 ==> PageLimit(c, requested) == Some(c.defaultPageSize)
    ensures requested < 0 || requested > c.maxPageSize ==> PageLimit(c, requested) == None
  {
  }

  /** The same of the messaging service: thirty by default, at most a hundred. */
  lemma NormalizedExactly(limit: int)
    ensures 1 <= limit <= 100 ==> NormalizePageSize(limit) == Some(limit)
    ensures limit == 0 ==> NormalizePageSize(limit) == Some(30)
    ensures limit < 0 || limit > 100 ==> NormalizePageSize(limit) == None
  {
  }

  /** For every configured maximum below twenty without a default: a request without a size gets twenty. */
  lemma DefaultExceedsMaximum(most: int, limit: int)
    requires 1 <= most < 20
    ensures var c := WithDefaults(Config(limit, 0, most));
            c.maxPageSize == most && PageLimit(c, 0) == Some(20)
  {
  }

  // ----- newest first: messages and matches -----

  datatype Dated = Dated(at: int, id: Uuid)

  /** `ORDER BY at DESC, id DESC`. */
  predicate Newer(a: Dated, b: Dated) {
    a.at > b.at || (a.at == b.at && Less(b.id, a.id))
  }

  /** The cursor clause of both queries. */
  predicate DatedClause(cursor: Option<Dated>, row: Dated) {
    cursor.None? || row.at < cursor.value.at || (row.at == cursor.value.at && Less(row.id, cursor.value.id))
  }

  lemma NewerIsOrder()
    ensures Keyset.StrictTotalOrder(Newer)
  {
    forall x ensures Keyset.Irreflexive(Newer, x) {
      OctetsTotal(x.id, x.id);
    }
    forall x, y ensures Keyset.Total(Newer, x, y) {
      OctetsTotal(x.id, y.id);
    }
    forall x, y, z ensures Keyset.Transitive(Newer, x, y, z) {
      if Newer(x, y) && Newer(y, z) && x.at == z.at {
        OctetsTransitive(z.id, y.id, x.id);
      }
    }
  }

  datatype Message = Message(matchId: Uuid, sender: Uuid, createdAt: int, deleted: bool)

  function VisibleMessages(table: map<Uuid, Message>, m: Uuid): set<Dated> {
    set id | id in table && table[id].matchId == m && !table[id].deleted :: Dated(table[id].createdAt, id)
  }

  ghost function ListDated(rows: set<Dated>, cursor: Option<Dated>, limit: nat): seq<Dated> {
    NewerIsOrder();
    Keyset.Sorted(Newer, (set row | row in rows && DatedClause(cursor, row)), limit)
  }

  /** One request: ask for one row more than the page and hand out a cursor when it is there. */
  ghost function DatedPage(rows: set<Dated>, cursor: Option<Dated>, size: Keyset.Size): Keyset.Page<Dated>
  {
    var listed := ListDated(rows, cursor, size + 1);
    if |listed| > size then Keyset.Page(listed[..size], Some(listed[..size][size - 1]))
    else Keyset.Page(listed, None)
  }

  lemma DatedPageIsFetch(rows: set<Dated>, cursor: Option<Dated>, size: Keyset.Size)
    ensures Keyset.StrictTotalOrder(Newer)
    ensures DatedPage(rows, cursor, size) == Keyset.Fetch(Newer, rows, cursor, size)
  {
    NewerIsOrder();
    assert (set row | row in rows && DatedClause(cursor, row)) == Keyset.Behind(Newer, rows, cursor);
  }

  type Visits = seq<Keyset.Visit<Dated>>

  /** The rows a client receives that follows the cursors. */
  ghost function DatedRead(visits: Visits, cursor: Option<Dated>): seq<Dated> {
    if visits == [] then []
    else
      var page := DatedPage(visits[0].rows, cursor, visits[0].size);
      page.items + if page.next.None? then [] else DatedRead(visits[1..], page.next)
  }

  /** How many requests that took. */
  ghost function DatedPages(visits: Visits, cursor: Option<Dated>): nat {
    if visits == [] then 0
    else
      var next := DatedPage(visits[0].rows, cursor, visits[0].size).next;
      if next.None? then 1 else 1 + DatedPages(visits[1..], next)
  }

  ghost predicate DatedEnds(visits: Visits, cursor: Option<Dated>) {
    visits != [] &&
    var next := DatedPage(visits[0].rows, cursor, visits[0].size).next;
    next.None? || DatedEnds(visits[1..], next)
  }

  lemma {:induction false} DatedReadIsBrowse(visits: Visits, cursor: Option<Dated>)
    ensures Keyset.StrictTotalOrder(Newer)
    ensures DatedRead(visits, cursor) == Keyset.Browse(Newer, visits, cursor)
    ensures DatedEnds(visits, cursor) == Keyset.ReachesEnd(Newer, visits, cursor)
    ensures DatedPages(visits, cursor) == Keyset.Pages(Newer, visits, cursor)
    decreases |visits|
  {
    NewerIsOrder();
    if visits == [] {
    } else {
      DatedPageIsFetch(visits[0].rows, cursor, visits[0].size);
      var page := DatedPage(visits[0].rows, cursor, visits[0].size);
      if page.next.Some? {
        DatedReadIsBrowse(visits[1..], page.next);
      } else {
        assert page.items + [] == page.items;
      }
    }
  }

  /** What a client following the cursors is promised, whatever is inserted, deleted or unmatched
      between its requests: no row twice, newest first, and at the end no row that was always there missed. */
  lemma DatedReadExactlyOnce(visits: Visits, x: Dated)
    ensures var read := DatedRead(visits, None);
            && (forall i, j | 0 <= i < j < |read| ::
                  && read[i] != read[j]
                  && (read[i].at > read[j].at || (read[i].at == read[j].at && Less(read[j].id, read[i].id))))
            && (DatedEnds(visits, None) && (forall v <- visits :: x in v.rows) ==> multiset(read)[x] == 1)
  {
    DatedReadIsBrowse(visits, None);
    Keyset.NeverRepeats(Newer, visits, None);
    var read := DatedRead(visits, None);
    forall i, j | 0 <= i < j < |read| ensures Newer(read[i], read[j]) && read[i] != read[j] {
      assert Keyset.Irreflexive(Newer, read[i]);
    }
    if DatedEnds(visits, None) && (forall v <- visits :: x in v.rows) {
      Keyset.NeverMisses(Newer, visits, None, x);
      OnceInDistinct(read, x);
    }
  }

  lemma OnceInDistinct<T>(list: seq<T>, x: T)
    requires x in list && forall i, j | 0 <= i < j < |list| :: list[i] != list[j]
    ensures multiset(list)[x] == 1
  {
    var i :| 0 <= i < |list| && list[i] == x;
    assert list == list[..i] + [x] + list[i + 1..];
    assert x !in list[..i] && x !in list[i + 1..];
  }

  /** One request for history: the table it met and its page size. */
  datatype HistoryRequest = HistoryRequest(table: map<Uuid, Message>, size: Keyset.Size)

  lemma HistoryExactlyOnce(requests: seq<HistoryRequest>, m: Uuid, id: Uuid, at: int)
    requires forall q <- requests ::
               id in q.table && q.table[id].matchId == m && !q.table[id].deleted && q.table[id].createdAt == at
    ensures var visits := seq(|requests|, i requires 0 <= i < |requests| =>
                                Keyset.Visit(VisibleMessages(requests[i].table, m), requests[i].size));
            DatedEnds(visits, None) ==> multiset(DatedRead(visits, None))[Dated(at, id)] == 1
  {
    var visits := seq(|requests|, i requires 0 <= i < |requests| =>
                        Keyset.Visit(VisibleMessages(requests[i].table, m), requests[i].size));
    forall v | v in visits ensures Dated(at, id) in v.rows {
      var i :| 0 <= i < |visits| && visits[i] == v;
      assert requests[i] in requests;
    }
    DatedReadExactlyOnce(visits, Dated(at, id));
  }

  /** And nothing else is read: each row is, in the table some request met, a message of that match, not
      deleted, with the time it was created. */
  lemma OnlyOwnMessagesRead(requests: seq<HistoryRequest>, m: Uuid, x: Dated)
    requires x in DatedRead(seq(|requests|, i requires 0 <= i < |requests| =>
                                  Keyset.Visit(VisibleMessages(requests[i].table, m), requests[i].size)), None)
    ensures exists q <- requests ::
              && x.id in q.table && q.table[x.id].matchId == m && !q.table[x.id].deleted
              && q.table[x.id].createdAt == x.at
  {
    var visits := seq(|requests|, i requires 0 <= i < |requests| =>
                        Keyset.Visit(VisibleMessages(requests[i].table, m), requests[i].size));
    DatedReadIsBrowse(visits, None);
    Keyset.NeverRepeats(Newer, visits, None);
    var v :| v in visits && x in v.rows;
    var i :| 0 <= i < |visits| && visits[i] == v;
    assert requests[i] in requests;
  }

  /** On rows that do not change the client reads the whole list in order, in as many pages as needed. */
  lemma DatedStatic(visits: Visits, rows: set<Dated>, size: Keyset.Size)
    requires Keyset.Still(visits, rows, size) && |visits| >= Keyset.PagesFor(|rows|, size)
    ensures Keyset.StrictTotalOrder(Newer)
    ensures DatedRead(visits, None) == Keyset.Sorted(Newer, rows, |rows|)
    ensures DatedPages(visits, None) == Keyset.PagesFor(|rows|, size)
  {
    DatedReadIsBrowse(visits, None);
    Keyset.StaticList(Newer, visits, rows, size);
  }

  // ----- best first: discovery, whose instant is pinned by the cursor -----

  datatype Candidate = Candidate(score: real, user: Uuid)
  datatype Cursor = Cursor(asOf: int, last: Candidate)
  datatype DiscoveryPage = DiscoveryPage(items: seq<Candidate>, next: Option<Cursor>)

  /** `ORDER BY total_score DESC, user_id`. */
  predicate Better(a: Candidate, b: Candidate) {
    a.score > b.score || (a.score == b.score && Less(a.user, b.user))
  }

  predicate CandidateClause(cursor: Option<Candidate>, row: Candidate) {
    cursor.None? || row.score < cursor.value.score
    || (row.score == cursor.value.score && Less(cursor.value.user, row.user))
  }

  lemma BetterIsOrder()
    ensures Keyset.StrictTotalOrder(Better)
  {
    forall x ensures Keyset.Irreflexive(Better, x) {
      OctetsTotal(x.user, x.user);
    }
    forall x, y ensures Keyset.Total(Better, x, y) {
      OctetsTotal(x.user, y.user);
    }
    forall x, y, z ensures Keyset.Transitive(Better, x, y, z) {
      if Better(x, y) && Better(y, z) && x.score == z.score {
        OctetsTransitive(x.user, y.user, z.user);
      }
    }
  }

  /** The eligible candidates and their scores in one database state, as a function of the instant
      the query is asked about: ages and recent activity depend on it. */
  type Ranking = int -> map<Uuid, real>

  ghost function Ranked(r: Ranking, asOf: int): set<Candidate> {
    set user | user in r(asOf) :: Candidate(r(asOf)[user], user)
  }

  /** A request that meets the state `ranking` at `now`, and its page size. */
  datatype Request = Request(ranking: Ranking, now: int, size: Keyset.Size)

  ghost function Discover(q: Request, cursor: Option<Cursor>): DiscoveryPage
  {
    BetterIsOrder();
    var asOf := if cursor.Some? then cursor.value.asOf else q.now;
    var after := if cursor.Some? then Some(cursor.value.last) else None;
    var matching := set row | row in Ranked(q.ranking, asOf) && CandidateClause(after, row);
    var rows := Keyset.Sorted(Better, matching, q.size + 1);
    if |rows| > q.size then DiscoveryPage(rows[..q.size], Some(Cursor(asOf, rows[..q.size][q.size - 1])))
    else DiscoveryPage(rows, None)
  }

  ghost function DiscoverAll(requests: seq<Request>, cursor: Option<Cursor>): seq<Candidate>
  {
    if requests == [] then []
    else
      var page := Discover(requests[0], cursor);
      page.items + if page.next.None? then [] else DiscoverAll(requests[1..], page.next)
  }

  ghost function DiscoveryPages(requests: seq<Request>, cursor: Option<Cursor>): nat
  {
    if requests == [] then 0
    else
      var next := Discover(requests[0], cursor).next;
      if next.None? then 1 else 1 + DiscoveryPages(requests[1..], next)
  }

  ghost predicate DiscoveryEnds(requests: seq<Request>, cursor: Option<Cursor>)
  {
    requests != [] && (Discover(requests[0], cursor).next.None? ||
                       DiscoveryEnds(requests[1..], Discover(requests[0], cursor).next))
  }

  /** What all requests of one browse are asked about: the rankings at the instant of the first. */
  ghost function Pinned(requests: seq<Request>, asOf: int): seq<Keyset.Visit<Candidate>> {
    seq(|requests|, i requires 0 <= i < |requests| =>
          Keyset.Visit(Ranked(requests[i].ranking, asOf), requests[i].size))
  }

  lemma DiscoverIsFetch(q: Request, cursor: Option<Cursor>)
    ensures Keyset.StrictTotalOrder(Better)
    ensures var asOf := if cursor.Some? then cursor.value.asOf else q.now;
            var after := if cursor.Some? then Some(cursor.value.last) else None;
            var page := Discover(q, cursor);
            var fetched := Keyset.Fetch(Better, Ranked(q.ranking, asOf), after, q.size);
            && page.items == fetched.items
            && page.next == if fetched.next.Some? then Some(Cursor(asOf, fetched.next.value)) else None
  {
    BetterIsOrder();
    var asOf := if cursor.Some? then cursor.value.asOf else q.now;
    var after := if cursor.Some? then Some(cursor.value.last) else None;
    assert (set row | row in Ranked(q.ranking, asOf) && CandidateClause(after, row))
        == Keyset.Behind(Better, Ranked(q.ranking, asOf), after);
  }

  lemma {:induction false} DiscoverAllIsBrowse(requests: seq<Request>, cursor: Option<Cursor>, asOf: int)
    requires cursor.Some? ==> cursor.value.asOf == asOf
    requires cursor.None? && requests != [] ==> requests[0].now == asOf
    ensures Keyset.StrictTotalOrder(Better)
    ensures var after := if cursor.Some? then Some(cursor.value.last) else None;
            && DiscoverAll(requests, cursor) == Keyset.Browse(Better, Pinned(requests, asOf), after)
            && DiscoveryEnds(requests, cursor) == Keyset.ReachesEnd(Better, Pinned(requests, asOf), after)
            && DiscoveryPages(requests, cursor) == Keyset.Pages(Better, Pinned(requests, asOf), after)
    decreases |requests|
  {
    BetterIsOrder();
    if requests == [] {
    } else {
      DiscoverIsFetch(requests[0], cursor);
      var page := Discover(requests[0], cursor);
      assert Pinned(requests, asOf)[1..] == Pinned(requests[1..], asOf);
      if page.next.Some? {
        DiscoverAllIsBrowse(requests[1..], page.next, asOf);
      } else {
        assert page.items + [] == page.items;
      }
    }
  }

  /** While the ranking at the instant of the first request does not change, the client is offered all of it
      in order, in as many pages as needed, however late the other requests come. */
  lemma DiscoveryStatic(requests: seq<Request>, rows: set<Candidate>, size: Keyset.Size)
    requires requests != []
    requires forall q <- requests :: q.size == size && Ranked(q.ranking, requests[0].now) == rows
    requires |requests| >= Keyset.PagesFor(|rows|, size)
    ensures Keyset.StrictTotalOrder(Better)
    ensures DiscoverAll(requests, None) == Keyset.Sorted(Better, rows, |rows|)
    ensures DiscoveryPages(requests, None) == Keyset.PagesFor(|rows|, size)
  {
    var asOf := requests[0].now;
    var visits := Pinned(requests, asOf);
    forall i | 0 <= i < |visits| ensures visits[i] == Keyset.Visit(rows, size) {
      assert requests[i] in requests;
    }
    DiscoverAllIsBrowse(requests, None, asOf);
    Keyset.StaticList(Better, visits, rows, size);
  }

  /** Every candidate that is eligible with the same score throughout, as seen from the instant of the
      first request, is offered exactly once, however late the other requests come. */
  lemma DiscoveryExactlyOnce(requests: seq<Request>, user: Uuid, score: real)
    requires requests != []
    requires forall q <- requests :: user in q.ranking(requests[0].now) && q.ranking(requests[0].now)[user] == score
    ensures var offered := DiscoverAll(requests, None);
            && (forall i, j | 0 <= i < j < |offered| ::
                  && offered[i] != offered[j]
                  && (|| offered[i].score > offered[j].score
                      || (offered[i].score == offered[j].score && Less(offered[i].user, offered[j].user))))
            && (DiscoveryEnds(requests, None) ==> multiset(offered)[Candidate(score, user)] == 1)
  {
    var asOf := requests[0].now;
    var rows := Pinned(requests, asOf);
    DiscoverAllIsBrowse(requests, None, asOf);
    Keyset.NeverRepeats(Better, rows, None);
    var offered := DiscoverAll(requests, None);
    forall i, j | 0 <= i < j < |offered| ensures Better(offered[i], offered[j]) && offered[i] != offered[j] {
      assert Keyset.Irreflexive(Better, offered[i]);
    }
    if DiscoveryEnds(requests, None) {
      forall v | v in rows ensures Candidate(score, user) in v.rows {
        var i :| 0 <= i < |rows| && rows[i] == v;
        assert requests[i] in requests;
      }
      Keyset.NeverMisses(Better, rows, None, Candidate(score, user));
      OnceInDistinct(offered, Candidate(score, user));
    }
  }
}
