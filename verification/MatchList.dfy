/** The list of a user's matches as its query makes it from the matching tables. */
module MatchList {
  import opened Wrappers
  import opened Uuids
  import opened Matching
  import Keyset
  import Paging

  /** The user on the other side. */
  function Other(m: Match, user: Uuid): Uuid {
    if m.low == user then m.high else m.low
  }

  /** `ListActiveMatches` without its cursor: an active match of the user whose other side has a user, a
      profile and a primary photo, and no block between the two. */
  predicate Listed(db: Db, user: Uuid, m: Match) {
    && (m.low == user || m.high == user) && m.ending.None?
    && Other(m, user) in db.people.users && Other(m, user) in db.people.profiles
    && HasPhoto(db, Other(m, user)) && !Blocked(db, user, Other(m, user))
  }

  function Rows(db: Db, user: Uuid): set<Paging.Dated> {
    set key | key in db.matches && Listed(db, user, db.matches[key])
      :: Paging.Dated(db.matches[key].matchedAt, db.matches[key].id)
  }

  /** One request: the tables it met and its page size. */
  datatype Request = Request(db: Db, size: Keyset.Size)

  function Visits(requests: seq<Request>, user: Uuid): Paging.Visits {
    seq(|requests|, i requires 0 <= i < |requests| => Keyset.Visit(Rows(requests[i].db, user), requests[i].size))
  }

  /** A match that stays listed while the client pages is returned exactly once, and in its place. */
  lemma MatchesExactlyOnce(requests: seq<Request>, user: Uuid, key: Pair, id: Uuid, at: Time)
    requires forall q <- requests ::
               && key in q.db.matches && Listed(q.db, user, q.db.matches[key])
               && q.db.matches[key].id == id && q.db.matches[key].matchedAt == at
    ensures var visits := Visits(requests, user);
            var read := Paging.DatedRead(visits, None);
            && (forall i, j | 0 <= i < j < |read| ::
                  read[i].at > read[j].at || (read[i].at == read[j].at && Less(read[j].id, read[i].id)))
            && (Paging.DatedEnds(visits, None) ==> multiset(read)[Paging.Dated(at, id)] == 1)
  {
    var visits := Visits(requests, user);
    forall v | v in visits ensures Paging.Dated(at, id) in v.rows {
      var i :| 0 <= i < |visits| && visits[i] == v;
      assert requests[i] in requests;
    }
    Paging.DatedReadExactlyOnce(visits, Paging.Dated(at, id));
  }

  /** In these tables the row is an active match of the user with that id and time, whose other side has user,
      profile and primary photo, and no block is between the two. */
  predicate Shows(db: Db, key: Pair, user: Uuid, x: Paging.Dated) {
    key in db.matches &&
    var m := db.matches[key];
    var other := if m.low == user then m.high else m.low;
    && m.id == x.id && m.matchedAt == x.at && m.ending == None && (m.low == user || m.high == user)
    && other in db.people.users && other in db.people.profiles && HasPrimary(db.people, other)
    && (user, other) !in db.blocks && (other, user) !in db.blocks
  }

  lemma RowsExactly(db: Db, user: Uuid, x: Paging.Dated)
    ensures x in Rows(db, user) <==> exists key <- db.matches :: Shows(db, key, user, x)
  {
    forall key | key in db.matches
      ensures Listed(db, user, db.matches[key]) <==>
              Shows(db, key, user, Paging.Dated(db.matches[key].matchedAt, db.matches[key].id))
    {
      PrimaryParts(db, Other(db.matches[key], user));
    }
    if key :| key in db.matches && Shows(db, key, user, x) {
      assert x == Paging.Dated(db.matches[key].matchedAt, db.matches[key].id);
    }
  }

  lemma VisitOf(requests: seq<Request>, user: Uuid, v: Keyset.Visit<Paging.Dated>) returns (q: Request)
    requires v in Visits(requests, user)
    ensures q in requests && v.rows == Rows(q.db, user)
  {
    var visits := Visits(requests, user);
    var i :| 0 <= i < |visits| && visits[i] == v;
    q := requests[i];
  }

  /** And no other is returned: each was to be shown in the tables some request met. */
  lemma OnlyListedReturned(requests: seq<Request>, user: Uuid, x: Paging.Dated)
    requires x in Paging.DatedRead(Visits(requests, user), None)
    ensures exists q <- requests, key <- q.db.matches :: Shows(q.db, key, user, x)
  {
    var visits := Visits(requests, user);
    Paging.DatedReadIsBrowse(visits, None);
    Keyset.NeverRepeats(Paging.Newer, visits, None);
    var v :| v in visits && x in v.rows;
    var q := VisitOf(requests, user, v);
    RowsExactly(q.db, user, x);
    var key :| key in q.db.matches && Shows(q.db, key, user, x);
  }

  /** In every reachable state of the tables, a match is listed for one of its users exactly when it is active
      and the other side can be shown: the block clause excludes nothing here either. */
  lemma ListedExactly(people: People, g: Geo, events: seq<Event>, user: Uuid, key: Pair)
    requires key in Run(Init(people), g, events).matches && (key.0 == user || key.1 == user)
    ensures var db := Run(Init(people), g, events);
            var other := if key.0 == user then key.1 else key.0;
            Listed(db, user, db.matches[key]) <==>
              && db.matches[key].ending == None
              && other in db.people.users && other in db.people.profiles && HasPrimary(db.people, other)
  {
    RunKeeps(Init(people), g, events);
    var db := Run(Init(people), g, events);
    var other := Other(db.matches[key], user);
    PrimaryParts(db, other);
    KeySymmetric(user, other);
    if Blocked(db, user, other) {
      BlockedNeverMatched(people, g, events, [], user, other);
      assert Run(db, g, []) == db;
      assert MatchKey(key.0, key.1) == key;
    }
  }
}
