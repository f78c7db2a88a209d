/** The discovery list as its query makes it: the eligible candidates of the matching tables, ranked by a
    score, paged under the instant that the cursor pins. */
module Discovery {
  import opened Wrappers
  import opened Uuids
  import opened Matching
  import Keyset
  import Paging

  /** The score of a candidate in one database state at one instant. */
  type Score = (Db, Uuid, Time) -> real

  /** One request: the tables it met, when it came and its page size. */
  datatype Request = Request(db: Db, now: Time, size: Keyset.Size)

  function Ranking(db: Db, g: Geo, viewer: Uuid, score: Score): Paging.Ranking {
    asOf => map c | c in db.people.users && Eligible(db, g, viewer, c, asOf) :: score(db, c, asOf)
  }

  function Requests(requests: seq<Request>, g: Geo, viewer: Uuid, score: Score): seq<Paging.Request> {
    seq(|requests|, i requires 0 <= i < |requests| =>
          Paging.Request(Ranking(requests[i].db, g, viewer, score), requests[i].now, requests[i].size))
  }

  /** The candidate is eligible in the state the request met, with that score. */
  predicate Offers(q: Request, g: Geo, viewer: Uuid, score: Score, asOf: Time, c: Paging.Candidate) {
    Eligible(q.db, g, viewer, c.user, asOf) && score(q.db, c.user, asOf) == c.score
  }

  lemma RankedExactly(q: Request, g: Geo, viewer: Uuid, score: Score, asOf: Time, c: Paging.Candidate)
    ensures c in Paging.Ranked(Ranking(q.db, g, viewer, score), asOf) <==> Offers(q, g, viewer, score, asOf, c)
  {
    var ranked := Ranking(q.db, g, viewer, score)(asOf);
    assert c.user in ranked <==> Eligible(q.db, g, viewer, c.user, asOf);
    assert c == Paging.Candidate(c.score, c.user);
  }

  /** What the paged query met is what one of the requests met. */
  lemma VisitOf(requests: seq<Request>, g: Geo, viewer: Uuid, score: Score, asOf: Time,
                v: Keyset.Visit<Paging.Candidate>)
    returns (i: nat)
    requires v in Paging.Pinned(Requests(requests, g, viewer, score), asOf)
    ensures i < |requests| && v.rows == Paging.Ranked(Ranking(requests[i].db, g, viewer, score), asOf)
  {
    var asked := Requests(requests, g, viewer, score);
    var visits := Paging.Pinned(asked, asOf);
    i :| 0 <= i < |visits| && visits[i] == v;
    assert asked[i].ranking == Ranking(requests[i].db, g, viewer, score);
  }

  /** Nobody is offered who was not eligible, at the instant of the first request, in the state some
      request met: no one who was blocked, swiped or matched with the viewer all along. */
  lemma OnlyEligibleOffered(requests: seq<Request>, g: Geo, viewer: Uuid, score: Score, offer: Paging.Candidate)
    requires requests != [] && offer in Paging.DiscoverAll(Requests(requests, g, viewer, score), None)
    ensures exists q <- requests :: Offers(q, g, viewer, score, requests[0].now, offer)
  {
    var asked := Requests(requests, g, viewer, score);
    var asOf := requests[0].now;
    Paging.DiscoverAllIsBrowse(asked, None, asOf);
    Keyset.NeverRepeats(Paging.Better, Paging.Pinned(asked, asOf), None);
    var v :| v in Paging.Pinned(asked, asOf) && offer in v.rows;
    var i := VisitOf(requests, g, viewer, score, asOf, v);
    RankedExactly(requests[i], g, viewer, score, asOf, offer);
    assert requests[i] in requests;
  }

  /** A candidate who is eligible throughout as seen from the instant of the first request, with the same
      score, is offered exactly once by the time the client reaches the end. */
  lemma EligibleOfferedOnce(requests: seq<Request>, g: Geo, viewer: Uuid, score: Score, c: Paging.Candidate)
    requires requests != []
    requires forall q <- requests :: Offers(q, g, viewer, score, requests[0].now, c)
    ensures var asked := Requests(requests, g, viewer, score);
            Paging.DiscoveryEnds(asked, None) ==> multiset(Paging.DiscoverAll(asked, None))[c] == 1
  {
    var asked := Requests(requests, g, viewer, score);
    var asOf := requests[0].now;
    forall q | q in asked ensures c.user in q.ranking(asOf) && q.ranking(asOf)[c.user] == c.score {
      var i :| 0 <= i < |asked| && asked[i] == q;
      assert requests[i] in requests;
      RankedExactly(requests[i], g, viewer, score, asOf, c);
    }
    Paging.DiscoveryExactlyOnce(asked, c.user, c.score);
  }
}
