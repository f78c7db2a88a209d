/** The matching repository: each method is one transaction under the lock of its pair. */
module MatchingRepository {
  import opened Wrappers
  import opened Uuids
  import opened Matching

  datatype Found = InteractionBlocked | SwipeNotFound | SwipeFound(swipe: Swipe, shown: Option<Match>)

  class Repository {
    const geo: Geo
    var people: People
    var swipes: map<Pair, Swipe>
    var matches: map<Pair, Match>
    var blocks: set<Pair>

    constructor (geo: Geo, people: People)
      ensures this.geo == geo && View() == Init(people)
    {
      this.geo, this.people := geo, people;
      swipes, matches, blocks := map[], map[], {};
    }

    function View(): Db
      reads this
    {
      Db(people, swipes, matches, blocks)
    }

    /** The stored swipe with the pair's match while that is active. */
    method FindSwipeOutcome(actor: Uuid, target: Uuid) returns (found: Found)
      ensures found == if (actor, target) in swipes
                       then SwipeFound(swipes[(actor, target)], ShownMatch(View(), actor, target)) else SwipeNotFound
    {
      if (actor, target) !in swipes {
        return SwipeNotFound;
      }
      var pair := OrderedPair(actor, target);
      OrderedPairIsLeastGreatest(actor, target);
      var shown := None;
      if pair in matches && matches[pair].ending.None? {
        shown := Some(matches[pair]);
      }
      found := SwipeFound(swipes[(actor, target)], shown);
    }

    method FindSwipe(actor: Uuid, target: Uuid) returns (found: Found)
      ensures found == if Blocked(View(), actor, target) then InteractionBlocked
                       else if (actor, target) in swipes
                       then SwipeFound(swipes[(actor, target)], ShownMatch(View(), actor, target)) else SwipeNotFound
    {
      if Blocked(View(), actor, target) {
        return InteractionBlocked;
      }
      found := FindSwipeOutcome(actor, target);
    }

    method RecordSwipe(s: Swipe, matchId: Uuid) returns (r: Recorded)
      modifies this`swipes, this`matches
      ensures (View(), r) == Matching.RecordSwipe(old(View()), geo, s, matchId)
    {
      if (s.actor, s.target) in blocks || (s.target, s.actor) in blocks {
        return Refused;
      }
      var existing := FindSwipeOutcome(s.actor, s.target);
      if existing.SwipeFound? {
        return Existing(existing.swipe, existing.shown);
      }
      if !CanSwipeTarget(View(), geo, s.actor, s.target, s.createdAt) {
        return NotAllowed;
      }
      var reverse := (s.target, s.actor) in swipes && swipes[(s.target, s.actor)].action.IsPositive();
      swipes := swipes[(s.actor, s.target) := s];
      var made := None;
      if s.action.IsPositive() && reverse {
        var (low, high) := OrderedPair(s.actor, s.target);
        var (after, row) := InsertMatch(matches, Match(matchId, low, high, s.createdAt, None));
        matches := after;
        made := Some(row);
      }
      r := Created(s, made);
    }

    /** The swipes of one user from an instant on, counted row by row in any order. */
    method CountSwipesSince(actor: Uuid, since: int) returns (count: nat)
      ensures count == |set p | p in swipes && p.0 == actor && swipes[p].createdAt >= since|
    {
      var left := swipes.Keys;
      ghost var counted := {};
      count := 0;
      while left != {}
        invariant left <= swipes.Keys
        invariant counted == set p | p in swipes.Keys - left && p.0 == actor && swipes[p].createdAt >= since
        invariant count == |counted|
        decreases left
      {
        var p :| p in left;
        if p.0 == actor && swipes[p].createdAt >= since {
          count := count + 1;
          counted := counted + {p};
        }
        left := left - {p};
      }
      assert counted == set p | p in swipes && p.0 == actor && swipes[p].createdAt >= since;
    }

    /** The two users of an active match with that id, when the viewer is one of them and no block is between. */
    method GetActiveParticipants(matchId: Uuid, viewer: Uuid) returns (found: Option<Pair>)
      requires Keyed(View())
      ensures found.Some? <==> Participates(View(), matchId, viewer)
      ensures found.Some? ==>
                && found.value in matches && matches[found.value].id == matchId && matches[found.value].ending.None?
                && (found.value.0 == viewer || found.value.1 == viewer)
                && !Blocked(View(), found.value.0, found.value.1)
    {
      var suitable := set key | key in matches && matches[key].id == matchId && matches[key].ending.None?
                               && (matches[key].low == viewer || matches[key].high == viewer)
                               && !((matches[key].low, matches[key].high) in blocks
                                    || (matches[key].high, matches[key].low) in blocks);
      if suitable == {} {
        assert forall key <- matches :: key !in suitable;
        return None;
      }
      var key :| key in suitable;
      found := Some(key);
    }

    /** Storing a block ends the pair's active match in the same transaction. A user that does not exist
        is a foreign key violation. */
    method Block(blocker: Uuid, blocked: Uuid, at: Time) returns (ok: bool)
      modifies this`blocks, this`matches
      ensures ok <==> blocker in people.users && blocked in people.users
      ensures View() == if ok then Matching.Block(old(View()), blocker, blocked, at) else old(View())
    {
      if blocker !in people.users || blocked !in people.users {
        return false;
      }
      blocks := blocks + {(blocker, blocked)};
      var key := (Least(blocker, blocked), Greatest(blocker, blocked));
      if key in matches && matches[key].ending.None? {
        matches := matches[key := matches[key].(ending := Some(Ending(at, blocker)))];
      }
      ok := true;
    }

    /** Ends an active match its caller takes part in; a second call succeeds and changes nothing. */
    method Unmatch(matchId: Uuid, actor: Uuid, at: Time) returns (ok: bool)
      modifies this`matches
      ensures View() == Matching.Unmatch(old(View()), matchId, actor, at)
      ensures ok <==> exists key <- old(matches) :: old(matches)[key].id == matchId
                        && (old(matches)[key].low == actor || old(matches)[key].high == actor)
      ensures ok ==> forall key | key in matches && matches[key].id == matchId
                                  && (matches[key].low == actor || matches[key].high == actor) ::
                           matches[key].ending.Some?
    {
      var before := matches;
      var affected := set key | key in matches && matches[key].id == matchId
                             && (matches[key].low == actor || matches[key].high == actor) && matches[key].ending.None?;
      matches := map key | key in matches ::
        if key in affected then matches[key].(ending := Some(Ending(at, actor))) else matches[key];
      if affected != {} {
        var one :| one in affected;
        assert before[one].id == matchId;
        return true;
      }
      ok := exists key <- before ::
        before[key].id == matchId && (before[key].low == actor || before[key].high == actor);
    }
  }
}
