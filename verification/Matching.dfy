/** Swipes, matches and blocks: the SQL predicates that decide who may see and swipe whom, the
    transactions that record it, and what every run of them keeps.

    Ages and distances are left to two functions; a distance is the same both ways. A NULL column is
    `None`, and a condition on a NULL does not hold. */
module Matching {
  import opened Wrappers
  import opened Uuids

  type Date = int
  type Time = int
  type Point = nat

  const PURPOSE := "matching_gender_preferences"

  /** `age(asOf, birthDate)` in years, and `ST_DWithin`. */
  datatype Geo = Geo(years: (Time, Date) -> int, within: (Point, Point, int) -> bool)

  ghost predicate Symmetric(g: Geo) {
    forall p, q, metres :: g.within(p, q, metres) == g.within(q, p, metres)
  }

  datatype User = User(status: string, gender: Option<string>, birthDate: Option<Date>)
  datatype Profile = Profile(onboarded: bool, location: Option<Point>)
  datatype Preference = Preference(minAge: int, maxAge: int, maxKm: int, genders: set<string>)
  datatype Consent = Consent(user: Uuid, purpose: string, withdrawn: bool)
  datatype Photo = Photo(user: Uuid, primary: bool, deleted: bool)

  /** The tables other features edit. */
  datatype People = People(
    users: map<Uuid, User>,
    profiles: map<Uuid, Profile>,
    preferences: map<Uuid, Preference>,
    consents: map<Uuid, Consent>,
    photos: map<Uuid, Photo>)

  datatype Action = Like | Dislike | Superlike {
    predicate IsPositive() {
      Like? || Superlike?
    }
  }

  datatype Swipe = Swipe(id: Uuid, actor: Uuid, target: Uuid, action: Action, createdAt: Time)
  datatype Ending = Ending(at: Time, user: Uuid)
  datatype Match = Match(id: Uuid, low: Uuid, high: Uuid, matchedAt: Time, ending: Option<Ending>)

  type Pair = (Uuid, Uuid)

  /** Swipes by actor and target, matches by ordered pair: their unique indexes. */
  datatype Db = Db(people: People, swipes: map<Pair, Swipe>, matches: map<Pair, Match>, blocks: set<Pair>)

  // ----- pieces of the queries -----

  predicate Any(gender: Option<string>, genders: set<string>) {
    gender.Some? && gender.value in genders
  }

  predicate AgeBetween(g: Geo, asOf: Time, birthDate: Option<Date>, min: int, max: int) {
    birthDate.Some? && min <= g.years(asOf, birthDate.value) <= max
  }

  function LeastInt(a: int, b: int): int {
    if b < a then b else a
  }

  predicate HasConsent(db: Db, user: Uuid) {
    exists c <- db.people.consents :: var row := db.people.consents[c];
      row.user == user && row.purpose == PURPOSE && !row.withdrawn
  }

  predicate HasPhoto(db: Db, user: Uuid) {
    exists p <- db.people.photos :: var row := db.people.photos[p]; row.user == user && row.primary && !row.deleted
  }

  function MatchKey(a: Uuid, b: Uuid): Pair {
    (Least(a, b), Greatest(a, b))
  }

  predicate Blocked(db: Db, a: Uuid, b: Uuid) {
    (a, b) in db.blocks || (b, a) in db.blocks
  }

  // ----- the four predicates, each as its own query states it -----

  /** `CanSwipeTarget`: the viewer expression and then the conditions on the candidate. */
  predicate CanSwipeTarget(db: Db, g: Geo, actor: Uuid, target: Uuid, asOf: Time) {
    var t := db.people;
    && actor in t.users && actor in t.profiles && actor in t.preferences && HasConsent(db, actor)
    && t.users[actor].status == "active"
    && t.profiles[actor].onboarded && t.profiles[actor].location.Some?
    && t.preferences[actor].genders != {}
    && target in t.users && t.users[target].status == "active"
    && target in t.profiles && t.profiles[target].onboarded && t.profiles[target].location.Some?
    && target in t.preferences && HasConsent(db, target)
    && t.preferences[target].genders != {}
    && Any(t.users[target].gender, t.preferences[actor].genders)
    && Any(t.users[actor].gender, t.preferences[target].genders)
    && AgeBetween(g, asOf, t.users[target].birthDate, t.preferences[actor].minAge, t.preferences[actor].maxAge)
    && AgeBetween(g, asOf, t.users[actor].birthDate, t.preferences[target].minAge, t.preferences[target].maxAge)
    && g.within(t.profiles[actor].location.value, t.profiles[target].location.value,
                LeastInt(t.preferences[actor].maxKm, t.preferences[target].maxKm) * 1000)
    && HasPhoto(db, target)
    && MatchKey(actor, target) !in db.matches
  }

  /** The `eligible` rows of `ListDiscoveryCandidates`. */
  predicate Eligible(db: Db, g: Geo, viewer: Uuid, candidate: Uuid, asOf: Time) {
    var t := db.people;
    && viewer in t.users && viewer in t.profiles && viewer in t.preferences && HasConsent(db, viewer)
    && t.users[viewer].status == "active" && t.profiles[viewer].onboarded && t.profiles[viewer].location.Some?
    && t.preferences[viewer].genders != {}
    && candidate in t.users && candidate != viewer && t.users[candidate].status == "active"
    && candidate in t.profiles && t.profiles[candidate].onboarded && t.profiles[candidate].location.Some?
    && candidate in t.preferences
    && HasConsent(db, candidate)
    && HasPhoto(db, candidate)
    && t.preferences[candidate].genders != {}
    && Any(t.users[candidate].gender, t.preferences[viewer].genders)
    && Any(t.users[viewer].gender, t.preferences[candidate].genders)
    && AgeBetween(g, asOf, t.users[candidate].birthDate, t.preferences[viewer].minAge, t.preferences[viewer].maxAge)
    && AgeBetween(g, asOf, t.users[viewer].birthDate, t.preferences[candidate].minAge, t.preferences[candidate].maxAge)
    && g.within(t.profiles[viewer].location.value, t.profiles[candidate].location.value,
                LeastInt(t.preferences[viewer].maxKm, t.preferences[candidate].maxKm) * 1000)
    && (viewer, candidate) !in db.swipes
    && !Blocked(db, viewer, candidate)
    && MatchKey(viewer, candidate) !in db.matches
  }

  /** `EnsureDiscoveryReady`. */
  predicate DiscoveryReady(db: Db, user: Uuid) {
    var t := db.people;
    && user in t.users && user in t.profiles && user in t.preferences && HasConsent(db, user)
    && t.users[user].status == "active"
    && t.profiles[user].onboarded && t.profiles[user].location.Some?
    && t.preferences[user].genders != {}
    && HasPhoto(db, user)
  }

  /** The third way to see a photo in `GetVisibleMatchingPhoto`: viewer and owner suit each other. */
  predicate Suited(db: Db, g: Geo, viewer: Uuid, owner: Uuid, asOf: Time) {
    var t := db.people;
    && viewer in t.users && viewer in t.profiles && viewer in t.preferences && HasConsent(db, viewer)
    && owner in t.users && t.users[owner].status == "active"
    && owner in t.profiles && t.profiles[owner].onboarded && t.profiles[owner].location.Some?
    && owner in t.preferences && HasConsent(db, owner)
    && t.users[viewer].status == "active" && t.profiles[viewer].onboarded && t.profiles[viewer].location.Some?
    && t.preferences[viewer].genders != {} && t.preferences[owner].genders != {}
    && Any(t.users[owner].gender, t.preferences[viewer].genders)
    && Any(t.users[viewer].gender, t.preferences[owner].genders)
    && AgeBetween(g, asOf, t.users[owner].birthDate, t.preferences[viewer].minAge, t.preferences[viewer].maxAge)
    && AgeBetween(g, asOf, t.users[viewer].birthDate, t.preferences[owner].minAge, t.preferences[owner].maxAge)
    && g.within(t.profiles[viewer].location.value, t.profiles[owner].location.value,
                LeastInt(t.preferences[viewer].maxKm, t.preferences[owner].maxKm) * 1000)
    && (viewer, owner) !in db.swipes
  }

  predicate ActiveMatch(db: Db, a: Uuid, b: Uuid) {
    MatchKey(a, b) in db.matches && db.matches[MatchKey(a, b)].ending.None?
  }

  /** `GetVisibleMatchingPhoto`. */
  predicate PhotoVisible(db: Db, g: Geo, viewer: Uuid, photo: Uuid, asOf: Time) {
    && photo in db.people.photos && db.people.photos[photo].primary && !db.people.photos[photo].deleted
    && var owner := db.people.photos[photo].user;
       && (owner == viewer || ActiveMatch(db, viewer, owner) || Suited(db, g, viewer, owner, asOf))
       && !Blocked(db, viewer, owner)
  }

  /** `GetActiveParticipants`, with its block clause, and without it. */
  predicate Participates(db: Db, matchId: Uuid, viewer: Uuid) {
    exists key <- db.matches :: var m := db.matches[key];
      && m.id == matchId && m.ending.None? && (m.low == viewer || m.high == viewer)
      && !((m.low, m.high) in db.blocks || (m.high, m.low) in db.blocks)
  }

  predicate ParticipatesUnchecked(db: Db, matchId: Uuid, viewer: Uuid) {
    exists key <- db.matches :: var m := db.matches[key];
      m.id == matchId && m.ending.None? && (m.low == viewer || m.high == viewer)
  }

  // ----- the transactions -----

  datatype Recorded =
    | Refused
    | NotAllowed
    | Existing(swipe: Swipe, shown: Option<Match>)
    | Created(swipe: Swipe, made: Option<Match>)

  predicate Positive(db: Db, actor: Uuid, target: Uuid) {
    (actor, target) in db.swipes && db.swipes[(actor, target)].action.IsPositive()
  }

  /** The stored match of a pair while it is active. */
  function ShownMatch(db: Db, a: Uuid, b: Uuid): Option<Match> {
    if ActiveMatch(db, a, b) then Some(db.matches[MatchKey(a, b)]) else None
  }

  /** `INSERT ... ON CONFLICT ... RETURNING`: a stored pair is returned as it is. */
  function InsertMatch(matches: map<Pair, Match>, m: Match): (map<Pair, Match>, Match) {
    if (m.low, m.high) in matches then (matches, matches[(m.low, m.high)])
    else (matches[(m.low, m.high) := m], m)
  }

  function RecordSwipe(db: Db, g: Geo, s: Swipe, matchId: Uuid): (Db, Recorded) {
    if Blocked(db, s.actor, s.target) then (db, Refused)
    else if (s.actor, s.target) in db.swipes then
      (db, Existing(db.swipes[(s.actor, s.target)], ShownMatch(db, s.actor, s.target)))
    else if !CanSwipeTarget(db, g, s.actor, s.target, s.createdAt) then (db, NotAllowed)
    else
      var swiped := db.(swipes := db.swipes[(s.actor, s.target) := s]);
      if s.action.IsPositive() && Positive(db, s.target, s.actor) then
        var (low, high) := OrderedPair(s.actor, s.target);
        var (matches, made) := InsertMatch(db.matches, Match(matchId, low, high, s.createdAt, None));
        (swiped.(matches := matches), Created(s, Some(made)))
      else (swiped, Created(s, None))
  }

  function EndMatch(db: Db, key: Pair, ending: Ending): Db {
    if key in db.matches && db.matches[key].ending.None?
    then db.(matches := db.matches[key := db.matches[key].(ending := Some(ending))]) else db
  }

  function Block(db: Db, blocker: Uuid, blocked: Uuid, at: Time): Db {
    EndMatch(db.(blocks := db.blocks + {(blocker, blocked)}), MatchKey(blocker, blocked), Ending(at, blocker))
  }

  function Unmatch(db: Db, matchId: Uuid, actor: Uuid, at: Time): Db {
    db.(matches := map key | key in db.matches :: var m := db.matches[key];
      if m.id == matchId && (m.low == actor || m.high == actor) && m.ending.None?
      then m.(ending := Some(Ending(at, actor))) else m)
  }

  // ----- runs -----

  /** The service refuses self-interaction, and match ids are new UUIDs. */
  datatype Event =
    | DoSwipe(swipe: Swipe, matchId: Uuid)
    | DoBlock(blocker: Uuid, blocked: Uuid, at: Time)
    | DoUnmatch(matchId: Uuid, actor: Uuid, at: Time)
    | Edit(people: People)

  predicate Fresh(db: Db, matchId: Uuid) {
    forall key <- db.matches :: db.matches[key].id != matchId
  }

  predicate Runs(db: Db, e: Event) {
    e.DoSwipe? && e.swipe.actor != e.swipe.target && Fresh(db, e.matchId)
  }

  function Step(db: Db, g: Geo, e: Event): Db {
    match e
    case DoSwipe(s, matchId) => if Runs(db, e) then RecordSwipe(db, g, s, matchId).0 else db
    case DoBlock(blocker, blocked, at) => if blocker == blocked then db else Block(db, blocker, blocked, at)
    case DoUnmatch(matchId, actor, at) => Unmatch(db, matchId, actor, at)
    case Edit(people) => db.(people := people)
  }

  function Run(db: Db, g: Geo, events: seq<Event>): Db
    decreases |events|
  {
    if events == [] then db else Run(Step(db, g, events[0]), g, events[1..])
  }

  function Init(people: People): Db {
    Db(people, map[], map[], {})
  }

  predicate Keyed(db: Db) {
    && (forall key <- db.swipes :: key.0 != key.1 && db.swipes[key].actor == key.0 && db.swipes[key].target == key.1)
    && (forall key <- db.matches :: db.matches[key].low == key.0 && db.matches[key].high == key.1)
    && (forall key <- db.matches :: MatchKey(key.0, key.1) == key && key.0 != key.1)
  }

  /** A pair is matched exactly when both have swiped positively. */
  predicate MatchedIffMutual(db: Db, a: Uuid, b: Uuid) {
    MatchKey(a, b) in db.matches <==> Positive(db, a, b) && Positive(db, b, a)
  }

  ghost predicate Inv(db: Db) {
    && Keyed(db)
    && (forall a, b {:trigger MatchedIffMutual(db, a, b)} | a != b :: MatchedIffMutual(db, a, b))
    && (forall p <- db.blocks :: !ActiveMatch(db, p.0, p.1))
  }

  lemma KeySymmetric(a: Uuid, b: Uuid)
    ensures MatchKey(a, b) == MatchKey(b, a)
  {
    OctetsTotal(a, b);
  }

  /** What recording a swipe changes: nothing unless it is created; then its row, and a new match
      row for the pair exactly when both directions are now positive. */
  lemma SwipeEffect(db: Db, g: Geo, s: Swipe, matchId: Uuid)
    ensures var (t, r) := RecordSwipe(db, g, s, matchId);
            var key := MatchKey(s.actor, s.target);
            && (!r.Created? ==> t == db)
            && (r.Created? ==>
                  && (s.actor, s.target) !in db.swipes && key !in db.matches && !Blocked(db, s.actor, s.target)
                  && t.people == db.people && t.blocks == db.blocks && t.swipes == db.swipes[(s.actor, s.target) := s]
                  && t.matches == if s.action.IsPositive() && Positive(db, s.target, s.actor)
                                  then db.matches[key := Match(matchId, key.0, key.1, s.createdAt, None)]
                                  else db.matches)
  {
    OrderedPairIsLeastGreatest(s.actor, s.target);
  }

  lemma SwipeKeepsMutual(db: Db, g: Geo, s: Swipe, matchId: Uuid, a: Uuid, b: Uuid)
    requires MatchedIffMutual(db, a, b) && MatchedIffMutual(db, s.actor, s.target) && s.actor != s.target && a != b
    ensures MatchedIffMutual(RecordSwipe(db, g, s, matchId).0, a, b)
  {
    SwipeEffect(db, g, s, matchId);
    PairDetermines(s.actor, s.target, a, b);
  }

  lemma KeyOfKey(a: Uuid, b: Uuid)
    ensures MatchKey(MatchKey(a, b).0, MatchKey(a, b).1) == MatchKey(a, b)
    ensures a != b ==> MatchKey(a, b).0 != MatchKey(a, b).1
  {
    OctetsTotal(a, b);
  }

  lemma SwipeKeepsUnmatched(db: Db, g: Geo, s: Swipe, matchId: Uuid, p: Pair)
    requires p in db.blocks && !ActiveMatch(db, p.0, p.1)
    ensures !ActiveMatch(RecordSwipe(db, g, s, matchId).0, p.0, p.1)
  {
    SwipeEffect(db, g, s, matchId);
    PairDetermines(s.actor, s.target, p.0, p.1);
  }

  lemma SwipeKeepsKeyed(db: Db, g: Geo, s: Swipe, matchId: Uuid)
    requires Keyed(db) && s.actor != s.target
    ensures Keyed(RecordSwipe(db, g, s, matchId).0)
  {
    SwipeEffect(db, g, s, matchId);
    KeyOfKey(s.actor, s.target);
  }

  lemma SwipeKeeps(db: Db, g: Geo, s: Swipe, matchId: Uuid)
    requires Inv(db) && s.actor != s.target
    ensures Inv(RecordSwipe(db, g, s, matchId).0)
  {
    var t := RecordSwipe(db, g, s, matchId).0;
    SwipeKeepsKeyed(db, g, s, matchId);
    assert MatchedIffMutual(db, s.actor, s.target);
    forall a, b | a != b ensures MatchedIffMutual(t, a, b) {
      assert MatchedIffMutual(db, a, b);
      SwipeKeepsMutual(db, g, s, matchId, a, b);
    }
    SwipeEffect(db, g, s, matchId);
    forall p | p in t.blocks ensures !ActiveMatch(t, p.0, p.1) {
      assert !ActiveMatch(db, p.0, p.1);
      SwipeKeepsUnmatched(db, g, s, matchId, p);
    }
  }

  lemma EndKeeps(db: Db, t: Db)
    requires Inv(db) && t.swipes == db.swipes && t.matches.Keys == db.matches.Keys
    requires forall key <- db.matches ::
               t.matches[key].low == db.matches[key].low && t.matches[key].high == db.matches[key].high
    requires forall key <- db.matches :: db.matches[key].ending.Some? ==> t.matches[key].ending.Some?
    requires forall p <- t.blocks :: p in db.blocks || !ActiveMatch(t, p.0, p.1)
    ensures Inv(t)
  {
    forall a, b | a != b ensures MatchedIffMutual(t, a, b) {
      assert MatchedIffMutual(db, a, b);
    }
    forall p | p in t.blocks ensures !ActiveMatch(t, p.0, p.1) {
      if p in db.blocks {
        assert !ActiveMatch(db, p.0, p.1);
      }
    }
  }

  lemma BlockKeeps(db: Db, blocker: Uuid, blocked: Uuid, at: Time)
    requires Inv(db)
    ensures Inv(Block(db, blocker, blocked, at))
  {
    EndKeeps(db, Block(db, blocker, blocked, at));
  }

  lemma UnmatchKeeps(db: Db, matchId: Uuid, actor: Uuid, at: Time)
    requires Inv(db)
    ensures Inv(Unmatch(db, matchId, actor, at))
  {
    EndKeeps(db, Unmatch(db, matchId, actor, at));
  }

  lemma EditKeeps(db: Db, people: People)
    requires Inv(db)
    ensures Inv(db.(people := people))
  {
    EndKeeps(db, db.(people := people));
  }

  lemma StepKeeps(db: Db, g: Geo, e: Event)
    requires Inv(db)
    ensures Inv(Step(db, g, e))
  {
    match e
    case DoSwipe(s, matchId) => if Runs(db, e) { SwipeKeeps(db, g, s, matchId); }
    case DoBlock(blocker, blocked, at) => BlockKeeps(db, blocker, blocked, at);
    case DoUnmatch(matchId, actor, at) => UnmatchKeeps(db, matchId, actor, at);
    case Edit(people) => EditKeeps(db, people);
  }

  lemma {:induction false} RunKeeps(db: Db, g: Geo, events: seq<Event>)
    requires Inv(db)
    ensures Inv(Run(db, g, events))
    decreases |events|
  {
    if events == [] {
    } else {
      StepKeeps(db, g, events[0]);
      RunKeeps(Step(db, g, events[0]), g, events[1..]);
    }
  }

  /** The primary key of the matches. */
  predicate UniqueIds(db: Db) {
    forall a, b | a in db.matches && b in db.matches && db.matches[a].id == db.matches[b].id :: a == b
  }

  lemma StepKeepsIds(db: Db, g: Geo, e: Event)
    requires UniqueIds(db)
    ensures UniqueIds(Step(db, g, e))
  {
    if e.DoSwipe? {
      SwipeEffect(db, g, e.swipe, e.matchId);
    }
  }

  lemma {:induction false} RunKeepsIds(db: Db, g: Geo, events: seq<Event>)
    requires UniqueIds(db)
    ensures UniqueIds(Run(db, g, events))
    decreases |events|
  {
    if events == [] {
    } else {
      StepKeepsIds(db, g, events[0]);
      RunKeepsIds(Step(db, g, events[0]), g, events[1..]);
    }
  }

  // ----- matches -----

  /** In every reachable state a pair has a match row exactly when both directions hold a positive
      swipe, and it is stored under the pair the database looks up. */
  lemma MatchExactlyWhenMutual(people: People, g: Geo, events: seq<Event>, a: Uuid, b: Uuid)
    requires a != b
    ensures var db := Run(Init(people), g, events);
            OrderedPair(a, b) in db.matches <==>
              && (a, b) in db.swipes && db.swipes[(a, b)].action in {Like, Superlike}
              && (b, a) in db.swipes && db.swipes[(b, a)].action in {Like, Superlike}
  {
    RunKeeps(Init(people), g, events);
    var db := Run(Init(people), g, events);
    assert MatchedIffMutual(db, a, b);
    OrderedPairIsLeastGreatest(a, b);
  }

  /** A created swipe carries a match exactly when it completes a mutual pair; that match is new, it is
      active, and the insert never meets a stored row. */
  lemma CreatedCarriesFreshMatch(db: Db, g: Geo, s: Swipe, matchId: Uuid)
    requires Inv(db) && s.actor != s.target && RecordSwipe(db, g, s, matchId).1.Created?
    ensures var (t, r) := RecordSwipe(db, g, s, matchId);
            && OrderedPair(s.actor, s.target) !in db.matches
            && (r.made.Some? <==> s.action.IsPositive() && Positive(db, s.target, s.actor))
            && (r.made.Some? <==> OrderedPair(s.actor, s.target) in t.matches)
            && (r.made.Some? ==>
                  && r.made.value.id == matchId && r.made.value.ending.None? && r.made.value.matchedAt == s.createdAt
                  && {r.made.value.low, r.made.value.high} == {s.actor, s.target}
                  && t.matches == db.matches[OrderedPair(s.actor, s.target) := r.made.value])
  {
    OrderedPairIsLeastGreatest(s.actor, s.target);
    assert MatchedIffMutual(db, s.actor, s.target);
  }

  /** The match a step creates for a pair, as the caller sees it. */
  function Carries(db: Db, g: Geo, e: Event, a: Uuid, b: Uuid): nat {
    if Runs(db, e) && ((e.swipe.actor == a && e.swipe.target == b) || (e.swipe.actor == b && e.swipe.target == a))
       && var r := RecordSwipe(db, g, e.swipe, e.matchId).1; r.Created? && r.made.Some?
    then 1 else 0
  }

  function Carriers(db: Db, g: Geo, events: seq<Event>, a: Uuid, b: Uuid): nat
    decreases |events|
  {
    if events == [] then 0
    else Carries(db, g, events[0], a, b) + Carriers(Step(db, g, events[0]), g, events[1..], a, b)
  }

  function Matched(db: Db, a: Uuid, b: Uuid): nat {
    if MatchKey(a, b) in db.matches then 1 else 0
  }

  lemma StepCarries(db: Db, g: Geo, e: Event, a: Uuid, b: Uuid)
    requires Inv(db) && a != b
    ensures Matched(Step(db, g, e), a, b) == Matched(db, a, b) + Carries(db, g, e, a, b)
  {
    if Runs(db, e) {
      var s := e.swipe;
      OrderedPairIsLeastGreatest(s.actor, s.target);
      PairDetermines(s.actor, s.target, a, b);
      if RecordSwipe(db, g, s, e.matchId).1.Created? {
        CreatedCarriesFreshMatch(db, g, s, e.matchId);
      }
    }
  }

  /** Over a whole run the match of a pair is handed out once if the pair ends up matched, else never. */
  lemma {:induction false} OneCarrier(db: Db, g: Geo, events: seq<Event>, a: Uuid, b: Uuid)
    requires Inv(db) && a != b
    ensures Matched(Run(db, g, events), a, b) == Matched(db, a, b) + Carriers(db, g, events, a, b)
    decreases |events|
  {
    if events == [] {
    } else {
      StepCarries(db, g, events[0], a, b);
      StepKeeps(db, g, events[0]);
      OneCarrier(Step(db, g, events[0]), g, events[1..], a, b);
    }
  }

  lemma StepKeepsEnded(db: Db, g: Geo, e: Event, key: Pair)
    requires key in db.matches && db.matches[key].ending.Some?
    ensures key in Step(db, g, e).matches && Step(db, g, e).matches[key] == db.matches[key]
  {
    if e.DoSwipe? {
      SwipeEffect(db, g, e.swipe, e.matchId);
    }
  }

  /** An ended match stays as it ended: its row is never written again, and the pair is never rematched. */
  lemma {:induction false} EndedForGood(db: Db, g: Geo, events: seq<Event>, key: Pair)
    requires key in db.matches && db.matches[key].ending.Some?
    ensures key in Run(db, g, events).matches && Run(db, g, events).matches[key] == db.matches[key]
    decreases |events|
  {
    if events == [] {
    } else {
      StepKeepsEnded(db, g, events[0], key);
      EndedForGood(Step(db, g, events[0]), g, events[1..], key);
    }
  }

  // ----- blocks -----

  lemma {:induction false} BlocksStay(db: Db, g: Geo, events: seq<Event>)
    ensures db.blocks <= Run(db, g, events).blocks
    decreases |events|
  {
    if events == [] {
    } else {
      BlocksStay(Step(db, g, events[0]), g, events[1..]);
    }
  }

  /** Once a block is stored between two users they have no active match, and never will have one. */
  lemma BlockedNeverMatched(people: People, g: Geo, before: seq<Event>, later: seq<Event>, a: Uuid, b: Uuid)
    requires Blocked(Run(Init(people), g, before), a, b)
    ensures !ActiveMatch(Run(Run(Init(people), g, before), g, later), a, b)
  {
    var db := Run(Init(people), g, before);
    RunKeeps(Init(people), g, before);
    RunKeeps(db, g, later);
    BlocksStay(db, g, later);
    KeySymmetric(a, b);
    var t := Run(db, g, later);
    assert !ActiveMatch(t, a, b) by {
      if (a, b) in db.blocks {
        assert !ActiveMatch(t, (a, b).0, (a, b).1);
      } else {
        assert !ActiveMatch(t, (b, a).0, (b, a).1);
      }
    }
  }

  lemma ClauseRedundant(db: Db, matchId: Uuid, viewer: Uuid)
    requires Inv(db)
    ensures Participates(db, matchId, viewer) <==> ParticipatesUnchecked(db, matchId, viewer)
  {
    forall key | key in db.matches && db.matches[key].ending.None?
      ensures key !in db.blocks && (key.1, key.0) !in db.blocks
    {
      KeySymmetric(key.0, key.1);
      assert ActiveMatch(db, key.0, key.1);
      assert key in db.blocks ==> !ActiveMatch(db, key.0, key.1);
      assert (key.1, key.0) in db.blocks ==> !ActiveMatch(db, (key.1, key.0).0, (key.1, key.0).1);
    }
  }

  /** So the block clause of the messaging authorization never excludes anything. */
  lemma BlockClauseRedundant(people: People, g: Geo, events: seq<Event>, matchId: Uuid, viewer: Uuid)
    ensures var db := Run(Init(people), g, events);
            Participates(db, matchId, viewer) <==> ParticipatesUnchecked(db, matchId, viewer)
  {
    RunKeeps(Init(people), g, events);
    ClauseRedundant(Run(Init(people), g, events), matchId, viewer);
  }

  // ----- agreement of the queries -----

  /** A swipe is stored exactly when its target is among the eligible rows of the discovery query in the same
      state at the same instant; and then the target's primary photo is visible. */
  lemma CreatesExactlyWhenOffered(db: Db, g: Geo, s: Swipe, matchId: Uuid)
    requires s.actor != s.target
    ensures RecordSwipe(db, g, s, matchId).1.Created? <==> Eligible(db, g, s.actor, s.target, s.createdAt)
    ensures RecordSwipe(db, g, s, matchId).1.Created? ==>
              && (exists p :: p in db.people.photos && db.people.photos[p].user == s.target
                              && PhotoVisible(db, g, s.actor, p, s.createdAt))
              && (forall p | p in db.people.photos && db.people.photos[p].user == s.target
                             && db.people.photos[p].primary && !db.people.photos[p].deleted ::
                    PhotoVisible(db, g, s.actor, p, s.createdAt))
  {
    if Eligible(db, g, s.actor, s.target, s.createdAt) {
      assert Suited(db, g, s.actor, s.target, s.createdAt);
      var p :| p in db.people.photos && db.people.photos[p].user == s.target
            && db.people.photos[p].primary && !db.people.photos[p].deleted;
      assert PhotoVisible(db, g, s.actor, p, s.createdAt);
    }
  }

  /** Discovery first demands that the viewer is ready, and there the two part: a swipe is stored for someone
      discovery would turn away exactly when the target is eligible and the swiper has no primary photo. */
  lemma CreatedButNotReady(db: Db, g: Geo, s: Swipe, matchId: Uuid)
    requires s.actor != s.target
    ensures RecordSwipe(db, g, s, matchId).1.Created? && !DiscoveryReady(db, s.actor)
       <==> Eligible(db, g, s.actor, s.target, s.createdAt) && !HasPhoto(db, s.actor)
  {
    CreatesExactlyWhenOffered(db, g, s, matchId);
  }

  // ----- the same said independently: who can be shown, who accepts whom, who is near -----

  /** A larger distance contains a smaller one. */
  ghost predicate Widens(g: Geo) {
    forall p, q, m, n :: m <= n && g.within(p, q, m) ==> g.within(p, q, n)
  }

  /** An active, onboarded and located user who says whom they look for and has not withdrawn that consent. */
  predicate Presentable(t: People, u: Uuid) {
    && u in t.users && t.users[u].status == "active"
    && u in t.profiles && t.profiles[u].onboarded && t.profiles[u].location != None
    && u in t.preferences && |t.preferences[u].genders| > 0
    && exists c <- t.consents ::
         t.consents[c] == Consent(u, "matching_gender_preferences", false)
  }

  /** The other's gender is one `u` looks for, and the other's age is within the bounds of `u`. */
  predicate Accepts(t: People, g: Geo, asOf: Time, u: Uuid, other: Uuid)
    requires u in t.preferences && other in t.users
  {
    && t.users[other].gender != None && t.users[other].gender.value in t.preferences[u].genders
    && t.users[other].birthDate != None
    && t.preferences[u].minAge <= g.years(asOf, t.users[other].birthDate.value)
    && g.years(asOf, t.users[other].birthDate.value) <= t.preferences[u].maxAge
  }

  /** The distance is within the limits of both, given in kilometres. */
  predicate Near(t: People, g: Geo, a: Uuid, b: Uuid)
    requires Presentable(t, a) && Presentable(t, b)
  {
    && g.within(t.profiles[a].location.value, t.profiles[b].location.value, t.preferences[a].maxKm * 1000)
    && g.within(t.profiles[a].location.value, t.profiles[b].location.value, t.preferences[b].maxKm * 1000)
  }

  predicate Suit(t: People, g: Geo, asOf: Time, a: Uuid, b: Uuid) {
    && Presentable(t, a) && Presentable(t, b)
    && Accepts(t, g, asOf, a, b) && Accepts(t, g, asOf, b, a) && Near(t, g, a, b)
  }

  predicate HasPrimary(t: People, u: Uuid) {
    exists p <- t.photos :: t.photos[p] == Photo(u, true, false)
  }

  lemma PresentableParts(db: Db, u: Uuid)
    ensures Presentable(db.people, u) <==>
            && u in db.people.users && u in db.people.profiles && u in db.people.preferences && HasConsent(db, u)
            && db.people.users[u].status == "active"
            && db.people.profiles[u].onboarded && db.people.profiles[u].location.Some?
            && db.people.preferences[u].genders != {}
  {
    if HasConsent(db, u) {
      var c :| c in db.people.consents && var row := db.people.consents[c];
        row.user == u && row.purpose == PURPOSE && !row.withdrawn;
      assert db.people.consents[c] == Consent(u, "matching_gender_preferences", false);
    }
  }

  lemma PrimaryParts(db: Db, u: Uuid)
    ensures HasPrimary(db.people, u) <==> HasPhoto(db, u)
  {
    if HasPhoto(db, u) {
      var p :| p in db.people.photos && var row := db.people.photos[p]; row.user == u && row.primary && !row.deleted;
      assert db.people.photos[p] == Photo(u, true, false);
    }
  }

  /** A distance within the smaller of two limits is within both. */
  lemma NearParts(g: Geo, p: Point, q: Point, a: int, b: int)
    requires Widens(g)
    ensures g.within(p, q, LeastInt(a, b) * 1000) <==> g.within(p, q, a * 1000) && g.within(p, q, b * 1000)
  {
  }

  lemma SuitParts(db: Db, g: Geo, asOf: Time, a: Uuid, b: Uuid)
    requires Widens(g)
    ensures Suit(db.people, g, asOf, a, b) && (a, b) !in db.swipes <==> Suited(db, g, a, b, asOf)
  {
    PresentableParts(db, a);
    PresentableParts(db, b);
    if Presentable(db.people, a) && Presentable(db.people, b) {
      var t := db.people;
      NearParts(g, t.profiles[a].location.value, t.profiles[b].location.value,
                t.preferences[a].maxKm, t.preferences[b].maxKm);
    }
  }

  /** Discovery offers exactly those who suit the viewer and whom the viewer suits, in presence, gender, age and
      distance, with a primary photo, and with no swipe of the viewer, no block and no match between them. */
  lemma EligibleExactly(db: Db, g: Geo, viewer: Uuid, candidate: Uuid, asOf: Time)
    requires Widens(g)
    ensures Eligible(db, g, viewer, candidate, asOf) <==>
            && viewer != candidate && Suit(db.people, g, asOf, viewer, candidate) && HasPrimary(db.people, candidate)
            && (viewer, candidate) !in db.swipes
            && (viewer, candidate) !in db.blocks && (candidate, viewer) !in db.blocks
            && OrderedPair(viewer, candidate) !in db.matches
  {
    SuitParts(db, g, asOf, viewer, candidate);
    PrimaryParts(db, candidate);
    OrderedPairIsLeastGreatest(viewer, candidate);
  }

  /** A user is ready for discovery exactly when presentable and with a primary photo. */
  lemma ReadyExactly(db: Db, u: Uuid)
    ensures DiscoveryReady(db, u) <==> Presentable(db.people, u) && HasPrimary(db.people, u)
  {
    PresentableParts(db, u);
    PrimaryParts(db, u);
  }

  /** A photo is visible exactly when it is a primary photo that is not deleted, of the viewer, or of an active
      match, or of someone the viewer suits and has not swiped, and no block is between the two. */
  lemma PhotoExactly(db: Db, g: Geo, viewer: Uuid, photo: Uuid, asOf: Time)
    requires Widens(g) && photo in db.people.photos
    ensures var row := db.people.photos[photo];
            var pair := OrderedPair(viewer, row.user);
            PhotoVisible(db, g, viewer, photo, asOf) <==>
              && row.primary && !row.deleted && (viewer, row.user) !in db.blocks && (row.user, viewer) !in db.blocks
              && (|| row.user == viewer
                  || (pair in db.matches && db.matches[pair].ending == None)
                  || (Suit(db.people, g, asOf, viewer, row.user) && (viewer, row.user) !in db.swipes))
  {
    var owner := db.people.photos[photo].user;
    SuitParts(db, g, asOf, viewer, owner);
    OrderedPairIsLeastGreatest(viewer, owner);
  }

  /** What a swipe is answered: refused for a block, the stored one if there is one, not allowed unless the
      target would be offered, and otherwise created. */
  lemma RecordedExactly(db: Db, g: Geo, s: Swipe, matchId: Uuid)
    requires Widens(g) && s.actor != s.target
    ensures var r := RecordSwipe(db, g, s, matchId).1;
            var pair := OrderedPair(s.actor, s.target);
            var blocked := (s.actor, s.target) in db.blocks || (s.target, s.actor) in db.blocks;
            var known := (s.actor, s.target) in db.swipes;
            var offered := Suit(db.people, g, s.createdAt, s.actor, s.target) && HasPrimary(db.people, s.target)
                           && pair !in db.matches;
            && (r.Refused? <==> blocked)
            && (r.Existing? <==> !blocked && known)
            && (r.NotAllowed? <==> !blocked && !known && !offered)
            && (r.Created? <==> !blocked && !known && offered)
            && (r.Existing? ==>
                  && r.swipe == db.swipes[(s.actor, s.target)]
                  && r.shown == if pair in db.matches && db.matches[pair].ending == None then Some(db.matches[pair])
                                else None)
            && (r.Created? ==> r.swipe == s)
  {
    CreatesExactlyWhenOffered(db, g, s, matchId);
    EligibleExactly(db, g, s.actor, s.target, s.createdAt);
    OrderedPairIsLeastGreatest(s.actor, s.target);
  }

  /** A pair that is too far apart for one of the two is never offered, and its swipe is not allowed. */
  lemma TooFarRefused(db: Db, g: Geo, s: Swipe, matchId: Uuid)
    requires Widens(g) && s.actor != s.target
    requires Presentable(db.people, s.actor) && Presentable(db.people, s.target)
    requires !Near(db.people, g, s.actor, s.target)
    ensures !Eligible(db, g, s.actor, s.target, s.createdAt) && !RecordSwipe(db, g, s, matchId).1.Created?
    ensures !Blocked(db, s.actor, s.target) && (s.actor, s.target) !in db.swipes ==>
              RecordSwipe(db, g, s, matchId).1 == NotAllowed
  {
    EligibleExactly(db, g, s.actor, s.target, s.createdAt);
    RecordedExactly(db, g, s, matchId);
  }

  /** A block stores its row as the blocker made it, and ends the active match of the two in the blocker's name;
      it changes nothing else. */
  lemma BlockExactly(db: Db, blocker: Uuid, blocked: Uuid, at: Time)
    ensures var t := Block(db, blocker, blocked, at);
            var pair := OrderedPair(blocker, blocked);
            && t.people == db.people && t.swipes == db.swipes && t.blocks == db.blocks + {(blocker, blocked)}
            && t.matches.Keys == db.matches.Keys
            && (forall key <- db.matches ::
                  key != pair || db.matches[key].ending != None ==> t.matches[key] == db.matches[key])
            && (pair in db.matches && db.matches[pair].ending == None ==>
                  t.matches[pair] == db.matches[pair].(ending := Some(Ending(at, blocker))))
  {
    OrderedPairIsLeastGreatest(blocker, blocked);
  }

  /** One event is the transaction it names; nobody blocks themselves, and edits replace what others see. */
  lemma StepExactly(db: Db, g: Geo, blocker: Uuid, blocked: Uuid, matchId: Uuid, actor: Uuid, at: Time, s: Swipe,
                    people: People)
    ensures blocker != blocked ==> Step(db, g, DoBlock(blocker, blocked, at)) == Block(db, blocker, blocked, at)
    ensures Step(db, g, DoBlock(blocker, blocker, at)) == db
    ensures Step(db, g, DoUnmatch(matchId, actor, at)) == Unmatch(db, matchId, actor, at)
    ensures s.actor != s.target && (forall key <- db.matches :: db.matches[key].id != matchId) ==>
              Step(db, g, DoSwipe(s, matchId)) == RecordSwipe(db, g, s, matchId).0
    ensures Step(db, g, Edit(people)) == db.(people := people)
  {
  }

  /** An unmatch ends the active match of that id in the name of the participant who asks, and nothing else. */
  lemma UnmatchExactly(db: Db, matchId: Uuid, actor: Uuid, at: Time)
    ensures var t := Unmatch(db, matchId, actor, at);
            && t.people == db.people && t.swipes == db.swipes && t.blocks == db.blocks
            && t.matches.Keys == db.matches.Keys
            && (forall key <- db.matches :: var m := db.matches[key];
                  t.matches[key] == if m.id == matchId && (m.low == actor || m.high == actor) && m.ending == None
                                    then m.(ending := Some(Ending(at, actor))) else m)
  {
  }

  // ----- two users who suit each other -----

  const FLAT := Geo((asOf: Time, born: Date) => 30, (p: Point, q: Point, metres: int) => true)

  /** Both active, onboarded, located, consenting and open to each other, with the given photos. */
  function Couple(a: Uuid, b: Uuid, photos: map<Uuid, Photo>): People {
    var user := User("active", Some("any"), Some(0));
    var wish := Preference(18, 99, 50, {"any"});
    People(map[a := user, b := user], map[a := Profile(true, Some(0)), b := Profile(true, Some(0))],
           map[a := wish, b := wish], map[a := Consent(a, PURPOSE, false), b := Consent(b, PURPOSE, false)], photos)
  }

  function BothPhotos(a: Uuid, b: Uuid): map<Uuid, Photo> {
    map[a := Photo(a, true, false), b := Photo(b, true, false)]
  }

  /** One of them, as the tables have it. */
  predicate Willing(t: People, u: Uuid) {
    && u in t.users && t.users[u] == User("active", Some("any"), Some(0))
    && u in t.profiles && t.profiles[u] == Profile(true, Some(0))
    && u in t.preferences && t.preferences[u] == Preference(18, 99, 50, {"any"})
    && u in t.consents && t.consents[u] == Consent(u, PURPOSE, false)
  }

  lemma CoupleWilling(a: Uuid, b: Uuid, photos: map<Uuid, Photo>)
    ensures Willing(Couple(a, b, photos), a) && Willing(Couple(a, b, photos), b)
  {
  }

  lemma WillingSuit(db: Db, a: Uuid, b: Uuid, asOf: Time)
    requires Willing(db.people, a) && Willing(db.people, b) && b in db.people.photos
    requires db.people.photos[b] == Photo(b, true, false)
    ensures CanSwipeTarget(db, FLAT, a, b, asOf) <==> MatchKey(a, b) !in db.matches
  {
    assert HasConsent(db, a) by {
      assert db.people.consents[a] == Consent(a, PURPOSE, false);
    }
    assert HasConsent(db, b) by {
      assert db.people.consents[b] == Consent(b, PURPOSE, false);
    }
    assert HasPhoto(db, b);
    assert "any" in db.people.preferences[a].genders && "any" in db.people.preferences[b].genders;
  }

  /** So a swipe is stored for a user whom discovery would turn away: the target has a primary photo, the
      swiper has none. */
  lemma SwipedWithoutPhoto(a: Uuid, b: Uuid, id: Uuid, matchId: Uuid, at: Time)
    requires a != b
    ensures var db := Init(Couple(a, b, map[b := Photo(b, true, false)]));
            RecordSwipe(db, FLAT, Swipe(id, a, b, Like, at), matchId).1.Created? && !DiscoveryReady(db, a)
  {
    var photos := map[b := Photo(b, true, false)];
    CoupleWilling(a, b, photos);
    WillingSuit(Init(Couple(a, b, photos)), a, b, at);
  }

  lemma WillingLikes(db: Db, a: Uuid, b: Uuid, matchId: Uuid)
    requires a != b && Willing(db.people, a) && Willing(db.people, b) && db.matches == map[] && db.blocks == {}
    requires (a, b) !in db.swipes && b in db.people.photos && db.people.photos[b] == Photo(b, true, false)
    ensures var like := Swipe(a, a, b, Like, 0);
            var t := Step(db, FLAT, DoSwipe(like, matchId));
            && t.people == db.people && t.blocks == {} && t.swipes == db.swipes[(a, b) := like]
            && t.matches == if Positive(db, b, a)
                            then map[MatchKey(a, b) := Match(matchId, MatchKey(a, b).0, MatchKey(a, b).1, 0, None)]
                            else map[]
  {
    WillingSuit(db, a, b, 0);
    SwipeEffect(db, FLAT, Swipe(a, a, b, Like, 0), matchId);
  }

  /** With photos of both, two likes make a match. */
  lemma CoupleMatches(a: Uuid, b: Uuid, matchId: Uuid)
    requires a != b
    ensures var db := Init(Couple(a, b, BothPhotos(a, b)));
            var liked := Step(db, FLAT, DoSwipe(Swipe(a, a, b, Like, 0), matchId));
            ParticipatesUnchecked(Step(liked, FLAT, DoSwipe(Swipe(b, b, a, Like, 0), matchId)), matchId, a)
  {
    var db := Init(Couple(a, b, BothPhotos(a, b)));
    var liked := Step(db, FLAT, DoSwipe(Swipe(a, a, b, Like, 0), matchId));
    CoupleWilling(a, b, BothPhotos(a, b));
    WillingLikes(db, a, b, matchId);
    WillingLikes(liked, b, a, matchId);
    assert MatchKey(b, a) in Step(liked, FLAT, DoSwipe(Swipe(b, b, a, Like, 0), matchId)).matches;
  }

  /** In every reachable state another user's primary photo is visible exactly to those who have an
      active match with its owner and to those to whom discovery would offer the owner. */
  lemma PhotoVisibleExactly(people: People, g: Geo, events: seq<Event>, viewer: Uuid, p: Uuid, asOf: Time)
    requires var db := Run(Init(people), g, events);
             && p in db.people.photos && db.people.photos[p].primary && !db.people.photos[p].deleted
             && db.people.photos[p].user != viewer
    ensures var db := Run(Init(people), g, events);
            var owner := db.people.photos[p].user;
            PhotoVisible(db, g, viewer, p, asOf) <==>
              ActiveMatch(db, viewer, owner) || Eligible(db, g, viewer, owner, asOf)
  {
    RunKeeps(Init(people), g, events);
    var db := Run(Init(people), g, events);
    var owner := db.people.photos[p].user;
    assert MatchedIffMutual(db, viewer, owner);
    KeySymmetric(viewer, owner);
    if Blocked(db, viewer, owner) {
      BlockedNeverMatched(people, g, events, [], viewer, owner);
      assert Run(db, g, []) == db;
    }
    assert HasPhoto(db, owner);
  }

  /** Discovery is mutual: a ready viewer is offered to every candidate they are offered, unless that
      candidate has already swiped them. */
  lemma DiscoveryMutual(db: Db, g: Geo, viewer: Uuid, candidate: Uuid, asOf: Time)
    requires Symmetric(g) && DiscoveryReady(db, viewer) && Eligible(db, g, viewer, candidate, asOf)
    ensures Eligible(db, g, candidate, viewer, asOf) <==> (candidate, viewer) !in db.swipes
  {
    KeySymmetric(viewer, candidate);
  }
}
