/** Messages over the matches that admit them: the two machines run side by side, and a send is admitted
    by what the tables of matches and blocks say at that moment. */
module Conversations {
  import opened Wrappers
  import opened Uuids
  import Matching
  import Messaging

  datatype State = State(db: Matching.Db, messages: Messaging.State)

  /** `limited` stands for a refusal, or a failure, of the rate limit or of the query. */
  datatype Event =
    | Social(act: Matching.Event)
    | Admit(call: Messaging.CallId, limited: bool)
    | Other(step: Messaging.Event)

  /** One of the two users of an active match with that id, and no block between them. */
  predicate Joins(db: Matching.Db, p: Messaging.Participants, matchId: Uuid, viewer: Uuid) {
    && (p.low, p.high) in db.matches && db.matches[(p.low, p.high)].id == matchId
    && db.matches[(p.low, p.high)].ending.None? && !Matching.Blocked(db, p.low, p.high)
    && (p.low == viewer || p.high == viewer)
  }

  /** `GetActiveParticipants`, with the users of the row it finds. */
  ghost function ActiveParticipants(db: Matching.Db, matchId: Uuid, viewer: Uuid): (p: Option<Messaging.Participants>)
    requires Matching.Keyed(db)
    ensures p.Some? <==> Matching.Participates(db, matchId, viewer)
    ensures p.Some? ==> Joins(db, p.value, matchId, viewer)
  {
    if Matching.Participates(db, matchId, viewer) then
      var key :| key in db.matches && var m := db.matches[key];
        && m.id == matchId && m.ending.None? && (m.low == viewer || m.high == viewer)
        && !((m.low, m.high) in db.blocks || (m.high, m.low) in db.blocks);
      Some(Messaging.Participants(key.0, key.1))
    else None
  }

  /** An id names one match, so its two users are determined. */
  lemma JoinsOne(db: Matching.Db, p: Messaging.Participants, q: Messaging.Participants, matchId: Uuid, viewer: Uuid)
    requires Matching.UniqueIds(db) && Joins(db, p, matchId, viewer) && Joins(db, q, matchId, viewer)
    ensures p == q
  {
    assert (p.low, p.high) == (q.low, q.high);
  }

  ghost function Step(s: State, g: Matching.Geo, e: Event): State {
    match e
    case Social(act) => s.(db := Matching.Step(s.db, g, act))
    case Admit(call, limited) =>
      if call !in s.messages.calls || !Matching.Keyed(s.db) then s
      else
        var i := s.messages.calls[call].input;
        var p := if limited then None else ActiveParticipants(s.db, i.matchId, i.sender);
        s.(messages := Messaging.Step(s.messages, Messaging.Admit(call, p)))
    case Other(step) => if step.Admit? then s else s.(messages := Messaging.Step(s.messages, step))
  }

  ghost function Run(people: Matching.People, g: Matching.Geo, events: seq<Event>): State {
    if events == [] then State(Matching.Init(people), Messaging.INIT)
    else Step(Run(people, g, events[..|events| - 1]), g, events[|events| - 1])
  }

  lemma {:induction false} RunKeyed(people: Matching.People, g: Matching.Geo, events: seq<Event>)
    ensures Matching.Inv(Run(people, g, events).db) && Matching.UniqueIds(Run(people, g, events).db)
  {
    if events == [] {
    } else {
      var before, e := events[..|events| - 1], events[|events| - 1];
      RunKeyed(people, g, before);
      if e.Social? {
        Matching.StepKeeps(Run(people, g, before).db, g, e.act);
        Matching.StepKeepsIds(Run(people, g, before).db, g, e.act);
      }
    }
  }

  /** At some moment of the run the sender was one of the two users of that active, unblocked match. */
  ghost predicate JoinedOnce(people: Matching.People, g: Matching.Geo, events: seq<Event>,
                             p: Messaging.Participants, matchId: Uuid, sender: Uuid) {
    exists k {:trigger events[..k]} | 0 <= k <= |events| :: Joins(Run(people, g, events[..k]).db, p, matchId, sender)
  }

  lemma JoinedStays(people: Matching.People, g: Matching.Geo, events: seq<Event>,
                    p: Messaging.Participants, matchId: Uuid, sender: Uuid)
    requires events != [] && JoinedOnce(people, g, events[..|events| - 1], p, matchId, sender)
    ensures JoinedOnce(people, g, events, p, matchId, sender)
  {
    var before := events[..|events| - 1];
    var k :| 0 <= k <= |before| && Joins(Run(people, g, before[..k]).db, p, matchId, sender);
    assert before[..k] == events[..k];
  }

  lemma JoinedNow(people: Matching.People, g: Matching.Geo, events: seq<Event>,
                  p: Messaging.Participants, matchId: Uuid, sender: Uuid)
    requires events != [] && Joins(Run(people, g, events[..|events| - 1]).db, p, matchId, sender)
    ensures JoinedOnce(people, g, events, p, matchId, sender)
  {
    assert events[..|events| - 1] == events[..|events| - 1];
  }

  /** Who is known to have joined which match, as `JoinedOnce` says it of a run. */
  type Reach = (Messaging.Participants, Uuid, Uuid) -> bool

  ghost function Reached(people: Matching.People, g: Matching.Geo, events: seq<Event>): Reach {
    (p: Messaging.Participants, matchId: Uuid, sender: Uuid) => JoinedOnce(people, g, events, p, matchId, sender)
  }

  /** A call that was admitted has joined, and what it inserted is its own. */
  predicate CallJoined(joined: Reach, c: Messaging.Call) {
    && (c.phase.Admitted? || c.phase.Inserted? ==> joined(c.phase.participants, c.input.matchId, c.input.sender))
    && (c.phase.Inserted? ==> c.phase.body.matchId == c.input.matchId && c.phase.body.sender == c.input.sender)
  }

  ghost predicate BodyJoined(joined: Reach, body: Messaging.Body) {
    exists p :: joined(p, body.matchId, body.sender)
  }

  ghost predicate Joined(joined: Reach, m: Messaging.State) {
    && (forall call <- m.calls :: CallJoined(joined, m.calls[call]))
    && (forall k <- m.rows :: BodyJoined(joined, m.rows[k].body))
    && (forall p <- m.published :: joined(p.recipients, p.matchId, p.body.sender))
  }

  lemma AllStay(before: Reach, after: Reach, m: Messaging.State)
    requires Joined(before, m)
    requires forall p: Messaging.Participants, matchId: Uuid, sender: Uuid ::
               before(p, matchId, sender) ==> after(p, matchId, sender)
    ensures Joined(after, m)
  {
    forall call | call in m.calls ensures CallJoined(after, m.calls[call]) {
      assert CallJoined(before, m.calls[call]);
    }
    forall k | k in m.rows ensures BodyJoined(after, m.rows[k].body) {
      assert BodyJoined(before, m.rows[k].body);
    }
  }

  lemma InsertKeeps(joined: Reach, m: Messaging.State, call: Messaging.CallId, id: Messaging.MessageId,
                    delivery: Messaging.Delivery)
    requires Joined(joined, m) && call in m.calls && m.calls[call].phase.Admitted?
    ensures Joined(joined, Messaging.StepInsert(m, call, id, delivery))
  {
    var t := Messaging.StepInsert(m, call, id, delivery);
    assert CallJoined(joined, m.calls[call]);
    assert BodyJoined(joined, Messaging.BodyOf(m.calls[call].input, id));
    forall other | other in t.calls ensures CallJoined(joined, t.calls[other]) {
      assert CallJoined(joined, m.calls[other]);
    }
    forall k | k in t.rows ensures BodyJoined(joined, t.rows[k].body) {
      if k in m.rows {
        assert BodyJoined(joined, m.rows[k].body);
      }
    }
  }

  lemma PublishKeeps(joined: Reach, m: Messaging.State, call: Messaging.CallId, lost: bool)
    requires Joined(joined, m) && call in m.calls && m.calls[call].phase.Inserted?
    ensures Joined(joined, Messaging.StepPublish(m, call, lost))
  {
    assert CallJoined(joined, m.calls[call]);
  }

  /** No step of a send but the admission needs to look at the matches. */
  lemma OtherKeeps(joined: Reach, m: Messaging.State, e: Messaging.Event)
    requires Joined(joined, m) && !e.Admit?
    ensures Joined(joined, Messaging.Step(m, e))
  {
    if e.Insert? {
      if e.call in m.calls && m.calls[e.call].phase.Admitted? {
        InsertKeeps(joined, m, e.call, e.id, e.delivery);
      }
    } else if e.Publish? {
      if e.call in m.calls && m.calls[e.call].phase.Inserted? {
        PublishKeeps(joined, m, e.call, e.lost);
      }
    }
  }

  lemma AdmitKeeps(joined: Reach, m: Messaging.State, call: Messaging.CallId, p: Option<Messaging.Participants>)
    requires Joined(joined, m)
    requires p.Some? && call in m.calls ==> joined(p.value, m.calls[call].input.matchId, m.calls[call].input.sender)
    ensures Joined(joined, Messaging.Step(m, Messaging.Admit(call, p)))
  {
  }

  lemma {:induction false} RunJoined(people: Matching.People, g: Matching.Geo, events: seq<Event>)
    ensures Joined(Reached(people, g, events), Run(people, g, events).messages)
  {
    if events == [] {
    } else {
      var before, e := events[..|events| - 1], events[|events| - 1];
      var s := Run(people, g, before);
      RunJoined(people, g, before);
      forall p: Messaging.Participants, matchId: Uuid, sender: Uuid | JoinedOnce(people, g, before, p, matchId, sender)
        ensures JoinedOnce(people, g, events, p, matchId, sender)
      {
        JoinedStays(people, g, events, p, matchId, sender);
      }
      AllStay(Reached(people, g, before), Reached(people, g, events), s.messages);
      StepJoined(people, g, events);
    }
  }

  lemma StepJoined(people: Matching.People, g: Matching.Geo, events: seq<Event>)
    requires events != []
    requires Joined(Reached(people, g, events), Run(people, g, events[..|events| - 1]).messages)
    ensures Joined(Reached(people, g, events), Run(people, g, events).messages)
  {
    var s := Run(people, g, events[..|events| - 1]);
    var joined := Reached(people, g, events);
    match events[|events| - 1]
    case Social(_) =>
    case Other(step) => if !step.Admit? { OtherKeeps(joined, s.messages, step); }
    case Admit(call, limited) =>
      if call in s.messages.calls && Matching.Keyed(s.db) {
        var i := s.messages.calls[call].input;
        var p := if limited then None else ActiveParticipants(s.db, i.matchId, i.sender);
        if p.Some? {
          JoinedNow(people, g, events, p.value, i.matchId, i.sender);
        }
        AdmitKeeps(joined, s.messages, call, p);
      }
  }

  // ----- main results -----

  /** Every stored message was sent by someone who, at some moment before, was one of the two users of its
      match while that was active and nobody had blocked. */
  lemma StoredByParticipant(people: Matching.People, g: Matching.Geo, events: seq<Event>, k: Messaging.Key)
    requires k in Run(people, g, events).messages.rows
    ensures var body := Run(people, g, events).messages.rows[k].body;
            exists p :: JoinedOnce(people, g, events, p, body.matchId, body.sender)
  {
    RunJoined(people, g, events);
    var body := Run(people, g, events).messages.rows[k].body;
    assert BodyJoined(Reached(people, g, events), body);
    var p :| Reached(people, g, events)(p, body.matchId, body.sender);
    assert JoinedOnce(people, g, events, p, body.matchId, body.sender);
  }

  /** Every published event goes to exactly those two users. */
  lemma PublishedToParticipants(people: Matching.People, g: Matching.Geo, events: seq<Event>, p: Messaging.Published)
    requires p in Run(people, g, events).messages.published
    ensures JoinedOnce(people, g, events, p.recipients, p.matchId, p.body.sender)
  {
    RunJoined(people, g, events);
  }

  /** In every reachable state an unlimited send is admitted if and only if its sender takes part in an
      active match of that id. */
  lemma AdmittedExactly(people: Matching.People, g: Matching.Geo, events: seq<Event>, call: Messaging.CallId)
    requires var m := Run(people, g, events).messages; call in m.calls && m.calls[call].phase.Valid?
    ensures var s := Run(people, g, events);
            var i := s.messages.calls[call].input;
            Step(s, g, Admit(call, false)).messages.calls[call].phase.Admitted?
            <==> Matching.ParticipatesUnchecked(s.db, i.matchId, i.sender)
  {
    RunKeyed(people, g, events);
    var s := Run(people, g, events);
    var i := s.messages.calls[call].input;
    Matching.ClauseRedundant(s.db, i.matchId, i.sender);
  }

  /** A limited send is refused, whoever sends it. */
  lemma LimitedRefused(s: State, g: Matching.Geo, call: Messaging.CallId)
    requires call in s.messages.calls && s.messages.calls[call].phase.Valid? && Matching.Keyed(s.db)
    ensures var t := Step(s, g, Admit(call, true));
            t.db == s.db && t.messages.rows == s.messages.rows
            && t.messages.calls[call].phase == Messaging.Done(Messaging.NotAdmitted)
  {
  }

  // ----- how long the two users stay together -----

  /** A block between the two users, or the end of their match by one of them. */
  predicate Parts(e: Event, p: Messaging.Participants, matchId: Uuid) {
    e.Social? &&
    match e.act
    case DoBlock(a, b, _) => (a == p.low && b == p.high) || (a == p.high && b == p.low)
    case DoUnmatch(id, actor, _) => id == matchId && (actor == p.low || actor == p.high)
    case _ => false
  }

  /** The match has ended, as it then stays. */
  predicate Parted(db: Matching.Db, p: Messaging.Participants) {
    (p.low, p.high) in db.matches && db.matches[(p.low, p.high)].ending.Some?
  }

  predicate NoneParts(events: seq<Event>, p: Messaging.Participants, matchId: Uuid) {
    forall e <- events :: !Parts(e, p, matchId)
  }

  lemma NonePartsNext(events: seq<Event>, e: Event, p: Messaging.Participants, matchId: Uuid)
    ensures NoneParts(events + [e], p, matchId) <==> NoneParts(events, p, matchId) && !Parts(e, p, matchId)
  {
    assert e in events + [e];
    assert forall other <- events :: other in events + [e];
  }

  lemma RunNext(people: Matching.People, g: Matching.Geo, events: seq<Event>, e: Event)
    ensures Run(people, g, events + [e]) == Step(Run(people, g, events), g, e)
  {
    assert (events + [e])[..|events|] == events;
  }

  lemma SwipeTogether(db: Matching.Db, g: Matching.Geo, act: Matching.Event,
                      p: Messaging.Participants, matchId: Uuid, viewer: Uuid)
    requires act.DoSwipe? && Matching.Keyed(db) && Joins(db, p, matchId, viewer)
    ensures Joins(Matching.Step(db, g, act), p, matchId, viewer)
  {
    assert Matching.MatchKey(p.low, p.high) == (p.low, p.high);
    Matching.SwipeEffect(db, g, act.swipe, act.matchId);
    PairDetermines(act.swipe.actor, act.swipe.target, p.low, p.high);
  }

  lemma BlockTogether(db: Matching.Db, g: Matching.Geo, act: Matching.Event,
                      p: Messaging.Participants, matchId: Uuid, viewer: Uuid)
    requires act.DoBlock? && Matching.Keyed(db) && Joins(db, p, matchId, viewer)
    ensures var t := Matching.Step(db, g, act);
            if Parts(Social(act), p, matchId) then Parted(t, p) else Joins(t, p, matchId, viewer)
  {
    assert Matching.MatchKey(p.low, p.high) == (p.low, p.high) && p.low != p.high;
    PairDetermines(act.blocker, act.blocked, p.low, p.high);
  }

  lemma SocialStep(db: Matching.Db, g: Matching.Geo, act: Matching.Event,
                   p: Messaging.Participants, matchId: Uuid, viewer: Uuid)
    requires Matching.Keyed(db) && Joins(db, p, matchId, viewer)
    ensures var t := Matching.Step(db, g, act);
            if Parts(Social(act), p, matchId) then Parted(t, p) else Joins(t, p, matchId, viewer)
  {
    match act
    case DoSwipe(_, _) => SwipeTogether(db, g, act, p, matchId, viewer);
    case DoBlock(_, _, _) => BlockTogether(db, g, act, p, matchId, viewer);
    case DoUnmatch(_, _, _) =>
    case Edit(_) =>
  }

  lemma StepTogether(people: Matching.People, g: Matching.Geo, events: seq<Event>, e: Event,
                     p: Messaging.Participants, matchId: Uuid, viewer: Uuid)
    ensures var s, t := Run(people, g, events).db, Run(people, g, events + [e]).db;
            && (Joins(s, p, matchId, viewer) ==>
                  if Parts(e, p, matchId) then Parted(t, p) else Joins(t, p, matchId, viewer))
            && (Parted(s, p) ==> Parted(t, p))
  {
    RunNext(people, g, events, e);
    RunKeyed(people, g, events);
    var s := Run(people, g, events).db;
    if e.Social? {
      if Joins(s, p, matchId, viewer) {
        SocialStep(s, g, e.act, p, matchId, viewer);
      }
      if Parted(s, p) {
        Matching.StepKeepsEnded(s, g, e.act, (p.low, p.high));
      }
    }
  }

  /** From a moment at which the two were together: they still are, in every later state, if and only if no
      event since was a block between them or the end of their match by one of them. */
  lemma {:induction false} TogetherUntilParted(people: Matching.People, g: Matching.Geo,
                                               before: seq<Event>, later: seq<Event>,
                                               p: Messaging.Participants, matchId: Uuid, viewer: Uuid)
    requires Joins(Run(people, g, before).db, p, matchId, viewer)
    ensures var t := Run(people, g, before + later).db;
            && (Joins(t, p, matchId, viewer) <==> NoneParts(later, p, matchId))
            && (Parted(t, p) <==> !NoneParts(later, p, matchId))
    decreases |later|
  {
    if later == [] {
      assert before + later == before;
    } else {
      var init, last := later[..|later| - 1], later[|later| - 1];
      TogetherUntilParted(people, g, before, init, p, matchId, viewer);
      StepTogether(people, g, before + init, last, p, matchId, viewer);
      NonePartsNext(init, last, p, matchId);
      assert before + later == before + init + [last] && later == init + [last];
    }
  }

  // ----- a message between admission and publication -----

  /** A valid send by someone who takes part in an active match of that id. */
  predicate Entitled(s: State, call: Messaging.CallId) {
    && call in s.messages.calls && s.messages.calls[call].phase.Valid?
    && var i := s.messages.calls[call].input; Matching.ParticipatesUnchecked(s.db, i.matchId, i.sender)
  }

  /** The call is past validation, and with these participants while it is under way. */
  predicate PastAdmission(m: Messaging.State, call: Messaging.CallId, i: Messaging.Input, p: Messaging.Participants) {
    && call in m.calls && m.calls[call].input == i && !m.calls[call].phase.Valid?
    && (m.calls[call].phase.Admitted? || m.calls[call].phase.Inserted? ==> m.calls[call].phase.participants == p)
  }

  lemma PastStays(m: Messaging.State, e: Messaging.Event, call: Messaging.CallId,
                  i: Messaging.Input, p: Messaging.Participants)
    requires PastAdmission(m, call, i, p)
    ensures PastAdmission(Messaging.Step(m, e), call, i, p)
  {
  }

  lemma {:induction false} PastAlways(people: Matching.People, g: Matching.Geo, before: seq<Event>, later: seq<Event>,
                                      call: Messaging.CallId, i: Messaging.Input, p: Messaging.Participants)
    requires PastAdmission(Run(people, g, before).messages, call, i, p)
    ensures PastAdmission(Run(people, g, before + later).messages, call, i, p)
    decreases |later|
  {
    if later == [] {
      assert before + later == before;
    } else {
      var init, last := later[..|later| - 1], later[|later| - 1];
      PastAlways(people, g, before, init, call, i, p);
      assert before + later == before + init + [last];
      RunNext(people, g, before + init, last);
      var s := Run(people, g, before + init);
      match last
      case Social(_) =>
      case Other(step) => PastStays(s.messages, step, call, i, p);
      case Admit(other, limited) =>
        if other in s.messages.calls && Matching.Keyed(s.db) {
          var j := s.messages.calls[other].input;
          var q := if limited then None else ActiveParticipants(s.db, j.matchId, j.sender);
          PastStays(s.messages, Messaging.Admit(other, q), call, i, p);
        }
    }
  }

  /** An unlimited send in a reachable state, by someone who takes part in an active match of that id, is
      admitted with its two users, who are together. */
  lemma AdmittedWith(people: Matching.People, g: Matching.Geo, before: seq<Event>, call: Messaging.CallId)
    returns (p: Messaging.Participants)
    requires Entitled(Run(people, g, before), call)
    ensures var s := Run(people, g, before);
            var i := s.messages.calls[call].input;
            var t := Run(people, g, before + [Admit(call, false)]);
            && Joins(t.db, p, i.matchId, i.sender) && p.low != p.high && t.db == s.db
            && t.messages == Messaging.SetPhase(s.messages, call, Messaging.Admitted(p))
  {
    RunKeyed(people, g, before);
    RunNext(people, g, before, Admit(call, false));
    var s := Run(people, g, before);
    var i := s.messages.calls[call].input;
    Matching.ClauseRedundant(s.db, i.matchId, i.sender);
    p := ActiveParticipants(s.db, i.matchId, i.sender).value;
  }

  /** The exact condition: a send that was admitted stores its row whatever has happened since, and at that
      moment the two users are together if and only if no event since the admission parted them. */
  lemma StoredTogetherExactly(people: Matching.People, g: Matching.Geo, before: seq<Event>, between: seq<Event>,
                              call: Messaging.CallId, id: Messaging.MessageId)
    returns (p: Messaging.Participants)
    requires Entitled(Run(people, g, before), call)
    requires var m := Run(people, g, before + [Admit(call, false)] + between).messages;
             && call in m.calls && m.calls[call].phase.Admitted?
             && Messaging.FreshId(m, id) && Messaging.KeyOf(m.calls[call].input) !in m.rows
    ensures var i := Run(people, g, before).messages.calls[call].input;
            var insert := Other(Messaging.Insert(call, id, Messaging.Delivered));
            var t := Run(people, g, before + [Admit(call, false)] + between + [insert]);
            && Messaging.KeyOf(i) in t.messages.rows
            && t.messages.rows[Messaging.KeyOf(i)].body == Messaging.BodyOf(i, id)
            && (Joins(t.db, p, i.matchId, i.sender) <==> NoneParts(between, p, i.matchId))
            && (Parted(t.db, p) <==> !NoneParts(between, p, i.matchId))
  {
    p := AdmittedWith(people, g, before, call);
    var admitted := before + [Admit(call, false)];
    var i := Run(people, g, before).messages.calls[call].input;
    PastAlways(people, g, admitted, between, call, i, p);
    TogetherUntilParted(people, g, admitted, between, p, i.matchId, i.sender);
    RunNext(people, g, admitted + between, Other(Messaging.Insert(call, id, Messaging.Delivered)));
  }

  /** The same of the event: it is published to the two users who were together at the admission, and they
      still are if and only if no event since then parted them. */
  lemma PublishedTogetherExactly(people: Matching.People, g: Matching.Geo, before: seq<Event>, between: seq<Event>,
                                 call: Messaging.CallId)
    returns (p: Messaging.Participants)
    requires Entitled(Run(people, g, before), call)
    requires var m := Run(people, g, before + [Admit(call, false)] + between).messages;
             call in m.calls && m.calls[call].phase.Inserted?
    ensures var i := Run(people, g, before).messages.calls[call].input;
            var m := Run(people, g, before + [Admit(call, false)] + between).messages;
            var t := Run(people, g, before + [Admit(call, false)] + between + [Other(Messaging.Publish(call, false))]);
            && t.messages.published == m.published + [Messaging.Published(i.matchId, p, m.calls[call].phase.body)]
            && (Joins(t.db, p, i.matchId, i.sender) <==> NoneParts(between, p, i.matchId))
            && (Parted(t.db, p) <==> !NoneParts(between, p, i.matchId))
  {
    p := AdmittedWith(people, g, before, call);
    var admitted := before + [Admit(call, false)];
    var i := Run(people, g, before).messages.calls[call].input;
    PastAlways(people, g, admitted, between, call, i, p);
    TogetherUntilParted(people, g, admitted, between, p, i.matchId, i.sender);
    RunNext(people, g, admitted + between, Other(Messaging.Publish(call, false)));
  }

  lemma InsertAndPublish(m: Messaging.State, call: Messaging.CallId, id: Messaging.MessageId, p: Messaging.Participants)
    requires call in m.calls && m.calls[call].phase == Messaging.Admitted(p) && Messaging.FreshId(m, id)
    requires Messaging.KeyOf(m.calls[call].input) !in m.rows
    ensures var i := m.calls[call].input;
            var inserted := Messaging.Step(m, Messaging.Insert(call, id, Messaging.Delivered));
            var t := Messaging.Step(inserted, Messaging.Publish(call, false));
            && Messaging.KeyOf(i) in t.rows && t.rows[Messaging.KeyOf(i)].body == Messaging.BodyOf(i, id)
            && Messaging.Published(i.matchId, p, Messaging.BodyOf(i, id)) in t.published
  {
  }

  /** And it does fall between: in every reachable state, a valid send of a participant may be admitted, then a
      block parts the two users, and its row is stored and published to both all the same. */
  lemma StoredAfterBlock(people: Matching.People, g: Matching.Geo, before: seq<Event>,
                         call: Messaging.CallId, id: Messaging.MessageId, at: Matching.Time)
    returns (p: Messaging.Participants, events: seq<Event>)
    requires Entitled(Run(people, g, before), call)
    requires var m := Run(people, g, before).messages;
             Messaging.FreshId(m, id) && Messaging.KeyOf(m.calls[call].input) !in m.rows
    ensures events == before + [Admit(call, false)] + [Social(Matching.DoBlock(p.low, p.high, at))]
                      + [Other(Messaging.Insert(call, id, Messaging.Delivered))]
                      + [Other(Messaging.Publish(call, false))]
    ensures var i := Run(people, g, before).messages.calls[call].input;
            var t := Run(people, g, events);
            && Matching.Blocked(t.db, p.low, p.high) && Parted(t.db, p) && (i.sender == p.low || i.sender == p.high)
            && Messaging.KeyOf(i) in t.messages.rows
            && t.messages.rows[Messaging.KeyOf(i)].body == Messaging.BodyOf(i, id)
            && Messaging.Published(i.matchId, p, Messaging.BodyOf(i, id)) in t.messages.published
  {
    p := AdmittedWith(people, g, before, call);
    var i := Run(people, g, before).messages.calls[call].input;
    var block := Social(Matching.DoBlock(p.low, p.high, at));
    var insert := Other(Messaging.Insert(call, id, Messaging.Delivered));
    var publish := Other(Messaging.Publish(call, false));
    var a := before + [Admit(call, false)];
    StepTogether(people, g, a, block, p, i.matchId, i.sender);
    RunNext(people, g, a, block);
    RunNext(people, g, a + [block], insert);
    RunNext(people, g, a + [block] + [insert], publish);
    events := a + [block] + [insert] + [publish];
    InsertAndPublish(Run(people, g, a).messages, call, id, p);
  }

  /** Such a state is reached: two users who suit each other like each other, and one begins to write. */
  lemma ReadyToSend(a: Uuid, b: Uuid, matchId: Uuid, text: string) returns (people: Matching.People, events: seq<Event>)
    requires a != b && Messaging.Validate(Messaging.Input(matchId, a, 1, text)).Valid?
    ensures var s := Run(people, Matching.FLAT, events);
            && Entitled(s, 0) && s.messages.calls[0].input == Messaging.Input(matchId, a, 1, text)
            && s.messages.rows == map[]
  {
    var g := Matching.FLAT;
    people := Matching.Couple(a, b, Matching.BothPhotos(a, b));
    var first := Matching.DoSwipe(Matching.Swipe(a, a, b, Matching.Like, 0), matchId);
    var second := Matching.DoSwipe(Matching.Swipe(b, b, a, Matching.Like, 0), matchId);
    var begin := Messaging.Begin(0, Messaging.Input(matchId, a, 1, text));
    assert Run(people, g, []) == State(Matching.Init(people), Messaging.INIT);
    RunNext(people, g, [], Social(first));
    RunNext(people, g, [Social(first)], Social(second));
    events := [Social(first)] + [Social(second)] + [Other(begin)];
    RunNext(people, g, [Social(first)] + [Social(second)], Other(begin));
    assert [] + [Social(first)] == [Social(first)];
    Matching.CoupleMatches(a, b, matchId);
  }
}
