/** The code of one swipe request run without interruption: the limiter with its two scripts, and
    the service method that uses it. */
module SwipeService {
  import opened SwipeBudget
  import opened Uuids
  import opened Wrappers
  import M = Matching
  import MatchingRepository
  import Stores = SwipeStores

  class SwipeLimiter {
    var counters: map<Key, Entry>

    constructor ()
      ensures counters == map[]
    {
      counters := map[];
    }

    method Reserve(k: Key, limit: nat, persisted: nat, now: nat) returns (reserved: bool, retryAfter: int)
      modifies this
      ensures var (entry, admitted) := ReserveScript(old(Lookup(counters, k)), persisted, limit, Expiry(k.day, now));
              counters == Put(old(counters), k, entry) && reserved == admitted
      ensures retryAfter == RetryAfter(k.day, now)
    {
      retryAfter := k.day * DAY + DAY - now;
      if retryAfter < 1 {
        retryAfter := 1;
      }
      var ttl := retryAfter + HOUR;

      var current := 0;
      if k in counters {
        current := counters[k].value;
      }
      if current < persisted {
        current := persisted;
        counters := counters[k := Entry(current, now + ttl)];
      }
      if current >= limit {
        return false, retryAfter;
      }
      current := current + 1;
      counters := counters[k := Entry(current, now + ttl)];
      reserved := true;
    }

    method Release(k: Key, floor: nat)
      modifies this
      ensures counters == Put(old(counters), k, ReleaseScript(old(Lookup(counters, k)), floor))
    {
      var current := 0;
      if k in counters {
        current := counters[k].value;
      }
      if current > floor {
        counters := counters[k := counters[k].(value := current - 1)];
      }
    }
  }

  function ActionOf(action: string): Option<M.Action> {
    if action == "like" then Some(M.Like)
    else if action == "dislike" then Some(M.Dislike)
    else if action == "superlike" then Some(M.Superlike)
    else None
  }

  /** The three actions by their names, and no other. */
  lemma ActionsExactly(action: string)
    ensures ActionOf("like") == Some(M.Like) && ActionOf("dislike") == Some(M.Dislike)
    ensures ActionOf("superlike") == Some(M.Superlike)
    ensures action !in {"like", "dislike", "superlike"} ==> ActionOf(action) == None
  {
    assert "like"[0] != "dislike"[0] && "like"[0] != "superlike"[0] && "dislike"[0] != "superlike"[0];
  }

  /** What fails during one request: its statements, and how its two Redis calls end. */
  datatype Environment = Environment(
    findFails: bool, countFails: bool, reserve: Delivery, recordFails: bool, release: Delivery)

  /** One request: its call, who swipes whom how, and the ids drawn for the rows it may store. */
  datatype Request = Request(call: CallId, actor: UserId, aim: Stores.Aim, id: Uuid, matchId: Uuid) {
    function Row(at: nat): M.Swipe {
      M.Swipe(id, actor, aim.target, aim.action, at)
    }
  }

  /** The events of a request that nobody interrupts; those its branches never reach do nothing. */
  function Solo(q: Request, env: Environment): seq<Stores.Event> {
    [Stores.Ask(q.call, q.actor, q.aim), Stores.Find(q.call, env.findFails),
     Stores.Move(Count(q.call, env.countFails)), Stores.Move(Reserve(q.call, env.reserve)),
     Stores.Record(q.call, env.recordFails, q.id, q.matchId), Stores.Move(Release(q.call, env.release))]
  }

  function AfterReserve(s: Stores.State, g: M.Geo, q: Request, env: Environment): Stores.State {
    var t := Stores.Step(s, g, Stores.Record(q.call, env.recordFails, q.id, q.matchId));
    Stores.Step(t, g, Stores.Move(Release(q.call, env.release)))
  }

  function AfterCount(s: Stores.State, g: M.Geo, q: Request, env: Environment): Stores.State {
    AfterReserve(Stores.Step(s, g, Stores.Move(Reserve(q.call, env.reserve))), g, q, env)
  }

  function AfterFind(s: Stores.State, g: M.Geo, q: Request, env: Environment): Stores.State {
    AfterCount(Stores.Step(s, g, Stores.Move(Count(q.call, env.countFails))), g, q, env)
  }

  function AfterAsk(s: Stores.State, g: M.Geo, q: Request, env: Environment): Stores.State {
    AfterFind(Stores.Step(s, g, Stores.Find(q.call, env.findFails)), g, q, env)
  }

  lemma SoloRun(s: Stores.State, g: M.Geo, q: Request, env: Environment)
    ensures Stores.Run(s, g, Solo(q, env)) == AfterAsk(Stores.Step(s, g, Stores.Ask(q.call, q.actor, q.aim)), g, q, env)
  {
    var e := Solo(q, env);
    Stores.RunSnoc(s, g, e[..0], e[0]);
    Stores.RunSnoc(s, g, e[..1], e[1]);
    Stores.RunSnoc(s, g, e[..2], e[2]);
    Stores.RunSnoc(s, g, e[..3], e[3]);
    Stores.RunSnoc(s, g, e[..4], e[4]);
    Stores.RunSnoc(s, g, e[..5], e[5]);
    assert e[..0] == [] && e[..1] == e[..0] + [e[0]] && e[..2] == e[..1] + [e[1]] && e[..3] == e[..2] + [e[2]];
    assert e[..4] == e[..3] + [e[3]] && e[..5] == e[..4] + [e[4]] && e == e[..5] + [e[5]];
  }

  predicate At(s: Stores.State, q: Request, phase: Phase) {
    && q.call in s.budget.calls && s.budget.calls[q.call] == Call(q.actor, phase)
    && q.call in s.aims && s.aims[q.call] == q.aim
  }

  function Moved(s: Stores.State, q: Request, phase: Phase): Stores.State
    requires q.call in s.budget.calls
  {
    s.(budget := SetPhase(s.budget, q.call, phase))
  }

  /** A request that is done takes no further step. */
  lemma DoneRests(s: Stores.State, g: M.Geo, q: Request, env: Environment, outcome: Outcome)
    requires At(s, q, Done(outcome))
    ensures Stores.Step(s, g, Stores.Move(Release(q.call, env.release))) == s
    ensures AfterReserve(s, g, q, env) == s && AfterCount(s, g, q, env) == s && AfterFind(s, g, q, env) == s
  {
    Stores.MoveStep(s, g, Count(q.call, env.countFails));
    Stores.MoveStep(s, g, Reserve(q.call, env.reserve));
    Stores.MoveStep(s, g, Release(q.call, env.release));
    Stores.RecordStep(s, g, Stores.Record(q.call, env.recordFails, q.id, q.matchId));
  }

  // ----- what one request is answered, by the tables and the counter as they were -----

  /** What one request meets: blocks, an earlier swipe, the rows of the day, the counter, the target, and the
      seconds that are left of the day. */
  datatype Course = Course(blocked: bool, known: bool, counted: nat, counter: nat, offered: bool, left: int)

  function CourseOf(db: M.Db, counters: map<Key, Entry>, g: M.Geo, actor: Uuid, target: Uuid, now: nat): Course {
    var since := now / 86400 * 86400;
    var k := Key(actor, now / 86400);
    Course((actor, target) in db.blocks || (target, actor) in db.blocks,
           (actor, target) in db.swipes,
           |set p | p in db.swipes && p.0 == actor && db.swipes[p].createdAt >= since|,
           if k in counters then counters[k].value else 0,
           M.Eligible(db, g, actor, target, now),
           (now / 86400 + 1) * 86400 - now)
  }

  predicate Meets(s: Stores.State, g: M.Geo, q: Request, c: Course) {
    c == CourseOf(s.db, s.budget.counters, g, q.actor, q.aim.target, s.budget.now)
  }

  /** The answer to one undisturbed request, case by case. */
  predicate Answers(limit: nat, env: Environment, c: Course, o: Outcome) {
    var through := !env.findFails && !c.blocked && !c.known;
    var counts := through && !env.countFails;
    var asks := counts && c.counted < limit;
    var held := asks && env.reserve == Delivered && c.counter < limit;
    && (o == SearchFailed <==> env.findFails || c.blocked)
    && (o == Existing <==> !env.findFails && !c.blocked && c.known)
    && (o == CountFailed <==> through && env.countFails)
    && (o.RefusedByRows? <==> counts && c.counted >= limit)
    && (o.RefusedByRows? || o.RefusedByCounter? ==> o.retryAfter == c.left)
    && (o == LimiterDown <==> asks && env.reserve != Delivered)
    && (o.RefusedByCounter? <==> asks && env.reserve == Delivered && c.counter >= limit)
    && (o == Created <==> held && !env.recordFails && c.offered)
    && (o.RecordFailed? <==> held && (env.recordFails || !c.offered))
    && (o.RecordFailed? ==> o.released == (env.release == Delivered))
    && !o.Duplicate? && !o.SelfInteraction? && !o.InvalidAction? && !o.Crashed?
  }

  lemma ReserveAnswers(s: Stores.State, g: M.Geo, q: Request, env: Environment, c: Course, at: nat)
    requires At(s, q, Counted(at, c.counted)) && at == s.budget.now && Meets(s, g, q, c) && q.actor != q.aim.target
    requires M.Fresh(s.db, q.matchId) && !c.blocked && !c.known && c.counted < s.budget.limit
    requires !env.findFails && !env.countFails
    ensures var t := AfterCount(s, g, q, env);
            exists o :: At(t, q, Done(o)) && Answers(s.budget.limit, env, c, o)
              && t.db.swipes == (if o == Created
                                 then s.db.swipes[(q.actor, q.aim.target) := q.Row(at)]
                                 else s.db.swipes)
  {
    var u := Stores.Step(s, g, Stores.Move(Reserve(q.call, env.reserve)));
    Stores.MoveStep(s, g, Reserve(q.call, env.reserve));
    ReserveExactly(s.budget, q.call, at, c.counted, env.reserve, c.counter);
    var phase := u.budget.calls[q.call].phase;
    if phase.Done? {
      DoneRests(u, g, q, env, phase.outcome);
      assert At(AfterCount(s, g, q, env), q, Done(phase.outcome)) && Answers(s.budget.limit, env, c, phase.outcome);
    } else {
      RecordAnswers(u, g, q, env, c, at);
      var o :| At(AfterReserve(u, g, q, env), q, Done(o)) && (o == Created <==> !env.recordFails && c.offered)
        && (o != Created ==> o == RecordFailed(env.release == Delivered));
      assert Answers(s.budget.limit, env, c, o);
    }
  }

  lemma RecordAnswers(s: Stores.State, g: M.Geo, q: Request, env: Environment, c: Course, at: nat)
    requires At(s, q, Reserved(at, c.counted)) && at == s.budget.now && q.actor != q.aim.target
    requires M.Fresh(s.db, q.matchId) && !c.blocked && !c.known
    requires c.blocked == ((q.actor, q.aim.target) in s.db.blocks || (q.aim.target, q.actor) in s.db.blocks)
    requires c.known == ((q.actor, q.aim.target) in s.db.swipes)
    requires c.offered == M.Eligible(s.db, g, q.actor, q.aim.target, at)
    ensures var t := AfterReserve(s, g, q, env);
            exists o :: At(t, q, Done(o)) && (o == Created <==> !env.recordFails && c.offered)
              && (o != Created ==> o == RecordFailed(env.release == Delivered))
              && t.db.swipes == (if o == Created
                                 then s.db.swipes[(q.actor, q.aim.target) := q.Row(at)]
                                 else s.db.swipes)
  {
    var e := Stores.Record(q.call, env.recordFails, q.id, q.matchId);
    var u := Stores.Step(s, g, e);
    Stores.RecordStep(s, g, e);
    Stores.RecordingExactly(s, g, e);
    var answer := Stores.Recorded(s, g, e).1;
    RecordExactly(s.budget, q.call, at, c.counted, answer);
    Stores.MoveStep(u, g, Release(q.call, env.release));
    if answer == Stored {
      assert At(u, q, Done(Created));
      DoneRests(u, g, q, env, Created);
    } else {
      assert At(u, q, Owing(at, c.counted, true));
      ReleaseExactly(u.budget, q.call, at, c.counted, true, env.release);
      assert At(AfterReserve(s, g, q, env), q, Done(RecordFailed(env.release == Delivered)));
    }
  }

  /** One undisturbed request over the tables is answered by what they, the counter and the failures say, and
      stores its swipe exactly when it is answered as created. */
  lemma SoloAnswers(s: Stores.State, g: M.Geo, q: Request, env: Environment, c: Course)
    requires q.call !in s.budget.calls && q.actor != q.aim.target && Stores.Agree(s) && M.Fresh(s.db, q.matchId)
    requires Meets(s, g, q, c)
    ensures var t := Stores.Run(s, g, Solo(q, env));
            exists o :: At(t, q, Done(o)) && Answers(s.budget.limit, env, c, o)
              && t.db.swipes == (if o == Created
                                 then s.db.swipes[(q.actor, q.aim.target) := q.Row(s.budget.now)]
                                 else s.db.swipes)
  {
    SoloRun(s, g, q, env);
    Stores.AskStep(s, g, q.call, q.actor, q.aim);
    var asked := Stores.Step(s, g, Stores.Ask(q.call, q.actor, q.aim));
    var found := Stores.Step(asked, g, Stores.Find(q.call, env.findFails));
    Stores.SearchExactly(asked, g, q.call, env.findFails);
    Stores.FindStep(asked, g, q.call, env.findFails);
    var phase := found.budget.calls[q.call].phase;
    if phase.Done? {
      DoneRests(found, g, q, env, phase.outcome);
      assert At(found, q, Done(phase.outcome)) && Answers(s.budget.limit, env, c, phase.outcome);
    } else {
      CountAnswers(found, g, q, env, c);
    }
  }

  lemma CountAnswers(s: Stores.State, g: M.Geo, q: Request, env: Environment, c: Course)
    requires At(s, q, Stamped(s.budget.now)) && q.actor != q.aim.target && Stores.Agree(s) && M.Fresh(s.db, q.matchId)
    requires Meets(s, g, q, c) && !env.findFails && !c.blocked && !c.known
    ensures var t := AfterFind(s, g, q, env);
            exists o :: At(t, q, Done(o)) && Answers(s.budget.limit, env, c, o)
              && t.db.swipes == (if o == Created
                                 then s.db.swipes[(q.actor, q.aim.target) := q.Row(s.budget.now)]
                                 else s.db.swipes)
  {
    var since := s.budget.now / 86400 * 86400;
    assert Stores.SwipesSince(s.db, q.actor, since)
        == set p | p in s.db.swipes && p.0 == q.actor && s.db.swipes[p].createdAt >= since;
    var counted := Stores.Step(s, g, Stores.Move(Count(q.call, env.countFails)));
    Stores.MoveStep(s, g, Count(q.call, env.countFails));
    CountExactly(s.budget, q.call, s.budget.now, env.countFails);
    var phase := counted.budget.calls[q.call].phase;
    if phase.Done? {
      DoneRests(counted, g, q, env, phase.outcome);
      assert At(counted, q, Done(phase.outcome)) && Answers(s.budget.limit, env, c, phase.outcome);
    } else {
      ReserveAnswers(counted, g, q, env, c, s.budget.now);
    }
  }

  class Service {
    const limit: nat
    const limiter: SwipeLimiter
    const repository: MatchingRepository.Repository
    var now: nat
    // The swipes in the order they were stored, and where each request stands.
    ghost var rows: seq<Row>
    ghost var calls: map<CallId, Call>
    ghost var aims: map<CallId, Stores.Aim>

    constructor (limit: nat, limiter: SwipeLimiter, repository: MatchingRepository.Repository, now: nat)
      ensures this.limit == limit && this.limiter == limiter && this.repository == repository && this.now == now
      ensures rows == [] && calls == map[] && aims == map[]
    {
      this.limit, this.limiter, this.repository, this.now := limit, limiter, repository, now;
      rows, calls, aims := [], map[], map[];
    }

    ghost function View(): Stores.State
      reads this, limiter, repository
    {
      Stores.State(SwipeBudget.State(limit, now, limiter.counters, rows, calls), repository.View(), aims)
    }

    ghost method Move(q: Request, phase: Phase)
      requires q.call in calls
      modifies this`calls
      ensures View() == Moved(old(View()), q, phase)
    {
      calls := calls[q.call := calls[q.call].(phase := phase)];
    }

    /** A request of one actor for one target, over the tables as they are. */
    method Swipe(ghost call: CallId, actor: UserId, target: UserId, action: string, id: Uuid, matchId: Uuid,
                 env: Environment)
      returns (outcome: Outcome)
      requires call !in calls && Stores.Agree(View()) && M.Fresh(repository.View(), matchId)
      modifies this, limiter, repository
      ensures actor == target ==> outcome == SelfInteraction
      ensures actor != target && ActionOf(action).None? ==> outcome == InvalidAction
      ensures actor == target || ActionOf(action).None? ==> View() == old(View())
      ensures actor != target && ActionOf(action).Some? ==>
                var q := Request(call, actor, Stores.Aim(target, ActionOf(action).value), id, matchId);
                && View() == Stores.Run(old(View()), repository.geo, Solo(q, env))
                && At(View(), q, Done(outcome))
      ensures actor != target && ActionOf(action).Some? ==>
                var c := CourseOf(old(repository.View()), old(limiter.counters), repository.geo,
                                  actor, target, old(now));
                && Answers(limit, env, c, outcome)
                && repository.swipes == if outcome == Created
                     then old(repository.swipes)[(actor, target) :=
                            M.Swipe(id, actor, target, ActionOf(action).value, old(now))]
                     else old(repository.swipes)
    {
      if actor == target {
        return SelfInteraction;
      }
      if ActionOf(action).None? {
        return InvalidAction;
      }
      ghost var q := Request(call, actor, Stores.Aim(target, ActionOf(action).value), id, matchId);
      ghost var c := CourseOf(repository.View(), limiter.counters, repository.geo, actor, target, now);
      SoloAnswers(View(), repository.geo, q, env, c);
      SoloRun(View(), repository.geo, q, env);
      Stores.AskStep(View(), repository.geo, call, actor, q.aim);
      calls := calls[call := Call(actor, Searching)];
      aims := aims[call := q.aim];
      outcome := Find(q, actor, target, ActionOf(action).value, id, matchId, env);
    }

    /** The request up to what it finds. */
    method Find(ghost q: Request, actor: UserId, target: UserId, action: M.Action, id: Uuid, matchId: Uuid,
                env: Environment)
      returns (outcome: Outcome)
      requires q == Request(q.call, actor, Stores.Aim(target, action), id, matchId) && At(View(), q, Searching)
      requires Stores.Agree(View()) && M.Fresh(repository.View(), matchId)
      modifies this, limiter, repository
      ensures View() == AfterAsk(old(View()), repository.geo, q, env) && At(View(), q, Done(outcome))
    {
      Stores.FindStep(View(), repository.geo, q.call, env.findFails);
      if env.findFails {
        Move(q, Done(SearchFailed));
        DoneRests(View(), repository.geo, q, env, SearchFailed);
        return SearchFailed;
      }
      var found := repository.FindSwipe(actor, target);
      if found.InteractionBlocked? {
        Move(q, Done(SearchFailed));
        DoneRests(View(), repository.geo, q, env, SearchFailed);
        return SearchFailed;
      }
      if found.SwipeFound? {
        Move(q, Done(Existing));
        DoneRests(View(), repository.geo, q, env, Existing);
        return Existing;
      }
      var at := now;
      Move(q, Stamped(at));
      outcome := CountRows(q, actor, target, action, id, matchId, at, env);
    }

    /** The check against the rows of the day. */
    method CountRows(ghost q: Request, actor: UserId, target: UserId, action: M.Action, id: Uuid, matchId: Uuid,
                     at: nat, env: Environment)
      returns (outcome: Outcome)
      requires q == Request(q.call, actor, Stores.Aim(target, action), id, matchId) && At(View(), q, Stamped(at))
      requires Stores.Agree(View()) && M.Fresh(repository.View(), matchId)
      modifies this, limiter, repository
      ensures View() == AfterFind(old(View()), repository.geo, q, env) && At(View(), q, Done(outcome))
    {
      Stores.MoveStep(View(), repository.geo, Count(q.call, env.countFails));
      if env.countFails {
        Move(q, Done(CountFailed));
        DoneRests(View(), repository.geo, q, env, CountFailed);
        return CountFailed;
      }
      var dayStart := at / DAY * DAY;
      var persisted := repository.CountSwipesSince(actor, dayStart);
      assert Stores.SwipesSince(repository.View(), actor, dayStart)
          == set p | p in repository.swipes && p.0 == actor && repository.swipes[p].createdAt >= dayStart;
      if persisted >= limit {
        outcome := RefusedByRows(RetryAfter(at / DAY, at));
        Move(q, Done(outcome));
        DoneRests(View(), repository.geo, q, env, outcome);
        return;
      }
      Move(q, Counted(at, persisted));
      outcome := ReserveAndRecord(q, actor, target, action, id, matchId, at, persisted, env);
    }

    method ReserveAndRecord(ghost q: Request, actor: UserId, target: UserId, action: M.Action, id: Uuid, matchId: Uuid,
                            at: nat, persisted: nat, env: Environment)
      returns (outcome: Outcome)
      requires q == Request(q.call, actor, Stores.Aim(target, action), id, matchId)
      requires At(View(), q, Counted(at, persisted)) && M.Fresh(repository.View(), matchId)
      modifies this, limiter, repository
      ensures View() == AfterCount(old(View()), repository.geo, q, env) && At(View(), q, Done(outcome))
    {
      Stores.MoveStep(View(), repository.geo, Reserve(q.call, env.reserve));
      if env.reserve == NotSent {
        Move(q, Done(LimiterDown));
        DoneRests(View(), repository.geo, q, env, LimiterDown);
        return LimiterDown;
      }
      var reserved, retryAfter := limiter.Reserve(KeyAt(actor, at), limit, persisted, now);
      if env.reserve == ReplyLost {
        Move(q, Done(LimiterDown));
        DoneRests(View(), repository.geo, q, env, LimiterDown);
        return LimiterDown;
      }
      if !reserved {
        outcome := RefusedByCounter(retryAfter);
        Move(q, Done(outcome));
        DoneRests(View(), repository.geo, q, env, outcome);
        return;
      }
      Move(q, Reserved(at, persisted));
      outcome := RecordOrRelease(q, actor, target, action, id, matchId, at, persisted, env);
    }

    method RecordOrRelease(ghost q: Request, actor: UserId, target: UserId, action: M.Action, id: Uuid, matchId: Uuid,
                           at: nat, persisted: nat, env: Environment)
      returns (outcome: Outcome)
      requires q == Request(q.call, actor, Stores.Aim(target, action), id, matchId)
      requires At(View(), q, Reserved(at, persisted)) && M.Fresh(repository.View(), matchId)
      modifies this, limiter, repository
      ensures View() == AfterReserve(old(View()), repository.geo, q, env) && At(View(), q, Done(outcome))
    {
      Stores.RecordStep(View(), repository.geo, Stores.Record(q.call, env.recordFails, id, matchId));
      var recorded := Record(q, actor, target, action, id, matchId, at, env);
      if recorded == Stored {
        rows := rows + [Row(actor, at)];
        Move(q, Done(Created));
        DoneRests(View(), repository.geo, q, env, Created);
        return Created;
      }
      Move(q, Owing(at, persisted, recorded == Rejected));
      outcome := GiveBack(q, actor, at, persisted, recorded == Rejected, env);
    }

    /** The transaction, and its answer as the service reads it. */
    method Record(ghost q: Request, actor: UserId, target: UserId, action: M.Action, id: Uuid, matchId: Uuid,
                  at: nat, env: Environment)
      returns (recorded: Recording)
      requires q == Request(q.call, actor, Stores.Aim(target, action), id, matchId)
      requires Stores.Records(View(), q.call) && calls[q.call].actor == actor && calls[q.call].phase.at == at
      requires aims[q.call] == q.aim && M.Fresh(repository.View(), matchId)
      modifies repository
      ensures (repository.View(), recorded)
           == Stores.Recorded(old(View()), repository.geo, Stores.Record(q.call, env.recordFails, id, matchId))
    {
      if env.recordFails {
        return Rejected;
      }
      var answer := repository.RecordSwipe(M.Swipe(id, actor, target, action, at), matchId);
      recorded := if answer.Created? then Stored else if answer.Existing? then AlreadyThere else Rejected;
    }

    method GiveBack(ghost q: Request, actor: UserId, at: nat, persisted: nat, failed: bool, env: Environment)
      returns (outcome: Outcome)
      requires q.actor == actor && At(View(), q, Owing(at, persisted, failed))
      modifies this`calls, limiter
      ensures View() == Stores.Step(old(View()), repository.geo, Stores.Move(Release(q.call, env.release)))
      ensures At(View(), q, Done(outcome))
    {
      Stores.MoveStep(View(), repository.geo, Release(q.call, env.release));
      if env.release != NotSent {
        limiter.Release(KeyAt(actor, at), persisted);
      }
      outcome := if failed then RecordFailed(env.release == Delivered) else Duplicate(env.release == Delivered);
      Move(q, Done(outcome));
    }
  }
}
