/** The swipe requests over both stores at once: what a request finds and whether its swipe is stored is
    decided by the tables of swipes, matches and blocks, which other requests change at any moment. */
module SwipeStores {
  import opened Uuids
  import B = SwipeBudget
  import L = SwipeLoss
  import M = Matching

  /** Whom a request swipes, and how. */
  datatype Aim = Aim(target: Uuid, action: M.Action)

  datatype State = State(budget: B.State, db: M.Db, aims: map<B.CallId, Aim>)

  /** `fails` is an error of the database, after which nothing is stored. */
  datatype Event =
    | Ask(call: B.CallId, actor: Uuid, aim: Aim)
    | Find(call: B.CallId, fails: bool)
    | Record(call: B.CallId, fails: bool, id: Uuid, matchId: Uuid)
    | Move(step: B.Event)
    | Social(act: M.Event)

  /** The call is known with its aim, and about to search or to record. */
  predicate Searches(s: State, call: B.CallId) {
    call in s.budget.calls && call in s.aims && s.budget.calls[call].phase.Searching?
  }

  predicate Records(s: State, call: B.CallId) {
    call in s.budget.calls && call in s.aims && s.budget.calls[call].phase.Reserved?
  }

  /** `FindSwipe`: a block is an error, a stored swipe ends the request. */
  function Search(s: State, call: B.CallId, fails: bool): B.Search
    requires Searches(s, call)
  {
    var actor, target := s.budget.calls[call].actor, s.aims[call].target;
    if fails || M.Blocked(s.db, actor, target) then B.Broken
    else if (actor, target) in s.db.swipes then B.Found
    else B.Missing
  }

  function SwipeOf(s: State, call: B.CallId, id: Uuid): M.Swipe
    requires Records(s, call)
  {
    M.Swipe(id, s.budget.calls[call].actor, s.aims[call].target, s.aims[call].action, s.budget.calls[call].phase.at)
  }

  /** `RecordSwipe`, and its answer as the service reads it. A taken match id is a failed insert. */
  function Recorded(s: State, g: M.Geo, e: Event): (M.Db, B.Recording)
    requires e.Record? && Records(s, e.call)
  {
    if e.fails || !M.Fresh(s.db, e.matchId) then (s.db, B.Rejected)
    else
      var (db, r) := M.RecordSwipe(s.db, g, SwipeOf(s, e.call, e.id), e.matchId);
      match r
      case Created(_, _) => (db, B.Stored)
      case Existing(_, _) => (db, B.AlreadyThere)
      case Refused => (db, B.Rejected)
      case NotAllowed => (db, B.Rejected)
  }

  /** What the event is for the budget. The service refuses a swipe of oneself before anything else. */
  function BudgetEvents(s: State, g: M.Geo, e: Event): seq<B.Event> {
    match e
    case Ask(call, actor, aim) => if actor == aim.target || call in s.budget.calls then [] else [B.Begin(call, actor)]
    case Find(call, fails) => if Searches(s, call) then [B.Find(call, Search(s, call, fails))] else []
    case Record(call, _, _, _) => if Records(s, call) then [B.Record(call, Recorded(s, g, e).1)] else []
    case Move(step) => if step.Begin? || step.Find? || step.Record? then [] else [step]
    case Social(_) => []
  }

  function Step(s: State, g: M.Geo, e: Event): State {
    var budget := B.Run(s.budget, BudgetEvents(s, g, e));
    match e
    case Ask(call, actor, aim) =>
      if actor == aim.target || call in s.budget.calls then s else State(budget, s.db, s.aims[call := aim])
    case Record(call, _, _, _) =>
      if Records(s, call) then State(budget, Recorded(s, g, e).0, s.aims) else s
    case Social(act) => if act.DoSwipe? then s else s.(db := M.Step(s.db, g, act))
    case _ => s.(budget := budget)
  }

  function Run(s: State, g: M.Geo, events: seq<Event>): State
    decreases |events|
  {
    if events == [] then s else Run(Step(s, g, events[0]), g, events[1..])
  }

  function Init(limit: nat, now: nat, people: M.People): State {
    State(B.Init(limit, now), M.Init(people), map[])
  }

  // ----- the budget's own run -----

  /** The run the budget makes meanwhile. */
  function Projected(s: State, g: M.Geo, events: seq<Event>): seq<B.Event>
    decreases |events|
  {
    if events == [] then [] else BudgetEvents(s, g, events[0]) + Projected(Step(s, g, events[0]), g, events[1..])
  }

  lemma StepProjects(s: State, g: M.Geo, e: Event)
    ensures Step(s, g, e).budget == B.Run(s.budget, BudgetEvents(s, g, e))
  {
  }

  lemma {:induction false} RunProjects(s: State, g: M.Geo, events: seq<Event>)
    ensures Run(s, g, events).budget == B.Run(s.budget, Projected(s, g, events))
    decreases |events|
  {
    if events == [] {
    } else {
      StepProjects(s, g, events[0]);
      RunProjects(Step(s, g, events[0]), g, events[1..]);
      B.RunAppend(s.budget, BudgetEvents(s, g, events[0]), Projected(Step(s, g, events[0]), g, events[1..]));
    }
  }

  lemma {:induction false} RunAppend(s: State, g: M.Geo, a: seq<Event>, b: seq<Event>)
    ensures Run(s, g, a + b) == Run(Run(s, g, a), g, b)
    decreases |a|
  {
    if a == [] {
      assert a + b == b;
    } else {
      assert (a + b)[1..] == a[1..] + b;
      RunAppend(Step(s, g, a[0]), g, a[1..], b);
    }
  }

  lemma RunSnoc(s: State, g: M.Geo, events: seq<Event>, e: Event)
    ensures Run(s, g, events + [e]) == Step(Run(s, g, events), g, e)
  {
    RunAppend(s, g, events, [e]);
    var t := Run(s, g, events);
    assert [e][1..] == [] && Run(Step(t, g, e), g, []) == Step(t, g, e);
  }

  lemma MoveStep(s: State, g: M.Geo, step: B.Event)
    requires !step.Begin? && !step.Find? && !step.Record?
    ensures Step(s, g, Move(step)) == s.(budget := B.Step(s.budget, step))
  {
    B.RunOne(s.budget, step);
  }

  lemma FindStep(s: State, g: M.Geo, call: B.CallId, fails: bool)
    ensures Step(s, g, Find(call, fails)) ==
            if Searches(s, call) then s.(budget := B.Step(s.budget, B.Find(call, Search(s, call, fails)))) else s
  {
    if Searches(s, call) {
      B.RunOne(s.budget, B.Find(call, Search(s, call, fails)));
    } else {
      assert B.Run(s.budget, []) == s.budget;
    }
  }

  lemma RecordStep(s: State, g: M.Geo, e: Event)
    requires e.Record?
    ensures Step(s, g, e) ==
            if Records(s, e.call) then
              State(B.Step(s.budget, B.Record(e.call, Recorded(s, g, e).1)), Recorded(s, g, e).0, s.aims)
            else s
  {
    if Records(s, e.call) {
      B.RunOne(s.budget, B.Record(e.call, Recorded(s, g, e).1));
    }
  }

  lemma AskStep(s: State, g: M.Geo, call: B.CallId, actor: Uuid, aim: Aim)
    requires actor != aim.target && call !in s.budget.calls
    ensures Step(s, g, Ask(call, actor, aim))
         == State(B.Step(s.budget, B.Begin(call, actor)), s.db, s.aims[call := aim])
  {
    B.RunOne(s.budget, B.Begin(call, actor));
  }

  // ----- what the tables answer -----

  /** A request that searches fails for a database error or a block between the two, finds a stored swipe, and
      otherwise goes on. */
  lemma SearchExactly(s: State, g: M.Geo, call: B.CallId, fails: bool)
    requires Searches(s, call)
    ensures var actor, target := s.budget.calls[call].actor, s.aims[call].target;
            var blocked := (actor, target) in s.db.blocks || (target, actor) in s.db.blocks;
            var t := Step(s, g, Find(call, fails));
            && t == s.(budget := t.budget) && call in t.budget.calls
            && t.budget.calls[call].phase == (if fails || blocked then B.Done(B.SearchFailed)
                                              else if (actor, target) in s.db.swipes then B.Done(B.Existing)
                                              else B.Stamped(s.budget.now))
  {
    FindStep(s, g, call, fails);
    B.FindExactly(s.budget, call, Search(s, call, fails));
  }

  /** A request that holds a reservation stores its swipe when the pair is neither blocked nor swiped and the
      target would be offered; a swipe that is there already is a duplicate, everything else a failure. */
  lemma RecordingExactly(s: State, g: M.Geo, e: Event)
    requires e.Record? && Records(s, e.call) && s.budget.calls[e.call].actor != s.aims[e.call].target
    ensures var swipe := SwipeOf(s, e.call, e.id);
            var p := (swipe.actor, swipe.target);
            var blocked := p in s.db.blocks || (p.1, p.0) in s.db.blocks;
            var broken := e.fails || exists key <- s.db.matches :: s.db.matches[key].id == e.matchId;
            var (db, answer) := Recorded(s, g, e);
            && (answer == B.Stored <==> !broken && M.Eligible(s.db, g, p.0, p.1, swipe.createdAt))
            && (answer == B.AlreadyThere <==> !broken && !blocked && p in s.db.swipes)
            && (answer == B.Stored ==> db.swipes == s.db.swipes[p := swipe])
            && (answer != B.Stored ==> db == s.db)
  {
    M.SwipeEffect(s.db, g, SwipeOf(s, e.call, e.id), e.matchId);
    M.CreatesExactlyWhenOffered(s.db, g, SwipeOf(s, e.call, e.id), e.matchId);
  }

  /** What others do meanwhile changes the tables as it does without the requests, and no request. */
  lemma SocialExactly(s: State, g: M.Geo, act: M.Event)
    ensures !act.DoSwipe? ==> Step(s, g, Social(act)) == State(s.budget, M.Step(s.db, g, act), s.aims)
  {
  }

  // ----- the table of swipes and the rows of the budget -----

  type Choice = (M.Pair, M.Swipe) -> bool

  function Chosen(swipes: map<M.Pair, M.Swipe>, choice: Choice): set<M.Pair> {
    set p | p in swipes && choice(p, swipes[p])
  }

  function OfDay(k: B.Key): Choice {
    (p: M.Pair, s: M.Swipe) => p.0 == k.actor && s.createdAt / B.DAY == k.day
  }

  function From(actor: Uuid, since: nat): Choice {
    (p: M.Pair, s: M.Swipe) => p.0 == actor && s.createdAt >= since
  }

  /** The swipes one user made on one day. */
  function DaySwipes(db: M.Db, k: B.Key): set<M.Pair> {
    Chosen(db.swipes, OfDay(k))
  }

  /** The swipes one user made from an instant on: what `CountSwipesSince` counts. */
  function SwipesSince(db: M.Db, actor: Uuid, since: nat): set<M.Pair> {
    Chosen(db.swipes, From(actor, since))
  }

  ghost predicate Agree(s: State) {
    && (forall k :: |DaySwipes(s.db, k)| == B.DayRows(s.budget.rows, k))
    && (forall actor, since :: |SwipesSince(s.db, actor, since)| == B.CountSince(s.budget.rows, actor, since))
  }

  /** What recording does to the table: one new swipe if it says stored, and nothing otherwise. */
  lemma RecordedTable(s: State, g: M.Geo, e: Event)
    requires e.Record? && Records(s, e.call)
    ensures var (db, answer) := Recorded(s, g, e);
            var swipe := SwipeOf(s, e.call, e.id);
            var p := (swipe.actor, swipe.target);
            if answer == B.Stored then p !in s.db.swipes && db.swipes == s.db.swipes[p := swipe]
            else db.swipes == s.db.swipes
  {
    M.SwipeEffect(s.db, g, SwipeOf(s, e.call, e.id), e.matchId);
  }

  lemma OneMore(swipes: map<M.Pair, M.Swipe>, p: M.Pair, swipe: M.Swipe, choice: Choice)
    requires p !in swipes
    ensures |Chosen(swipes[p := swipe], choice)| == |Chosen(swipes, choice)| + if choice(p, swipe) then 1 else 0
  {
    if choice(p, swipe) {
      assert Chosen(swipes[p := swipe], choice) == Chosen(swipes, choice) + {p};
    } else {
      assert Chosen(swipes[p := swipe], choice) == Chosen(swipes, choice);
    }
  }

  /** The table and the rows agree again once both have the new swipe. */
  lemma BothMore(before: M.Db, after: M.Db, rows: seq<B.Row>, swipe: M.Swipe)
    requires forall k :: |DaySwipes(before, k)| == B.DayRows(rows, k)
    requires forall actor, since :: |SwipesSince(before, actor, since)| == B.CountSince(rows, actor, since)
    requires swipe.createdAt >= 0 && (swipe.actor, swipe.target) !in before.swipes
    requires after.swipes == before.swipes[(swipe.actor, swipe.target) := swipe]
    ensures var more := rows + [B.Row(swipe.actor, swipe.createdAt)];
            && (forall k :: |DaySwipes(after, k)| == B.DayRows(more, k))
            && (forall actor, since :: |SwipesSince(after, actor, since)| == B.CountSince(more, actor, since))
  {
    var more := rows + [B.Row(swipe.actor, swipe.createdAt)];
    RowAppended(rows, B.Row(swipe.actor, swipe.createdAt));
    forall k ensures |DaySwipes(after, k)| == B.DayRows(more, k) {
      OneMore(before.swipes, (swipe.actor, swipe.target), swipe, OfDay(k));
    }
    forall actor: Uuid, since: nat ensures |SwipesSince(after, actor, since)| == B.CountSince(more, actor, since) {
      OneMore(before.swipes, (swipe.actor, swipe.target), swipe, From(actor, since));
    }
  }

  lemma RowAppended(rows: seq<B.Row>, r: B.Row)
    ensures forall k :: B.DayRows(rows + [r], k) ==
              B.DayRows(rows, k) + if B.KeyAt(r.actor, r.createdAt) == k then 1 else 0
    ensures forall actor, since :: B.CountSince(rows + [r], actor, since) ==
              B.CountSince(rows, actor, since) + if r.actor == actor && r.createdAt >= since then 1 else 0
  {
    assert (rows + [r])[..|rows|] == rows;
  }

  lemma RecordedRows(s: B.State, call: B.CallId, answer: B.Recording)
    requires call in s.calls && s.calls[call].phase.Reserved?
    ensures B.Run(s, [B.Record(call, answer)]).rows
         == if answer == B.Stored then s.rows + [B.Row(s.calls[call].actor, s.calls[call].phase.at)] else s.rows
  {
    B.RunOne(s, B.Record(call, answer));
  }

  /** A stored swipe adds one to its user and day, in the table and in the rows. */
  lemma RecordAgrees(s: State, g: M.Geo, e: Event)
    requires e.Record? && Records(s, e.call) && Agree(s)
    ensures Agree(Step(s, g, e))
  {
    var swipe := SwipeOf(s, e.call, e.id);
    var (db, answer) := Recorded(s, g, e);
    RecordedRows(s.budget, e.call, answer);
    RecordedTable(s, g, e);
    if answer == B.Stored {
      BothMore(s.db, db, s.budget.rows, swipe);
    } else {
      SameTable(s.db, db);
    }
  }

  lemma SameTable(before: M.Db, after: M.Db)
    requires after.swipes == before.swipes
    ensures forall k :: DaySwipes(after, k) == DaySwipes(before, k)
    ensures forall actor, since :: SwipesSince(after, actor, since) == SwipesSince(before, actor, since)
  {
  }

  /** No other step of a request, and nothing the others do, stores or removes a swipe. */
  lemma QuietRows(s: B.State, e: B.Event)
    requires !e.Record?
    ensures B.Run(s, [e]).rows == s.rows
  {
    B.RunOne(s, e);
  }

  lemma StepAgrees(s: State, g: M.Geo, e: Event)
    requires Agree(s)
    ensures Agree(Step(s, g, e))
  {
    if e.Record? && Records(s, e.call) {
      RecordAgrees(s, g, e);
    } else {
      var steps := BudgetEvents(s, g, e);
      if steps != [] {
        QuietRows(s.budget, steps[0]);
      }
      SameTable(s.db, Step(s, g, e).db);
    }
  }

  lemma {:induction false} RunAgrees(s: State, g: M.Geo, events: seq<Event>)
    requires Agree(s)
    ensures Agree(Run(s, g, events))
    decreases |events|
  {
    if events == [] {
    } else {
      StepAgrees(s, g, events[0]);
      RunAgrees(Step(s, g, events[0]), g, events[1..]);
    }
  }

  /** The daily limit on the table of swipes itself: over every interleaving of requests with blocks,
      unmatches and edits, in which the counter is only lost when that is safe. */
  lemma DailySwipesLimited(limit: nat, now: nat, people: M.People, g: M.Geo, events: seq<Event>, k: B.Key)
    requires limit >= 1 && B.LossesSafe(B.Init(limit, now), Projected(Init(limit, now, people), g, events))
    ensures |DaySwipes(Run(Init(limit, now, people), g, events).db, k)| <= limit
  {
    var s := Init(limit, now, people);
    InitAgrees(limit, now, people);
    RunAgrees(s, g, events);
    RunProjects(s, g, events);
    B.InitInv(limit, now);
    B.BudgetKept(s.budget, Projected(s, g, events));
    var t := Run(s, g, events).budget;
    assert B.KeyInv(t, k);
    B.LimitFixed(s.budget, Projected(s, g, events));
  }

  /** No key is evicted, and at every moment the requests between count and record or release read the clock
      less than an hour ago. */
  predicate PromptEvents(s: State, g: M.Geo, events: seq<Event>)
    decreases |events|
  {
    L.Prompt(s.budget) &&
    (events != [] ==>
       !(events[0].Move? && events[0].step.Evict?) && PromptEvents(Step(s, g, events[0]), g, events[1..]))
  }

  lemma {:induction false} PromptProjects(s: State, g: M.Geo, events: seq<Event>)
    requires PromptEvents(s, g, events)
    ensures L.PromptRun(s.budget, Projected(s, g, events))
    decreases |events|
  {
    if events == [] {
    } else {
      var t := Step(s, g, events[0]);
      var steps := BudgetEvents(s, g, events[0]);
      var rest := Projected(t, g, events[1..]);
      PromptProjects(t, g, events[1..]);
      StepProjects(s, g, events[0]);
      if steps == [] {
        assert steps + rest == rest;
      } else {
        B.RunOne(s.budget, steps[0]);
        assert (steps + rest)[1..] == rest;
      }
    }
  }

  /** The daily limit on the table, as it can be checked from outside: requests finish within an hour and
      Redis evicts nothing; counters may expire. */
  lemma DailySwipesPrompt(limit: nat, now: nat, people: M.People, g: M.Geo, events: seq<Event>, k: B.Key)
    requires limit >= 1 && PromptEvents(Init(limit, now, people), g, events)
    ensures |DaySwipes(Run(Init(limit, now, people), g, events).db, k)| <= limit
  {
    var s := Init(limit, now, people);
    PromptProjects(s, g, events);
    B.InitInv(limit, now);
    L.BudgetSurvivesExpiry(s.budget, Projected(s, g, events));
    DailySwipesLimited(limit, now, people, g, events, k);
  }

  /** What a request counts is the number of its user's swipes in the table, in every reachable state. */
  lemma CountIsTable(limit: nat, now: nat, people: M.People, g: M.Geo, events: seq<Event>, actor: Uuid, since: nat)
    ensures var t := Run(Init(limit, now, people), g, events);
            B.CountSince(t.budget.rows, actor, since) == |SwipesSince(t.db, actor, since)|
  {
    InitAgrees(limit, now, people);
    RunAgrees(Init(limit, now, people), g, events);
  }

  lemma InitAgrees(limit: nat, now: nat, people: M.People)
    ensures Agree(Init(limit, now, people))
  {
    var s := Init(limit, now, people);
    forall k ensures DaySwipes(s.db, k) == {} {
    }
    forall actor: Uuid, since: nat ensures SwipesSince(s.db, actor, since) == {} {
    }
  }
}
