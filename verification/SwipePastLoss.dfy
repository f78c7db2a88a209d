/** Losing the counter of a day that is over. No new request can join that day, so the loss is harmful exactly
    when the requests that are left can between them store more rows than the limit. */
module SwipePastLoss {
  import opened SwipeBudget
  import opened SwipeLoss

  predicate Past(s: State, k: Key) {
    k.day < s.now / DAY
  }

  // ----- the requests that are left, by where they stand -----

  type Kind = Call -> bool

  function Picked(calls: map<CallId, Call>, kind: Kind): set<CallId> {
    set id | id in calls && kind(calls[id])
  }

  function Reserving(k: Key): Kind {
    (c: Call) => c.phase.Reserved? && KeyAt(c.actor, c.phase.at) == k
  }

  function Returning(k: Key): Kind {
    (c: Call) => c.phase.Owing? && KeyAt(c.actor, c.phase.at) == k
  }

  /** Still to reserve, with fewer than `x` rows counted; one that has not counted would count now. */
  function Below(rows: seq<Row>, k: Key, x: nat): Kind {
    (c: Call) =>
      || (c.phase.Counted? && KeyAt(c.actor, c.phase.at) == k && c.phase.count < x)
      || (c.phase.Stamped? && KeyAt(c.actor, c.phase.at) == k && CountSince(rows, k.actor, k.day * DAY) < x)
  }

  function Held(s: State, k: Key): nat {
    |Picked(s.calls, Reserving(k))|
  }

  function Owed(s: State, k: Key): nat {
    |Picked(s.calls, Returning(k))|
  }

  function Waiting(s: State, k: Key, x: nat): nat {
    |Picked(s.calls, Below(s.rows, k, x))|
  }

  function Counter(s: State, k: Key): nat {
    Current(Lookup(s.counters, k))
  }

  function Larger(a: nat, b: nat): nat {
    if a < b then b else a
  }

  /** Even if every request that is left stores a row, the day stays within the limit. */
  predicate Spare(s: State, k: Key) {
    DayRows(s.rows, k) + Held(s, k) + Waiting(s, k, s.limit) <= s.limit
  }

  /** The requests that counted `x` rows or more share the places above the larger of `x` and the counter;
      all others together with the rows, reservations and owed releases fit below it. */
  predicate Fits(s: State, k: Key, x: nat) {
    DayRows(s.rows, k) + Held(s, k) + Owed(s, k) + Waiting(s, k, x) <= Larger(x, Counter(s, k))
  }

  predicate Contained(s: State, k: Key) {
    Spare(s, k) || exists x: nat | x <= s.limit :: Fits(s, k, x)
  }

  // ----- how one step changes the tallies -----

  function One(b: bool): nat {
    if b then 1 else 0
  }

  lemma PickMoved(calls: map<CallId, Call>, id: CallId, c: Call, kind: Kind)
    requires id in calls
    ensures |Picked(calls[id := c], kind)| == |Picked(calls, kind)| - One(kind(calls[id])) + One(kind(c))
  {
    var others := Picked(calls, kind) - {id};
    assert Picked(calls, kind) == if kind(calls[id]) then others + {id} else others;
    assert Picked(calls[id := c], kind) == if kind(c) then others + {id} else others;
  }

  lemma MoveTallies(s: State, id: CallId, phase: Phase, k: Key, x: nat)
    requires id in s.calls
    ensures var t := SetPhase(s, id, phase);
            var a, b := s.calls[id], s.calls[id].(phase := phase);
            && Held(t, k) == Held(s, k) - One(Reserving(k)(a)) + One(Reserving(k)(b))
            && Owed(t, k) == Owed(s, k) - One(Returning(k)(a)) + One(Returning(k)(b))
            && Waiting(t, k, x) == Waiting(s, k, x) - One(Below(s.rows, k, x)(a)) + One(Below(s.rows, k, x)(b))
  {
    var b := s.calls[id].(phase := phase);
    PickMoved(s.calls, id, b, Reserving(k));
    PickMoved(s.calls, id, b, Returning(k));
    PickMoved(s.calls, id, b, Below(s.rows, k, x));
  }

  lemma Fewer(a: set<CallId>, b: set<CallId>)
    requires a <= b
    ensures |a| <= |b|
  {
    if a == {} {
    } else {
      var one :| one in a;
      Fewer(a - {one}, b - {one});
    }
  }

  lemma CountSinceGrows(rows: seq<Row>, r: Row, actor: UserId, since: nat)
    ensures CountSince(rows + [r], actor, since) >= CountSince(rows, actor, since)
  {
    assert (rows + [r])[..|rows|] == rows;
  }

  /** More rows leave no more requests below a count. */
  lemma WaitingShrinks(s: State, r: Row, k: Key, x: nat)
    ensures Waiting(s.(rows := s.rows + [r]), k, x) <= Waiting(s, k, x)
  {
    CountSinceGrows(s.rows, r, k.actor, k.day * DAY);
    Fewer(Picked(s.calls, Below(s.rows + [r], k, x)), Picked(s.calls, Below(s.rows, k, x)));
  }

  /** A step that changes nothing but the phase of one call and the counter. */
  predicate Moves(s: State, t: State, id: CallId) {
    && id in s.calls && id in t.calls && t == s.(counters := t.counters, calls := t.calls)
    && t.calls == SetPhase(s, id, t.calls[id].phase).calls
  }

  lemma MovedTallies(s: State, t: State, id: CallId, k: Key, x: nat)
    requires Moves(s, t, id)
    ensures var a, b := s.calls[id], t.calls[id];
            && Held(t, k) == Held(s, k) - One(Reserving(k)(a)) + One(Reserving(k)(b))
            && Owed(t, k) == Owed(s, k) - One(Returning(k)(a)) + One(Returning(k)(b))
            && Waiting(t, k, x) == Waiting(s, k, x) - One(Below(s.rows, k, x)(a)) + One(Below(s.rows, k, x)(b))
            && DayRows(t.rows, k) == DayRows(s.rows, k)
  {
    MoveTallies(s, id, t.calls[id].phase, k, x);
  }

  // ----- every step keeps the requests contained -----

  /** What one step has to preserve, for one `x`. */
  predicate Kept(s: State, t: State, k: Key, x: nat) {
    t.limit == s.limit && (Spare(s, k) ==> Spare(t, k)) && (Fits(s, k, x) ==> Fits(t, k, x))
  }

  lemma QuietKept(s: State, t: State, id: CallId, k: Key, x: nat)
    requires Moves(s, t, id) && t.counters == s.counters && x <= s.limit
    requires forall y: nat | y <= s.limit :: Below(s.rows, k, y)(t.calls[id]) ==> Below(s.rows, k, y)(s.calls[id])
    requires Reserving(k)(t.calls[id]) ==> Reserving(k)(s.calls[id])
    requires Returning(k)(t.calls[id]) ==> Returning(k)(s.calls[id]) || Reserving(k)(s.calls[id])
    ensures Kept(s, t, k, x)
  {
    MovedTallies(s, t, id, k, x);
    MovedTallies(s, t, id, k, s.limit);
  }

  /** A reservation takes a place above every count it made, so it fits where it is counted. */
  lemma ReserveFits(s: State, id: CallId, delivery: Delivery, k: Key, x: nat)
    requires WellFormed(s) && Counter(s, k) <= s.limit && Fits(s, k, x)
    requires id in s.calls && s.calls[id].phase.Counted?
    ensures Fits(StepReserve(s, id, delivery), k, x)
  {
    var t := StepReserve(s, id, delivery);
    assert PhaseOk(s, s.calls[id].phase);
    SwipeBudget.ReserveEffect(s, id, delivery, k);
    MovedTallies(s, t, id, k, x);
    assert Reserving(k)(t.calls[id]) ==> InFlightCall(t.calls[id], k);
  }

  lemma ReserveKept(s: State, id: CallId, delivery: Delivery, k: Key, x: nat)
    requires WellFormed(s) && Counter(s, k) <= s.limit && x <= s.limit
    requires id in s.calls && s.calls[id].phase.Counted?
    ensures Kept(s, StepReserve(s, id, delivery), k, x)
  {
    var t := StepReserve(s, id, delivery);
    assert PhaseOk(s, s.calls[id].phase);
    MovedTallies(s, t, id, k, s.limit);
    if Fits(s, k, x) {
      ReserveFits(s, id, delivery, k, x);
    }
  }

  lemma StoreTallies(s: State, id: CallId, k: Key, x: nat)
    requires id in s.calls && s.calls[id].phase.Reserved?
    ensures var t := StepRecord(s, id, Stored);
            && DayRows(t.rows, k) + Held(t, k) == DayRows(s.rows, k) + Held(s, k)
            && Owed(t, k) == Owed(s, k) && Waiting(t, k, x) <= Waiting(s, k, x)
  {
    var r := Row(s.calls[id].actor, s.calls[id].phase.at);
    var u := SetPhase(s, id, Done(Created));
    MoveTallies(s, id, Done(Created), k, x);
    WaitingShrinks(u, r, k, x);
    DayRowsAppend(s.rows, r, k);
    assert StepRecord(s, id, Stored) == u.(rows := u.rows + [r]);
  }

  lemma StoreKept(s: State, id: CallId, k: Key, x: nat)
    requires id in s.calls && s.calls[id].phase.Reserved?
    ensures Kept(s, StepRecord(s, id, Stored), k, x)
  {
    StoreTallies(s, id, k, x);
    StoreTallies(s, id, k, s.limit);
  }

  lemma ReleaseKept(s: State, id: CallId, delivery: Delivery, k: Key, x: nat)
    requires id in s.calls && s.calls[id].phase.Owing?
    ensures Kept(s, StepRelease(s, id, delivery), k, x)
  {
    var t := StepRelease(s, id, delivery);
    MovedTallies(s, t, id, k, x);
    MovedTallies(s, t, id, k, s.limit);
    assert Counter(t, k) + One(Returning(k)(s.calls[id])) >= Counter(s, k);
  }

  lemma BeginKept(s: State, id: CallId, actor: UserId, k: Key, x: nat)
    requires id !in s.calls
    ensures Kept(s, Step(s, Begin(id, actor)), k, x)
  {
    var t := Step(s, Begin(id, actor));
    assert Picked(t.calls, Reserving(k)) == Picked(s.calls, Reserving(k));
    assert Picked(t.calls, Returning(k)) == Picked(s.calls, Returning(k));
    assert Picked(t.calls, Below(s.rows, k, x)) == Picked(s.calls, Below(s.rows, k, x));
    assert Picked(t.calls, Below(s.rows, k, s.limit)) == Picked(s.calls, Below(s.rows, k, s.limit));
  }

  lemma StepKept(s: State, e: Event, k: Key, x: nat)
    requires WellFormed(s) && Past(s, k) && Counter(s, k) <= s.limit && x <= s.limit && !Drops(s, e)
    ensures Kept(s, Step(s, e), k, x)
  {
    var t := Step(s, e);
    if t != s {
      match e
      case Begin(id, actor) => BeginKept(s, id, actor, k, x);
      case Find(id, _) => QuietKept(s, t, id, k, x);
      case Count(id, _) => QuietKept(s, t, id, k, x);
      case Reserve(id, delivery) => ReserveKept(s, id, delivery, k, x);
      case Record(id, recording) =>
        if recording == Stored { StoreKept(s, id, k, x); } else { QuietKept(s, t, id, k, x); }
      case Release(id, delivery) => ReleaseKept(s, id, delivery, k, x);
      case Crash(id) => QuietKept(s, t, id, k, x);
      case Tick(_) =>
    }
  }

  lemma CounterStays(s: State, e: Event, k: Key)
    requires WellFormed(s) && Counter(s, k) <= s.limit
    ensures Counter(Step(s, e), k) <= s.limit
  {
    if e.Reserve? && e.id in s.calls && s.calls[e.id].phase.Counted? {
      assert PhaseOk(s, s.calls[e.id].phase);
    }
  }

  lemma StepContained(s: State, e: Event, k: Key)
    requires WellFormed(s) && Past(s, k) && Counter(s, k) <= s.limit && !Drops(s, e) && Contained(s, k)
    ensures Contained(Step(s, e), k)
  {
    if Spare(s, k) {
      StepKept(s, e, k, 0);
    } else {
      var x: nat :| x <= s.limit && Fits(s, k, x);
      StepKept(s, e, k, x);
    }
  }

  lemma ContainedLimit(s: State, k: Key)
    requires Counter(s, k) <= s.limit && Contained(s, k)
    ensures DayRows(s.rows, k) <= s.limit
  {
  }

  /** While the requests are contained the limit holds, and without further losses they stay contained. */
  lemma {:induction false} ContainedKeepsLimit(s: State, events: seq<Event>, k: Key)
    requires WellFormed(s) && Past(s, k) && Counter(s, k) <= s.limit && Contained(s, k) && LossFree(events)
    ensures DayRows(Run(s, events).rows, k) <= s.limit
    decreases |events|
  {
    if events == [] {
      ContainedLimit(s, k);
    } else {
      var e := events[0];
      assert e in events && !Drops(s, e);
      StepWellFormed(s, e);
      CounterStays(s, e, k);
      StepContained(s, e, k);
      StepPast(s, e, k);
      ContainedKeepsLimit(Step(s, e), events[1..], k);
    }
  }

  lemma StepPast(s: State, e: Event, k: Key)
    requires Past(s, k)
    ensures Past(Step(s, e), k)
  {
  }

  // ----- requests that are not contained overrun the limit -----

  /** A request that has not counted and would pass. */
  predicate Open(s: State, id: CallId, k: Key) {
    id in s.calls && s.calls[id].phase.Stamped? && Below(s.rows, k, s.limit)(s.calls[id])
  }

  function StillOpen(s: State, k: Key): set<CallId> {
    set id | id in s.calls && Open(s, id, k)
  }

  function Left(s: State, k: Key): nat {
    |StillOpen(s, k)| + 2 * Waiting(s, k, s.limit) + Held(s, k) + Owed(s, k)
  }

  /** Counting now changes no tally. */
  lemma CountOpen(s: State, id: CallId, k: Key)
    requires WellFormed(s) && Open(s, id, k)
    ensures var t := Step(s, Count(id, false));
            && (Contained(t, k) ==> Contained(s, k)) && Left(t, k) < Left(s, k)
            && t.now == s.now && t.limit == s.limit && t.counters == s.counters
  {
    var t := Step(s, Count(id, false));
    forall x: nat | x <= s.limit ensures Fits(t, k, x) ==> Fits(s, k, x) {
      MovedTallies(s, t, id, k, x);
    }
    MovedTallies(s, t, id, k, s.limit);
    assert StillOpen(t, k) == StillOpen(s, k) - {id};
  }

  /** Storing a reservation changes no sum. */
  lemma StoreHeld(s: State, id: CallId, k: Key)
    requires WellFormed(s) && StillOpen(s, k) == {} && id in s.calls && Reserving(k)(s.calls[id])
    ensures var t := Step(s, Record(id, Stored));
            && (Contained(t, k) ==> Contained(s, k)) && Left(t, k) < Left(s, k)
            && t.now == s.now && t.limit == s.limit && t.counters == s.counters
  {
    var t := Step(s, Record(id, Stored));
    CountSinceGrows(s.rows, Row(s.calls[id].actor, s.calls[id].phase.at), k.actor, k.day * DAY);
    forall x: nat | x <= s.limit ensures Waiting(t, k, x) == Waiting(s, k, x) && (Fits(t, k, x) ==> Fits(s, k, x)) {
      StoreTallies(s, id, k, x);
      WaitingSame(s, t, id, k, x);
    }
    StoreTallies(s, id, k, s.limit);
    HeldFalls(s, id, k);
    NoneOpen(s, t, k);
  }

  /** Nothing opens while calls leave the stage of counting and rows are added. */
  lemma NoneOpen(s: State, t: State, k: Key)
    requires StillOpen(s, k) == {} && t.limit == s.limit
    requires CountSince(t.rows, k.actor, k.day * DAY) >= CountSince(s.rows, k.actor, k.day * DAY)
    requires forall id <- t.calls :: t.calls[id].phase.Stamped? ==> id in s.calls && t.calls[id] == s.calls[id]
    ensures StillOpen(t, k) == {}
  {
    forall id | id in t.calls ensures !Open(t, id, k) {
      assert id !in StillOpen(s, k);
    }
  }

  lemma WaitingSame(s: State, t: State, id: CallId, k: Key, x: nat)
    requires StillOpen(s, k) == {} && x <= s.limit && id in s.calls && s.calls[id].phase.Reserved?
    requires t == StepRecord(s, id, Stored)
    ensures Waiting(s, k, x) <= Waiting(t, k, x)
  {
    forall other | other in s.calls && Below(s.rows, k, x)(s.calls[other])
      ensures Below(t.rows, k, x)(t.calls[other])
    {
      assert other !in StillOpen(s, k);
    }
    Fewer(Picked(s.calls, Below(s.rows, k, x)), Picked(t.calls, Below(t.rows, k, x)));
  }

  lemma HeldFalls(s: State, id: CallId, k: Key)
    requires id in s.calls && Reserving(k)(s.calls[id])
    ensures Held(Step(s, Record(id, Stored)), k) == Held(s, k) - 1
  {
    MoveTallies(s, id, Done(Created), k, 0);
  }

  /** Of the requests that wait one has counted least. */
  lemma LeastOf(ids: set<CallId>, calls: map<CallId, Call>) returns (least: CallId)
    requires ids != {} && forall id <- ids :: id in calls && calls[id].phase.Counted?
    ensures least in ids && forall id <- ids :: calls[least].phase.count <= calls[id].phase.count
  {
    var one :| one in ids;
    if ids == {one} {
      least := one;
    } else {
      var rest := LeastOf(ids - {one}, calls);
      least := if calls[one].phase.count <= calls[rest].phase.count then one else rest;
    }
  }

  lemma LeastWaiting(s: State, k: Key) returns (id: CallId)
    requires WellFormed(s) && StillOpen(s, k) == {} && Waiting(s, k, s.limit) > 0
    ensures id in s.calls && s.calls[id].phase.Counted? && KeyAt(s.calls[id].actor, s.calls[id].phase.at) == k
    ensures s.calls[id].phase.count < s.limit && Waiting(s, k, s.calls[id].phase.count) == 0
  {
    var ids := Picked(s.calls, Below(s.rows, k, s.limit));
    forall other | other in ids ensures s.calls[other].phase.Counted? {
      assert other !in StillOpen(s, k);
    }
    id := LeastOf(ids, s.calls);
    var count := s.calls[id].phase.count;
    var fewer := Picked(s.calls, Below(s.rows, k, count));
    assert forall other <- ids :: other !in fewer;
    assert fewer <= ids;
    assert fewer == {};
  }

  /** The request that counted least takes the next place. */
  lemma ReserveLeast(s: State, id: CallId, k: Key)
    requires WellFormed(s) && StillOpen(s, k) == {} && Held(s, k) == 0 && Counter(s, k) < s.limit && !Contained(s, k)
    requires id in s.calls && s.calls[id].phase.Counted? && KeyAt(s.calls[id].actor, s.calls[id].phase.at) == k
    requires s.calls[id].phase.count < s.limit && Waiting(s, k, s.calls[id].phase.count) == 0
    ensures var t := Step(s, Reserve(id, Delivered));
            && !Contained(t, k) && Left(t, k) < Left(s, k) && t.now == s.now && t.limit == s.limit
  {
    var t := Step(s, Reserve(id, Delivered));
    var count := s.calls[id].phase.count;
    assert Counter(t, k) == Larger(count, Counter(s, k)) + 1;
    assert !Fits(s, k, count);
    forall x: nat | x <= s.limit ensures !Fits(t, k, x) {
      MovedTallies(s, t, id, k, x);
      WaitingGrows(s, k, x, count);
      assert !Fits(s, k, x);
    }
    MovedTallies(s, t, id, k, s.limit);
    NoneOpen(s, t, k);
  }

  lemma WaitingGrows(s: State, k: Key, x: nat, y: nat)
    ensures x <= y ==> Waiting(s, k, x) <= Waiting(s, k, y)
  {
    if x <= y {
      Fewer(Picked(s.calls, Below(s.rows, k, x)), Picked(s.calls, Below(s.rows, k, y)));
    }
  }

  /** When the counter is full, an owed release makes room for one more. */
  lemma ReleaseOwed(s: State, id: CallId, k: Key)
    requires WellFormed(s) && StillOpen(s, k) == {} && Held(s, k) == 0 && Counter(s, k) == s.limit && !Contained(s, k)
    requires id in s.calls && Returning(k)(s.calls[id])
    ensures var t := Step(s, Release(id, Delivered));
            && !Contained(t, k) && Left(t, k) < Left(s, k) && t.now == s.now && t.limit == s.limit
  {
    var t := Step(s, Release(id, Delivered));
    assert PhaseOk(s, s.calls[id].phase);
    assert Counter(t, k) == s.limit - 1;
    forall x: nat | x <= s.limit ensures !Fits(t, k, x) {
      MovedTallies(s, t, id, k, x);
      assert !Fits(s, k, x);
    }
    MovedTallies(s, t, id, k, s.limit);
    NoneOpen(s, t, k);
  }

  /** One step of a run that overruns. */
  lemma NextOver(s: State, k: Key) returns (e: Event)
    requires WellFormed(s) && Counter(s, k) <= s.limit && DayRows(s.rows, k) <= s.limit && !Contained(s, k)
    ensures !e.Expire? && !e.Evict?
    ensures var t := Step(s, e);
            && !Contained(t, k) && Left(t, k) < Left(s, k) && t.now == s.now && t.limit == s.limit
  {
    if StillOpen(s, k) != {} {
      var id :| id in StillOpen(s, k);
      CountOpen(s, id, k);
      e := Count(id, false);
    } else if Held(s, k) > 0 {
      var id :| id in Picked(s.calls, Reserving(k));
      StoreHeld(s, id, k);
      e := Record(id, Stored);
    } else if Counter(s, k) < s.limit {
      var id := LeastWaiting(s, k);
      ReserveLeast(s, id, k);
      e := Reserve(id, Delivered);
    } else {
      assert !Fits(s, k, 0);
      assert Picked(s.calls, Below(s.rows, k, 0)) == {};
      var id :| id in Picked(s.calls, Returning(k));
      ReleaseOwed(s, id, k);
      e := Release(id, Delivered);
    }
  }

  lemma {:induction false} Overrun(s: State, k: Key) returns (events: seq<Event>)
    requires WellFormed(s) && Counter(s, k) <= s.limit && !Contained(s, k)
    ensures LossFree(events) && DayRows(Run(s, events).rows, k) > s.limit
    decreases Left(s, k)
  {
    if DayRows(s.rows, k) > s.limit {
      events := [];
    } else {
      var e := NextOver(s, k);
      StepWellFormed(s, e);
      CounterStays(s, e, k);
      var rest := Overrun(Step(s, e), k);
      events := [e] + rest;
      assert events[1..] == rest;
    }
  }

  // ----- main results -----

  /** Of a day that is over, said of the state before the loss: every request that is left may store its row,
      or for some number `x` the requests that counted fewer, the rows, the reservations and the owed releases
      are no more than `x`, so that the others are refused. */
  predicate HarmlessToLose(s: State, k: Key) {
    || DayRows(s.rows, k) + Held(s, k) + Waiting(s, k, s.limit) <= s.limit
    || exists x: nat | x <= s.limit :: DayRows(s.rows, k) + Held(s, k) + Owed(s, k) + Waiting(s, k, x) <= x
  }

  lemma LostContained(s: State, k: Key)
    ensures Contained(Lose(s, k), k) <==> HarmlessToLose(s, k)
  {
    var lost := Lose(s, k);
    assert Counter(lost, k) == 0;
    assert forall x: nat :: Fits(lost, k, x) <==> DayRows(s.rows, k) + Held(s, k) + Owed(s, k) + Waiting(s, k, x) <= x;
  }

  /** Losing the counter of a day that is over keeps the limit in every continuation exactly when that is so. */
  lemma PastLossExact(s: State, k: Key)
    requires Inv(s) && Past(s, k)
    ensures HarmlessToLose(s, k) <==>
            forall events :: LossFree(events) ==> DayRows(Run(Lose(s, k), events).rows, k) <= s.limit
  {
    var lost := Lose(s, k);
    LostContained(s, k);
    if HarmlessToLose(s, k) {
      forall events | LossFree(events) ensures DayRows(Run(lost, events).rows, k) <= s.limit {
        ContainedKeepsLimit(lost, events, k);
      }
    } else {
      var events := Overrun(lost, k);
      assert LossFree(events) && DayRows(Run(lost, events).rows, k) > s.limit;
    }
  }

  /** Losing a counter of a day to come is always harmless: nobody has counted or reserved on it. */
  lemma FutureLossHarmless(s: State, k: Key, events: seq<Event>)
    requires Inv(s) && k.day > s.now / DAY && LossFree(events)
    ensures SafeToLose(s, k) && DayRows(Run(Lose(s, k), events).rows, k) <= s.limit
  {
    assert SafeToLose(s, k);
    StepKeeps(s, Evict(k));
    LossFreeIsSafe(Lose(s, k), events);
    BudgetKept(Lose(s, k), events);
    LimitFixed(Lose(s, k), events);
    assert KeyInv(Run(Lose(s, k), events), k);
  }
}
