/** What happens to the daily budget when Redis loses a counter: exactly which losses are
    harmless, and why a counter that expires by itself is one of them. */
module SwipeLoss {
  import opened SwipeBudget

  // ----- driving a run: fresh requests that use the budget up -----

  lemma FreshCall(taken: set<CallId>) returns (id: CallId)
    ensures id !in taken
    ensures forall other <- taken :: other < id
  {
    if taken == {} {
      id := 0;
    } else {
      var one :| one in taken;
      var rest := FreshCall(taken - {one});
      assert taken == (taken - {one}) + {one};
      id := if one < rest then rest else one + 1;
    }
  }

  /** A request that is new, finds no earlier swipe, counts and asks for a reservation. */
  function Start(id: CallId, actor: UserId): seq<Event> {
    [Begin(id, actor), Find(id, Missing), Count(id, false), Reserve(id, Delivered)]
  }

  predicate Today(s: State, k: Key) {
    k.day == s.now / DAY
  }

  lemma RunFour(s: State, a: Event, b: Event, c: Event, d: Event)
    ensures Run(s, [a, b, c, d]) == Step(Step(Step(Step(s, a), b), c), d)
  {
    RunSnoc(s, [a, b, c], d);
    RunSnoc(s, [a, b], c);
    RunSnoc(s, [a], b);
    RunOne(s, a);
    assert [a, b, c, d] == [a, b, c] + [d] && [a, b, c] == [a, b] + [c] && [a, b] == [a] + [b];
  }

  lemma CountEffect(s: State, id: CallId, k: Key)
    requires WellFormed(s) && Today(s, k)
    requires id in s.calls && s.calls[id] == Call(k.actor, Stamped(s.now)) && DayRows(s.rows, k) < s.limit
    ensures var t := Step(s, Count(id, false));
            t == SetPhase(s, id, Counted(s.now, DayRows(s.rows, k))) && WellFormed(t)
  {
    CountIsDay(s.rows, k);
  }

  lemma ReserveEffect(s: State, id: CallId, k: Key, count: nat)
    requires WellFormed(s) && Today(s, k) && count < s.limit && Current(Lookup(s.counters, k)) < s.limit
    requires id in s.calls && s.calls[id] == Call(k.actor, Counted(s.now, count))
    ensures var t := Step(s, Reserve(id, Delivered));
            var current := Current(Lookup(s.counters, k));
            && WellFormed(t) && t.limit == s.limit && t.now == s.now && t.rows == s.rows
            && t.calls == s.calls[id := Call(k.actor, Reserved(s.now, count))]
            && Current(Lookup(t.counters, k)) == 1 + if current < count then count else current
  {
  }

  lemma FindEffect(s: State, id: CallId, actor: UserId)
    requires WellFormed(s) && id !in s.calls
    ensures var t := Step(Step(s, Begin(id, actor)), Find(id, Missing));
            t == s.(calls := s.calls[id := Call(actor, Stamped(s.now))]) && WellFormed(t)
  {
  }

  lemma CountedEffect(s: State, id: CallId, k: Key)
    requires WellFormed(s) && Today(s, k) && id !in s.calls && DayRows(s.rows, k) < s.limit
    ensures var t := Step(Step(Step(s, Begin(id, k.actor)), Find(id, Missing)), Count(id, false));
            t == s.(calls := s.calls[id := Call(k.actor, Counted(s.now, DayRows(s.rows, k)))]) && WellFormed(t)
  {
    FindEffect(s, id, k.actor);
    var stamped := s.(calls := s.calls[id := Call(k.actor, Stamped(s.now))]);
    CountEffect(stamped, id, k);
    assert stamped.calls[id := Call(k.actor, Counted(s.now, DayRows(s.rows, k)))]
        == s.calls[id := Call(k.actor, Counted(s.now, DayRows(s.rows, k)))];
  }

  /** The state after a request that found room: its reservation is held, the counter one up. */
  predicate Started(s: State, t: State, id: CallId, k: Key) {
    var rows, current := DayRows(s.rows, k), Current(Lookup(s.counters, k));
    && WellFormed(t) && t.limit == s.limit && t.now == s.now && t.rows == s.rows
    && t.calls == s.calls[id := Call(k.actor, Reserved(s.now, rows))]
    && Current(Lookup(t.counters, k)) == 1 + if current < rows then rows else current
  }

  lemma StartEffect(s: State, id: CallId, k: Key)
    requires WellFormed(s) && Today(s, k) && id !in s.calls
    requires DayRows(s.rows, k) < s.limit && Current(Lookup(s.counters, k)) < s.limit
    ensures Started(s, Run(s, Start(id, k.actor)), id, k)
  {
    CountedEffect(s, id, k);
    var rows := DayRows(s.rows, k);
    var counted := s.(calls := s.calls[id := Call(k.actor, Counted(s.now, rows))]);
    ReserveEffect(counted, id, k, rows);
    RunFour(s, Begin(id, k.actor), Find(id, Missing), Count(id, false), Reserve(id, Delivered));
    assert counted.calls[id := Call(k.actor, Reserved(s.now, rows))]
        == s.calls[id := Call(k.actor, Reserved(s.now, rows))];
  }

  lemma StoreEffect(s: State, id: CallId, k: Key)
    requires WellFormed(s) && id in s.calls && s.calls[id].phase.Reserved?
    requires KeyAt(s.calls[id].actor, s.calls[id].phase.at) == k
    ensures var t := Step(s, Record(id, Stored));
            && WellFormed(t) && t.limit == s.limit && t.now == s.now && t.counters == s.counters
            && DayRows(t.rows, k) == DayRows(s.rows, k) + 1
            && t.calls == s.calls[id := Call(s.calls[id].actor, Done(Created))]
  {
    StepWellFormed(s, Record(id, Stored));
    DayRowsAppend(s.rows, Row(s.calls[id].actor, s.calls[id].phase.at), k);
  }

  /** One request more and its row is stored. */
  predicate Filled(s: State, t: State, k: Key) {
    && WellFormed(t) && t.limit == s.limit && t.now == s.now
    && Current(Lookup(t.counters, k)) <= DayRows(t.rows, k)
    && (forall id <- s.calls :: id in t.calls && t.calls[id] == s.calls[id])
    && (forall r <- t.rows :: r in s.rows || KeyAt(r.actor, r.createdAt) == k)
  }

  lemma StoredFills(s: State, started: State, id: CallId, k: Key)
    requires Started(s, started, id, k) && id !in s.calls && Today(s, k)
    requires Current(Lookup(s.counters, k)) <= DayRows(s.rows, k)
    ensures var t := Step(started, Record(id, Stored));
            Filled(s, t, k) && DayRows(t.rows, k) == DayRows(s.rows, k) + 1
  {
    StoreEffect(started, id, k);
    assert Step(started, Record(id, Stored)).rows == s.rows + [Row(k.actor, s.now)];
  }

  lemma FillOne(s: State, k: Key) returns (events: seq<Event>)
    requires WellFormed(s) && Today(s, k)
    requires Current(Lookup(s.counters, k)) <= DayRows(s.rows, k) < s.limit
    ensures LossFree(events) && Filled(s, Run(s, events), k)
    ensures DayRows(Run(s, events).rows, k) == DayRows(s.rows, k) + 1
  {
    var id := FreshCall(s.calls.Keys);
    StartEffect(s, id, k);
    StoredFills(s, Run(s, Start(id, k.actor)), id, k);
    RunSnoc(s, Start(id, k.actor), Record(id, Stored));
    events := Start(id, k.actor) + [Record(id, Stored)];
  }

  /** Fresh requests alone can bring the day's rows to any target within the limit. */
  lemma {:induction false} Fill(s: State, k: Key, target: nat) returns (events: seq<Event>)
    requires WellFormed(s) && Today(s, k)
    requires Current(Lookup(s.counters, k)) <= DayRows(s.rows, k) <= target <= s.limit
    ensures LossFree(events) && Filled(s, Run(s, events), k) && DayRows(Run(s, events).rows, k) == target
    decreases target - DayRows(s.rows, k)
  {
    if DayRows(s.rows, k) == target {
      events := [];
    } else {
      var one := FillOne(s, k);
      var rest := Fill(Run(s, one), k, target);
      RunAppend(s, one, rest);
      events := one + rest;
    }
  }

  // ----- three ways a forgotten request breaks the limit -----

  lemma OverByReserved(s: State, k: Key, id: CallId) returns (events: seq<Event>)
    requires WellFormed(s) && Today(s, k)
    requires Current(Lookup(s.counters, k)) <= DayRows(s.rows, k) <= s.limit
    requires id in s.calls && InFlightCall(s.calls[id], k) && s.calls[id].phase.Reserved?
    ensures LossFree(events) && DayRows(Run(s, events).rows, k) > s.limit
  {
    var fill := Fill(s, k, s.limit);
    StoreEffect(Run(s, fill), id, k);
    RunSnoc(s, fill, Record(id, Stored));
    events := fill + [Record(id, Stored)];
  }

  /** The day is one short of full, the counter agrees, and an old release is still to come: a new
      request takes the last place and the old release frees it again. */
  lemma StaleRelease(s: State, k: Key, id: CallId) returns (events: seq<Event>)
    requires WellFormed(s) && Today(s, k)
    requires Current(Lookup(s.counters, k)) <= DayRows(s.rows, k) == s.limit - 1
    requires id in s.calls && InFlightCall(s.calls[id], k) && s.calls[id].phase.Owing?
    ensures LossFree(events)
    ensures var t := Run(s, events);
            && WellFormed(t) && t.limit == s.limit && t.now == s.now && t.rows == s.rows
            && Current(Lookup(t.counters, k)) == s.limit - 1
            && exists a <- t.calls :: InFlightCall(t.calls[a], k) && t.calls[a].phase.Reserved?
  {
    var a := FreshCall(s.calls.Keys);
    StartEffect(s, a, k);
    var first := Run(s, Start(a, k.actor));
    assert first.calls[id] == s.calls[id];
    RunSnoc(s, Start(a, k.actor), Release(id, Delivered));
    events := Start(a, k.actor) + [Release(id, Delivered)];
    var t := Run(s, events);
    assert t == StepRelease(first, id, Delivered);
    assert InFlightCall(t.calls[a], k);
  }

  lemma OverByOwing(s: State, k: Key, id: CallId) returns (events: seq<Event>)
    requires WellFormed(s) && Today(s, k)
    requires Current(Lookup(s.counters, k)) <= DayRows(s.rows, k) < s.limit
    requires id in s.calls && InFlightCall(s.calls[id], k) && s.calls[id].phase.Owing?
    ensures LossFree(events) && DayRows(Run(s, events).rows, k) > s.limit
  {
    var fill := Fill(s, k, s.limit - 1);
    var stale := StaleRelease(Run(s, fill), k, id);
    RunAppend(s, fill, stale);
    var t := Run(s, fill + stale);
    var a :| a in t.calls && InFlightCall(t.calls[a], k) && t.calls[a].phase.Reserved?;
    var rest := OverByReserved(t, k, a);
    RunAppend(s, fill + stale, rest);
    events := fill + stale + rest;
  }

  lemma OverByWaiting(s: State, k: Key, id: CallId) returns (events: seq<Event>)
    requires WellFormed(s) && Today(s, k)
    requires k !in s.counters && DayRows(s.rows, k) <= s.limit
    requires id in s.calls && WaitingCall(s.calls[id], k) && s.calls[id].phase.count < DayRows(s.rows, k)
    ensures LossFree(events) && DayRows(Run(s, events).rows, k) > s.limit
  {
    var reserved := Step(s, Reserve(id, Delivered));
    assert WellFormed(reserved);
    var rest := OverByReserved(reserved, k, id);
    assert ([Reserve(id, Delivered)] + rest)[1..] == rest;
    events := [Reserve(id, Delivered)] + rest;
  }

  /** Losing the counter of the current day keeps the limit in every continuation exactly when it
      is safe to lose: no request between its row count and its record with an outdated count or a
      reservation, and no release owed while the day still has room. */
  lemma LossExact(s: State, k: Key)
    requires Inv(s) && Today(s, k)
    ensures SafeToLose(s, k) <==>
            forall events :: LossFree(events) ==> DayRows(Run(Lose(s, k), events).rows, k) <= s.limit
  {
    var lost := Lose(s, k);
    assert KeyInv(s, k);
    if SafeToLose(s, k) {
      StepKeeps(s, Evict(k));
      assert lost == Step(s, Evict(k));
      forall events | LossFree(events)
        ensures DayRows(Run(lost, events).rows, k) <= s.limit
      {
        LossFreeIsSafe(lost, events);
        BudgetKept(lost, events);
        LimitFixed(lost, events);
        assert KeyInv(Run(lost, events), k);
      }
    } else {
      var id :| id in s.calls
             && ((WaitingCall(s.calls[id], k) && s.calls[id].phase.count < DayRows(s.rows, k))
                 || (InFlightCall(s.calls[id], k) && (s.calls[id].phase.Reserved? || DayRows(s.rows, k) < s.limit)));
      var events;
      if WaitingCall(s.calls[id], k) {
        events := OverByWaiting(lost, k, id);
      } else if s.calls[id].phase.Reserved? {
        events := OverByReserved(lost, k, id);
      } else {
        events := OverByOwing(lost, k, id);
      }
      assert LossFree(events) && DayRows(Run(lost, events).rows, k) > s.limit;
    }
  }

  lemma {:induction false} LossFreeIsSafe(s: State, events: seq<Event>)
    requires LossFree(events)
    ensures LossesSafe(s, events)
    decreases |events|
  {
    if events == [] {
    } else {
      assert events[0] in events;
      LossFreeIsSafe(Step(s, events[0]), events[1..]);
    }
  }

  /** Without any loss the counter covers rows and reservations at every moment. */
  lemma {:induction false} CoveredWithoutLoss(s: State, events: seq<Event>, k: Key)
    requires Inv(s) && LossFree(events) && Covered(s, k)
    ensures var t := Run(s, events);
            DayRows(t.rows, k) + |InFlight(t, k)| <= Current(Lookup(t.counters, k)) <= s.limit
    decreases |events|
  {
    assert KeyInv(s, k);
    if events == [] {
    } else {
      assert events[0] in events;
      StepKeeps(s, events[0]);
      StepKeepsKey(s, events[0], k);
      CoveredWithoutLoss(Step(s, events[0]), events[1..], k);
    }
  }

  // ----- a count taken after midnight -----

  /** A request is refused by rows although its day has room exactly when the day's rows are below the limit
      and the open-ended count is not. */
  lemma EarlyRefusalExactly(s: State, id: CallId, k: Key)
    requires id in s.calls && s.calls[id].phase.Stamped? && KeyAt(s.calls[id].actor, s.calls[id].phase.at) == k
    ensures var p := Step(s, Count(id, false)).calls[id].phase;
            (p.Done? && p.outcome.RefusedByRows? && DayRows(s.rows, k) < s.limit)
            <==> DayRows(s.rows, k) < s.limit <= CountSince(s.rows, k.actor, k.day * DAY)
  {
  }

  lemma {:induction false} CountSinceEarlier(rows: seq<Row>, actor: UserId, earlier: nat, later: nat)
    requires earlier <= later
    ensures CountSince(rows, actor, earlier) >= CountSince(rows, actor, later)
  {
    if rows == [] {
    } else {
      CountSinceEarlier(rows[..|rows| - 1], actor, earlier, later);
    }
  }

  lemma {:induction false} NoRowsOf(rows: seq<Row>, k: Key)
    requires forall r <- rows :: KeyAt(r.actor, r.createdAt) != k
    ensures DayRows(rows, k) == 0
  {
    if rows == [] {
    } else {
      NoRowsOf(rows[..|rows| - 1], k);
    }
  }

  /** A request that read the clock in the last second of a day, and a second that has passed since. */
  lemma StampedAtMidnight(limit: nat, actor: UserId)
    ensures Run(Init(limit, DAY - 1), [Begin(0, actor), Find(0, Missing), Tick(1)])
         == State(limit, DAY, map[], [], map[0 := Call(actor, Stamped(DAY - 1))])
  {
    var a, b, c := Begin(0, actor), Find(0, Missing), Tick(1);
    RunSnoc(Init(limit, DAY - 1), [a, b], c);
    RunSnoc(Init(limit, DAY - 1), [a], b);
    RunOne(Init(limit, DAY - 1), a);
    assert [a, b, c] == [a, b] + [c] && [a, b] == [a] + [b];
  }

  /** And so it happens, for every limit and every user, in a run without failures: a request stamped in the
      last second of a day counts after midnight, when the new day is used up, and is refused by rows although
      its own day has none. */
  lemma LateCountRefuses(limit: nat, actor: UserId) returns (events: seq<Event>)
    requires limit >= 1
    ensures LossFree(events)
    ensures var s := Run(Init(limit, DAY - 1), events);
            && 0 in s.calls && s.calls[0] == Call(actor, Stamped(DAY - 1))
            && DayRows(s.rows, Key(actor, 0)) == 0 < s.limit
            && var p := Step(s, Count(0, false)).calls[0].phase;
               p.Done? && p.outcome.RefusedByRows?
  {
    var first := [Begin(0, actor), Find(0, Missing), Tick(1)];
    StampedAtMidnight(limit, actor);
    var s := State(limit, DAY, map[], [], map[0 := Call(actor, Stamped(DAY - 1))]);
    var today := Key(actor, 1);
    var fill := Fill(s, today, limit);
    RunAppend(Init(limit, DAY - 1), first, fill);
    events := first + fill;
    var t := Run(s, fill);
    NoRowsOf(t.rows, Key(actor, 0));
    CountCoversDay(t.rows, today);
    CountSinceEarlier(t.rows, actor, 0, DAY);
    EarlyRefusalExactly(t, 0, Key(actor, 0));
  }

  // ----- expiry is never a harmful loss -----

  /** Counters live until an hour after their day has ended. */
  predicate LongLived(s: State) {
    forall k <- s.counters :: s.counters[k].expiresAt >= (k.day + 1) * DAY + HOUR
  }

  /** Requests between count and record or release read the clock less than an hour ago. */
  predicate Prompt(s: State) {
    forall id <- s.calls :: var p := s.calls[id].phase;
      p.Counted? || p.Reserved? || p.Owing? ==> s.now < p.at + HOUR
  }

  predicate PromptRun(s: State, events: seq<Event>)
    decreases |events|
  {
    Prompt(s) && (events != [] ==> !events[0].Evict? && PromptRun(Step(s, events[0]), events[1..]))
  }

  lemma StepLongLived(s: State, e: Event)
    requires LongLived(s)
    ensures LongLived(Step(s, e))
  {
  }

  lemma ExpiryHarmless(s: State, k: Key)
    requires LongLived(s) && Prompt(s) && Drops(s, Expire(k))
    ensures SafeToLose(s, k)
  {
  }

  /** With requests that finish within an hour and no eviction, the limit holds in every run, the
      runs in which counters expire included. */
  lemma {:induction false} BudgetSurvivesExpiry(s: State, events: seq<Event>)
    requires Inv(s) && LongLived(s) && PromptRun(s, events)
    ensures LossesSafe(s, events)
    ensures forall k :: DayRows(Run(s, events).rows, k) <= s.limit
    decreases |events|
  {
    if events == [] {
      forall k ensures DayRows(s.rows, k) <= s.limit {
        assert KeyInv(s, k);
      }
    } else {
      if Drops(s, events[0]) {
        ExpiryHarmless(s, events[0].key);
      }
      StepKeeps(s, events[0]);
      StepLongLived(s, events[0]);
      BudgetSurvivesExpiry(Step(s, events[0]), events[1..]);
    }
  }
}
