/** When nothing fails, the Redis counter is exactly the rows of the day plus the requests in flight. */
module SwipeConservation {
  import opened SwipeBudget

  /** An event in which no request dies, no Redis call fails, no key is lost, and rows are counted
      on the day the request belongs to. */
  predicate Clean(s: State, e: Event) {
    && !e.Crash? && !Drops(s, e)
    && (e.Reserve? || e.Release? ==> e.delivery == Delivered)
    && (e.Count? && e.id in s.calls && s.calls[e.id].phase.Stamped? ==> s.now / DAY == s.calls[e.id].phase.at / DAY)
  }

  predicate CleanRun(s: State, events: seq<Event>)
    decreases |events|
  {
    events != [] ==> Clean(s, events[0]) && CleanRun(Step(s, events[0]), events[1..])
  }

  function Units(s: State, k: Key): nat {
    DayRows(s.rows, k) + |InFlight(s, k)|
  }

  predicate CountsBehind(s: State) {
    forall id <- s.calls :: var p := s.calls[id].phase;
      p.Counted? || p.Reserved? || p.Owing? ==> p.count <= DayRows(s.rows, KeyAt(s.calls[id].actor, p.at))
  }

  ghost predicate Balanced(s: State) {
    && WellFormed(s) && CountsBehind(s)
    && forall k :: Current(Lookup(s.counters, k)) == Units(s, k)
  }

  lemma CountStaysBehind(s: State, id: CallId)
    requires WellFormed(s) && CountsBehind(s) && id in s.calls && s.calls[id].phase.Stamped?
    requires s.now / DAY == s.calls[id].phase.at / DAY
    ensures CountsBehind(StepCount(s, id, false))
  {
    CountIsDay(s.rows, KeyAt(s.calls[id].actor, s.calls[id].phase.at));
  }

  lemma StoreStaysBehind(s: State, id: CallId)
    requires CountsBehind(s) && id in s.calls && s.calls[id].phase.Reserved?
    ensures CountsBehind(StepRecord(s, id, Stored))
  {
    var r := Row(s.calls[id].actor, s.calls[id].phase.at);
    forall k ensures DayRows(s.rows, k) <= DayRows(s.rows + [r], k) {
      DayRowsAppend(s.rows, r, k);
    }
  }

  lemma StepCountsBehind(s: State, e: Event)
    requires WellFormed(s) && CountsBehind(s) && Clean(s, e)
    ensures CountsBehind(Step(s, e))
  {
    if e.Count? && !e.fails && e.id in s.calls && s.calls[e.id].phase.Stamped? {
      CountStaysBehind(s, e.id);
    } else if e.Record? && e.recording == Stored && e.id in s.calls && s.calls[e.id].phase.Reserved? {
      StoreStaysBehind(s, e.id);
    }
  }

  lemma ReserveUnits(s: State, id: CallId, k: Key)
    requires Balanced(s) && id in s.calls && s.calls[id].phase.Counted?
    ensures var t := StepReserve(s, id, Delivered); Current(Lookup(t.counters, k)) == Units(t, k)
  {
    var t := StepReserve(s, id, Delivered);
    InFlightAfter(s, id, t.calls[id].phase, k);
    assert InFlight(t, k) == InFlight(SetPhase(s, id, t.calls[id].phase), k);
    assert Current(Lookup(s.counters, k)) == Units(s, k);
  }

  lemma RecordUnits(s: State, id: CallId, recording: Recording, k: Key)
    requires Balanced(s) && id in s.calls && s.calls[id].phase.Reserved?
    ensures var t := StepRecord(s, id, recording); Current(Lookup(t.counters, k)) == Units(t, k)
  {
    var t := StepRecord(s, id, recording);
    InFlightAfter(s, id, t.calls[id].phase, k);
    assert InFlight(t, k) == InFlight(SetPhase(s, id, t.calls[id].phase), k);
    assert Current(Lookup(s.counters, k)) == Units(s, k);
    DayRowsAppend(s.rows, Row(s.calls[id].actor, s.calls[id].phase.at), k);
  }

  lemma ReleaseUnits(s: State, id: CallId, k: Key)
    requires Balanced(s) && id in s.calls && s.calls[id].phase.Owing?
    ensures var t := StepRelease(s, id, Delivered); Current(Lookup(t.counters, k)) == Units(t, k)
  {
    var t := StepRelease(s, id, Delivered);
    InFlightAfter(s, id, t.calls[id].phase, k);
    assert InFlight(t, k) == InFlight(SetPhase(s, id, t.calls[id].phase), k);
    assert Current(Lookup(s.counters, k)) == Units(s, k);
    if InFlightCall(s.calls[id], k) {
      assert id in InFlight(s, k);
    }
  }

  lemma StepUnits(s: State, e: Event, k: Key)
    requires Balanced(s) && Clean(s, e)
    ensures Current(Lookup(Step(s, e).counters, k)) == Units(Step(s, e), k)
  {
    var t := Step(s, e);
    assert Current(Lookup(s.counters, k)) == Units(s, k);
    if t != s {
      match e
      case Find(id, _) => InFlightAfter(s, id, t.calls[id].phase, k);
      case Count(id, _) => InFlightAfter(s, id, t.calls[id].phase, k);
      case Reserve(id, _) => ReserveUnits(s, id, k);
      case Record(id, recording) => RecordUnits(s, id, recording, k);
      case Release(id, _) => ReleaseUnits(s, id, k);
      case Begin(_, _) => assert InFlight(t, k) == InFlight(s, k);
      case Tick(_) => assert InFlight(t, k) == InFlight(s, k);
      case _ =>
    }
  }

  lemma StepBalanced(s: State, e: Event)
    requires Balanced(s) && Clean(s, e)
    ensures Balanced(Step(s, e))
  {
    StepWellFormed(s, e);
    StepCountsBehind(s, e);
    forall k ensures Current(Lookup(Step(s, e).counters, k)) == Units(Step(s, e), k) {
      StepUnits(s, e, k);
    }
  }

  /** Conservation over whole runs. */
  lemma {:induction false} Conserved(s: State, events: seq<Event>)
    requires Balanced(s) && CleanRun(s, events)
    ensures Balanced(Run(s, events))
    decreases |events|
  {
    if events == [] {
    } else {
      StepBalanced(s, events[0]);
      Conserved(Step(s, events[0]), events[1..]);
    }
  }

  lemma InitBalanced(limit: nat, now: nat)
    requires limit >= 1
    ensures Balanced(Init(limit, now))
  {
    forall k ensures InFlight(Init(limit, now), k) == {} {
    }
  }

  /** So from the start: after every run of that kind the counter of every user and day is exactly the rows
      of the day plus the reservations in flight. */
  lemma ConservedFromStart(limit: nat, now: nat, events: seq<Event>, k: Key)
    requires limit >= 1 && CleanRun(Init(limit, now), events)
    ensures var t := Run(Init(limit, now), events);
            Current(Lookup(t.counters, k)) == DayRows(t.rows, k) + |InFlight(t, k)|
  {
    InitBalanced(limit, now);
    Conserved(Init(limit, now), events);
    assert Current(Lookup(Run(Init(limit, now), events).counters, k)) == Units(Run(Init(limit, now), events), k);
  }

  /** A request is refused exactly when rows plus reservations have reached the limit: by the
      counter when it asks for a reservation, and before that only when the rows alone fill the day. */
  lemma RefusedExactly(s: State, id: CallId, k: Key)
    requires Balanced(s) && id in s.calls
    requires !s.calls[id].phase.Searching? && !s.calls[id].phase.Done?
    requires KeyAt(s.calls[id].actor, s.calls[id].phase.at) == k
    ensures s.calls[id].phase.Counted? ==>
              var p := Step(s, Reserve(id, Delivered)).calls[id].phase;
              (p.Reserved? <==> Units(s, k) < s.limit) && (!p.Reserved? ==> p.Done? && p.outcome.RefusedByCounter?)
    ensures s.calls[id].phase.Stamped? && s.now / DAY == k.day ==>
              var p := Step(s, Count(id, false)).calls[id].phase;
              (p.Counted? <==> DayRows(s.rows, k) < s.limit) && (!p.Counted? ==> p.Done? && p.outcome.RefusedByRows?)
  {
    assert Current(Lookup(s.counters, k)) == Units(s, k);
    CountIsDay(s.rows, k);
  }

  /** The floor guard of the release never keeps back a unit that is due. */
  lemma ReleaseNeverSuppressed(s: State, id: CallId, k: Key)
    requires Balanced(s) && id in s.calls && s.calls[id].phase.Owing?
    requires KeyAt(s.calls[id].actor, s.calls[id].phase.at) == k
    ensures Current(Lookup(Step(s, Release(id, Delivered)).counters, k)) == Current(Lookup(s.counters, k)) - 1
  {
    assert id in InFlight(s, k);
    assert Current(Lookup(s.counters, k)) == Units(s, k);
  }
}
