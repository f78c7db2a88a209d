/** The daily swipe budget: Redis and PostgreSQL share one limit per user and UTC day.

    A state holds the Redis counters, the stored swipe rows and every request in progress.
    One event is one atomic step of one request (a statement, a script or a transaction), a
    crash, a step of the clock, or Redis dropping a key. Any sequence of events is a run, so
    a statement about every run is a statement about every interleaving. */
module SwipeBudget {
  import opened Uuids
  import opened Wrappers

  type UserId = Uuid
  type CallId = nat

  const DAY := 86400
  const HOUR := 3600

  /** One Redis counter: a user and a UTC day. */
  datatype Key = Key(actor: UserId, day: nat)
  datatype Entry = Entry(value: nat, expiresAt: int)
  datatype Row = Row(actor: UserId, createdAt: nat)

  datatype Outcome =
    | SelfInteraction
    | InvalidAction
    | Existing
    | SearchFailed
    | CountFailed
    | RefusedByRows(retryAfter: int)
    | RefusedByCounter(retryAfter: int)
    | LimiterDown
    | Created
    | Duplicate(released: bool)
    | RecordFailed(released: bool)
    | Crashed

  /** Where a request stands. `at` is the instant it read the clock, `count` what it counted. */
  datatype Phase =
    | Searching
    | Stamped(at: nat)
    | Counted(at: nat, count: nat)
    | Reserved(at: nat, count: nat)
    | Owing(at: nat, count: nat, failed: bool)
    | Done(outcome: Outcome)

  datatype Call = Call(actor: UserId, phase: Phase)

  datatype State = State(
    limit: nat,
    now: nat,
    counters: map<Key, Entry>,
    rows: seq<Row>,
    calls: map<CallId, Call>)

  /** How a Redis call ends: `ReplyLost` ran the script but the caller sees an error. */
  datatype Delivery = Delivered | NotSent | ReplyLost
  datatype Search = Missing | Found | Broken
  datatype Recording = Stored | AlreadyThere | Rejected

  datatype Event =
    | Begin(id: CallId, actor: UserId)
    | Find(id: CallId, search: Search)
    | Count(id: CallId, fails: bool)
    | Reserve(id: CallId, delivery: Delivery)
    | Record(id: CallId, recording: Recording)
    | Release(id: CallId, delivery: Delivery)
    | Crash(id: CallId)
    | Tick(seconds: nat)
    | Expire(key: Key)
    | Evict(key: Key)

  // ----- the two Lua scripts, as functions of the stored entry -----

  function Current(entry: Option<Entry>): nat {
    if entry.Some? then entry.value.value else 0
  }

  /** The reservation lifts the counter to the persisted rows and adds one when there is room. */
  function ReserveScript(entry: Option<Entry>, persisted: nat, limit: nat, expiresAt: int): (r: (Option<Entry>, bool))
    ensures r.1 <==> Current(entry) < limit && persisted < limit
    ensures r.1 ==> Current(r.0) == 1 + if Current(entry) < persisted then persisted else Current(entry)
    ensures !r.1 ==> Current(r.0) == if Current(entry) < persisted then persisted else Current(entry)
  {
    var lifted := if Current(entry) < persisted then Some(Entry(persisted, expiresAt)) else entry;
    if Current(lifted) >= limit then (lifted, false)
    else (Some(Entry(Current(lifted) + 1, expiresAt)), true)
  }

  /** A release gives one unit back, never going below the rows counted by its request. */
  function ReleaseScript(entry: Option<Entry>, floor: nat): (r: Option<Entry>)
    ensures r.Some? <==> entry.Some?
    ensures r.Some? ==> r.value.expiresAt == entry.value.expiresAt
    ensures Current(r) == if Current(entry) > floor then Current(entry) - 1 else Current(entry)
  {
    if Current(entry) > floor then Some(entry.value.(value := entry.value.value - 1)) else entry
  }

  function RetryAfter(day: nat, now: int): (seconds: int)
    ensures seconds >= 1 && now + seconds >= (day + 1) * DAY
    ensures seconds == 1 || now + seconds == (day + 1) * DAY
  {
    var left := (day + 1) * DAY - now;
    if left < 1 then 1 else left
  }

  function Expiry(day: nat, now: int): int {
    now + (RetryAfter(day, now) + HOUR)
  }

  // ----- reading the stores -----

  function Lookup(counters: map<Key, Entry>, k: Key): Option<Entry> {
    if k in counters then Some(counters[k]) else None
  }

  function Put(counters: map<Key, Entry>, k: Key, entry: Option<Entry>): map<Key, Entry> {
    if entry.Some? then counters[k := entry.value] else counters
  }

  function KeyAt(actor: UserId, at: nat): Key {
    Key(actor, at / DAY)
  }

  /** Rows of one user and one day. */
  function DayRows(rows: seq<Row>, k: Key): nat {
    if rows == [] then 0
    else
      var last := rows[|rows| - 1];
      DayRows(rows[..|rows| - 1], k) + if KeyAt(last.actor, last.createdAt) == k then 1 else 0
  }

  /** The SQL count: rows of one user from `since` on, with no upper bound. */
  function CountSince(rows: seq<Row>, actor: UserId, since: nat): nat {
    if rows == [] then 0
    else
      var last := rows[|rows| - 1];
      CountSince(rows[..|rows| - 1], actor, since) + if last.actor == actor && last.createdAt >= since then 1 else 0
  }

  // ----- one step -----

  function SetPhase(s: State, id: CallId, phase: Phase): State
    requires id in s.calls
  {
    s.(calls := s.calls[id := s.calls[id].(phase := phase)])
  }

  function StepFind(s: State, id: CallId, search: Search): State
    requires id in s.calls
  {
    match search
    case Missing => SetPhase(s, id, Stamped(s.now))
    case Found => SetPhase(s, id, Done(Existing))
    case Broken => SetPhase(s, id, Done(SearchFailed))
  }

  function StepCount(s: State, id: CallId, fails: bool): State
    requires id in s.calls && s.calls[id].phase.Stamped?
  {
    var at := s.calls[id].phase.at;
    var day := at / DAY;
    var persisted := CountSince(s.rows, s.calls[id].actor, day * DAY);
    if fails then SetPhase(s, id, Done(CountFailed))
    else if persisted >= s.limit then SetPhase(s, id, Done(RefusedByRows(RetryAfter(day, at))))
    else SetPhase(s, id, Counted(at, persisted))
  }

  function StepReserve(s: State, id: CallId, delivery: Delivery): State
    requires id in s.calls && s.calls[id].phase.Counted?
  {
    var Counted(at, count) := s.calls[id].phase;
    var k := KeyAt(s.calls[id].actor, at);
    if delivery == NotSent then SetPhase(s, id, Done(LimiterDown))
    else
      var (entry, admitted) := ReserveScript(Lookup(s.counters, k), count, s.limit, Expiry(k.day, s.now));
      var t := s.(counters := Put(s.counters, k, entry));
      if delivery == ReplyLost then SetPhase(t, id, Done(LimiterDown))
      else if admitted then SetPhase(t, id, Reserved(at, count))
      else SetPhase(t, id, Done(RefusedByCounter(RetryAfter(k.day, s.now))))
  }

  function StepRecord(s: State, id: CallId, recording: Recording): State
    requires id in s.calls && s.calls[id].phase.Reserved?
  {
    var Reserved(at, count) := s.calls[id].phase;
    match recording
    case Stored => SetPhase(s.(rows := s.rows + [Row(s.calls[id].actor, at)]), id, Done(Created))
    case AlreadyThere => SetPhase(s, id, Owing(at, count, false))
    case Rejected => SetPhase(s, id, Owing(at, count, true))
  }

  function StepRelease(s: State, id: CallId, delivery: Delivery): State
    requires id in s.calls && s.calls[id].phase.Owing?
  {
    var Owing(at, count, failed) := s.calls[id].phase;
    var k := KeyAt(s.calls[id].actor, at);
    var counters := if delivery == NotSent then s.counters
                    else Put(s.counters, k, ReleaseScript(Lookup(s.counters, k), count));
    var released := delivery == Delivered;
    SetPhase(s.(counters := counters), id, Done(if failed then RecordFailed(released) else Duplicate(released)))
  }

  function Lose(s: State, k: Key): State {
    s.(counters := s.counters - {k})
  }

  /** Redis may drop an expired key at any moment from its expiry on; a swept key is gone for good. */
  predicate Drops(s: State, e: Event) {
    e.Evict? || (e.Expire? && e.key in s.counters && s.counters[e.key].expiresAt <= s.now)
  }

  /** An event that is not enabled leaves the state as it is. */
  function Step(s: State, e: Event): State {
    match e
    case Begin(id, actor) => if id in s.calls then s else s.(calls := s.calls[id := Call(actor, Searching)])
    case Find(id, search) =>
      if id in s.calls && s.calls[id].phase.Searching? then StepFind(s, id, search) else s
    case Count(id, fails) =>
      if id in s.calls && s.calls[id].phase.Stamped? then StepCount(s, id, fails) else s
    case Reserve(id, delivery) =>
      if id in s.calls && s.calls[id].phase.Counted? then StepReserve(s, id, delivery) else s
    case Record(id, recording) =>
      if id in s.calls && s.calls[id].phase.Reserved? then StepRecord(s, id, recording) else s
    case Release(id, delivery) =>
      if id in s.calls && s.calls[id].phase.Owing? then StepRelease(s, id, delivery) else s
    case Crash(id) =>
      if id in s.calls && !s.calls[id].phase.Done? then SetPhase(s, id, Done(Crashed)) else s
    case Tick(seconds) => s.(now := s.now + seconds)
    case Expire(k) => if Drops(s, e) then Lose(s, k) else s
    case Evict(k) => Lose(s, k)
  }

  function Run(s: State, events: seq<Event>): State
    decreases |events|
  {
    if events == [] then s else Run(Step(s, events[0]), events[1..])
  }

  function Init(limit: nat, now: nat): State {
    State(limit, now, map[], [], map[])
  }

  // ----- each step, number by number -----

  /** A request that finds nothing reads the clock; a stored swipe ends it, and so does an error. */
  lemma FindExactly(s: State, id: CallId, search: Search)
    requires id in s.calls && s.calls[id].phase == Searching
    ensures Step(s, Find(id, search)) == s.(calls := s.calls[id := Call(s.calls[id].actor,
              if search == Missing then Stamped(s.now)
              else if search == Found then Done(Existing) else Done(SearchFailed))])
  {
  }

  /** The count covers the rows of the user since the start of the day the clock was read on. */
  lemma CountExactly(s: State, id: CallId, at: nat, fails: bool)
    requires id in s.calls && s.calls[id].phase == Stamped(at)
    ensures var t := Step(s, Count(id, fails));
            var count := CountSince(s.rows, s.calls[id].actor, at / 86400 * 86400);
            && t == s.(calls := t.calls) && id in t.calls
            && t.calls == s.calls[id := Call(s.calls[id].actor, t.calls[id].phase)]
            && (fails ==> t.calls[id].phase == Done(CountFailed))
            && (!fails && count >= s.limit ==>
                  && t.calls[id].phase.Done? && t.calls[id].phase.outcome.RefusedByRows?
                  && t.calls[id].phase.outcome.retryAfter == (at / 86400 + 1) * 86400 - at)
            && (!fails && count < s.limit ==> t.calls[id].phase == Counted(at, count))
  {
  }

  /** The reservation is granted while both counter and count are below the limit, and takes the next place
      after the larger; otherwise the counter is only lifted to the count. Whatever it writes lives until an
      hour after the day, or an hour and a second when the day is over. */
  lemma ReserveExactly(s: State, id: CallId, at: nat, count: nat, delivery: Delivery, current: nat)
    requires id in s.calls && s.calls[id].phase == Counted(at, count)
    requires var k := Key(s.calls[id].actor, at / 86400);
             if k in s.counters then current == s.counters[k].value else current == 0
    ensures var t := Step(s, Reserve(id, delivery));
            var k := Key(s.calls[id].actor, at / 86400);
            var left := (at / 86400 + 1) * 86400 - s.now;
            var wait := if left < 1 then 1 else left;
            var larger := if current < count then count else current;
            var admitted := current < s.limit && count < s.limit;
            && t == s.(counters := t.counters, calls := t.calls)
            && id in t.calls && t.calls == s.calls[id := Call(s.calls[id].actor, t.calls[id].phase)]
            && t.counters == (if delivery == NotSent then s.counters
                              else if admitted then s.counters[k := Entry(larger + 1, s.now + wait + 3600)]
                              else if current < count then s.counters[k := Entry(count, s.now + wait + 3600)]
                              else s.counters)
            && t.calls[id].phase == (if delivery != Delivered then Done(LimiterDown)
                                     else if admitted then Reserved(at, count)
                                     else Done(RefusedByCounter(wait)))
  {
  }

  /** A stored swipe adds a row of its actor at the instant the clock was read; one that was there already and
      one that was rejected are told apart, and both owe their reservation. */
  lemma RecordExactly(s: State, id: CallId, at: nat, count: nat, recording: Recording)
    requires id in s.calls && s.calls[id].phase == Reserved(at, count)
    ensures var t := Step(s, Record(id, recording));
            && t.counters == s.counters && t.now == s.now && t.limit == s.limit
            && t.rows == (if recording == Stored then s.rows + [Row(s.calls[id].actor, at)] else s.rows)
            && t.calls == s.calls[id := Call(s.calls[id].actor,
                 if recording == Stored then Done(Created) else Owing(at, count, recording == Rejected))]
  {
  }

  /** A release that runs takes one unit back unless the counter is down to the count; it is reported with the
      reason it was owed for, and with whether its reply came. */
  lemma ReleaseExactly(s: State, id: CallId, at: nat, count: nat, failed: bool, delivery: Delivery)
    requires id in s.calls && s.calls[id].phase == Owing(at, count, failed)
    ensures var t := Step(s, Release(id, delivery));
            var k := Key(s.calls[id].actor, at / 86400);
            && t.rows == s.rows && t.now == s.now && t.limit == s.limit
            && t.counters == (if delivery != NotSent && k in s.counters && s.counters[k].value > count
                              then s.counters[k := Entry(s.counters[k].value - 1, s.counters[k].expiresAt)]
                              else s.counters)
            && t.calls == s.calls[id := Call(s.calls[id].actor,
                 Done(if failed then RecordFailed(delivery == Delivered) else Duplicate(delivery == Delivered)))]
  {
  }

  /** A crash ends a request where it stands; the clock only advances; a key goes only when it is evicted or has
      expired. */
  lemma OutsideExactly(s: State, id: CallId, actor: UserId, seconds: nat, k: Key)
    ensures Step(s, Begin(id, actor)) == (if id in s.calls then s
                                          else s.(calls := s.calls[id := Call(actor, Searching)]))
    ensures Step(s, Crash(id)) == (if id !in s.calls || s.calls[id].phase.Done? then s
                                   else s.(calls := s.calls[id := Call(s.calls[id].actor, Done(Crashed))]))
    ensures Step(s, Tick(seconds)) == s.(now := s.now + seconds)
    ensures Step(s, Evict(k)) == s.(counters := s.counters - {k})
    ensures Step(s, Expire(k)) == (if k in s.counters && s.counters[k].expiresAt <= s.now
                                   then s.(counters := s.counters - {k}) else s)
  {
  }

  // ----- the invariant -----

  predicate InFlightCall(c: Call, k: Key) {
    (c.phase.Reserved? || c.phase.Owing?) && KeyAt(c.actor, c.phase.at) == k
  }

  predicate WaitingCall(c: Call, k: Key) {
    c.phase.Counted? && KeyAt(c.actor, c.phase.at) == k
  }

  function InFlight(s: State, k: Key): set<CallId> {
    set id | id in s.calls && InFlightCall(s.calls[id], k)
  }

  /** The counter accounts for every row and every reservation still held. */
  predicate Covered(s: State, k: Key) {
    Current(Lookup(s.counters, k)) >= DayRows(s.rows, k) + |InFlight(s, k)|
  }

  /** Nothing is out that a lost counter could forget: every count still waiting is up to date,
      no request is about to store a row, and a release is only owed when the day is used up. */
  predicate SafeToLose(s: State, k: Key) {
    forall id <- s.calls ::
      && (WaitingCall(s.calls[id], k) ==> s.calls[id].phase.count >= DayRows(s.rows, k))
      && (InFlightCall(s.calls[id], k) ==> s.calls[id].phase.Owing? && DayRows(s.rows, k) >= s.limit)
  }

  /** A phase read the clock in the past, and counted fewer rows than the limit. */
  predicate PhaseOk(s: State, p: Phase) {
    && (p.Stamped? || p.Counted? || p.Reserved? || p.Owing? ==> p.at <= s.now)
    && (p.Counted? || p.Reserved? || p.Owing? ==> p.count < s.limit)
  }

  predicate WellFormed(s: State) {
    && s.limit >= 1
    && (forall r <- s.rows :: r.createdAt <= s.now)
    && (forall id <- s.calls :: PhaseOk(s, s.calls[id].phase))
  }

  predicate KeyInv(s: State, k: Key) {
    && Current(Lookup(s.counters, k)) <= s.limit
    && DayRows(s.rows, k) <= s.limit
    && (Covered(s, k) || SafeToLose(s, k))
  }

  ghost predicate Inv(s: State) {
    WellFormed(s) && forall k :: KeyInv(s, k)
  }

  /** Every key that is dropped along the run is one that is safe to lose at that moment. */
  predicate LossesSafe(s: State, events: seq<Event>)
    decreases |events|
  {
    events != [] ==>
      && (Drops(s, events[0]) ==> SafeToLose(s, events[0].key))
      && LossesSafe(Step(s, events[0]), events[1..])
  }

  predicate LossFree(events: seq<Event>) {
    forall e <- events :: !e.Expire? && !e.Evict?
  }

  // ----- helpers about the row counts and the reservations -----

  lemma {:induction false} CountCoversDay(rows: seq<Row>, k: Key)
    ensures CountSince(rows, k.actor, k.day * DAY) >= DayRows(rows, k)
  {
    if rows == [] {
    } else {
      CountCoversDay(rows[..|rows| - 1], k);
    }
  }

  /** The SQL count is the day's count exactly when no later row of that user is stored. */
  lemma {:induction false} CountIsDay(rows: seq<Row>, k: Key)
    ensures CountSince(rows, k.actor, k.day * DAY) == DayRows(rows, k)
       <==> forall r <- rows :: r.actor == k.actor ==> r.createdAt < (k.day + 1) * DAY
  {
    if rows == [] {
    } else {
      var init, last := rows[..|rows| - 1], rows[|rows| - 1];
      CountIsDay(init, k);
      CountCoversDay(init, k);
      assert rows == init + [last];
    }
  }

  lemma DayRowsAppend(rows: seq<Row>, r: Row, k: Key)
    ensures DayRows(rows + [r], k) == DayRows(rows, k) + if KeyAt(r.actor, r.createdAt) == k then 1 else 0
  {
    assert (rows + [r])[..|rows|] == rows;
  }

  lemma InFlightAfter(s: State, id: CallId, phase: Phase, k: Key)
    requires id in s.calls
    ensures var t := SetPhase(s, id, phase);
            |InFlight(t, k)| == |InFlight(s, k)|
                                - (if InFlightCall(s.calls[id], k) then 1 else 0)
                                + (if InFlightCall(t.calls[id], k) then 1 else 0)
  {
    var t := SetPhase(s, id, phase);
    var others := InFlight(s, k) - {id};
    assert InFlight(s, k) == if InFlightCall(s.calls[id], k) then others + {id} else others;
    assert InFlight(t, k) == if InFlightCall(t.calls[id], k) then others + {id} else others;
  }

  lemma {:induction false} RunAppend(s: State, a: seq<Event>, b: seq<Event>)
    ensures Run(s, a + b) == Run(Run(s, a), b)
    decreases |a|
  {
    if a == [] {
      assert a + b == b;
    } else {
      assert (a + b)[1..] == a[1..] + b;
      RunAppend(Step(s, a[0]), a[1..], b);
    }
  }

  lemma RunOne(s: State, e: Event)
    ensures Run(s, [e]) == Step(s, e)
  {
    assert [e][1..] == [];
    assert Run(Step(s, e), []) == Step(s, e);
  }

  lemma RunSnoc(s: State, events: seq<Event>, e: Event)
    ensures Run(s, events + [e]) == Step(Run(s, events), e)
  {
    RunAppend(s, events, [e]);
    RunOne(Run(s, events), e);
  }

  lemma {:induction false} LimitFixed(s: State, events: seq<Event>)
    ensures Run(s, events).limit == s.limit
    decreases |events|
  {
    if events == [] {
    } else {
      LimitFixed(Step(s, events[0]), events[1..]);
    }
  }

  // ----- every step keeps the invariant -----

  lemma CountKeeps(s: State, id: CallId, fails: bool, k: Key)
    requires WellFormed(s) && KeyInv(s, k)
    requires id in s.calls && s.calls[id].phase.Stamped?
    ensures KeyInv(StepCount(s, id, fails), k)
    ensures Covered(s, k) ==> Covered(StepCount(s, id, fails), k)
  {
    var t := StepCount(s, id, fails);
    InFlightAfter(s, id, t.calls[id].phase, k);
    CountCoversDay(s.rows, KeyAt(s.calls[id].actor, s.calls[id].phase.at));
    assert SafeToLose(s, k) ==> SafeToLose(t, k);
  }

  /** What a reservation does to one counter and its reservations, whatever becomes of the reply. */
  lemma ReserveEffect(s: State, id: CallId, delivery: Delivery, k: Key)
    requires id in s.calls && s.calls[id].phase.Counted? && s.calls[id].phase.count < s.limit
    requires Current(Lookup(s.counters, k)) <= s.limit
    ensures var t := StepReserve(s, id, delivery);
            var before, after := Current(Lookup(s.counters, k)), Current(Lookup(t.counters, k));
            && before <= after <= s.limit && t.rows == s.rows && t.limit == s.limit
            && (InFlightCall(t.calls[id], k) ==>
                  WaitingCall(s.calls[id], k) && after > before && after > s.calls[id].phase.count)
            && |InFlight(t, k)| == |InFlight(s, k)| + if InFlightCall(t.calls[id], k) then 1 else 0
  {
    var t := StepReserve(s, id, delivery);
    InFlightAfter(s, id, t.calls[id].phase, k);
    assert InFlight(t, k) == InFlight(SetPhase(s, id, t.calls[id].phase), k);
  }

  lemma ReserveKeeps(s: State, id: CallId, delivery: Delivery, k: Key)
    requires WellFormed(s) && KeyInv(s, k)
    requires id in s.calls && s.calls[id].phase.Counted?
    ensures KeyInv(StepReserve(s, id, delivery), k)
    ensures Covered(s, k) ==> Covered(StepReserve(s, id, delivery), k)
  {
    var t := StepReserve(s, id, delivery);
    assert PhaseOk(s, s.calls[id].phase);
    ReserveEffect(s, id, delivery, k);
    if SafeToLose(s, k) {
      if InFlightCall(t.calls[id], k) {
        assert DayRows(s.rows, k) < s.limit;
        assert InFlight(s, k) == {};
      } else {
        assert SafeToLose(t, k);
      }
    }
  }

  lemma StoreKeeps(s: State, id: CallId, k: Key)
    requires WellFormed(s) && KeyInv(s, k)
    requires id in s.calls && s.calls[id].phase.Reserved?
    ensures KeyInv(StepRecord(s, id, Stored), k)
    ensures Covered(s, k) ==> Covered(StepRecord(s, id, Stored), k)
  {
    var t := StepRecord(s, id, Stored);
    var r := Row(s.calls[id].actor, s.calls[id].phase.at);
    InFlightAfter(s, id, Done(Created), k);
    assert InFlight(t, k) == InFlight(SetPhase(s, id, Done(Created)), k);
    DayRowsAppend(s.rows, r, k);
    if InFlightCall(s.calls[id], k) {
      assert id in InFlight(s, k);
      assert Covered(s, k);
    } else {
      assert SafeToLose(s, k) ==> SafeToLose(t, k);
    }
  }

  lemma NotStoredKeeps(s: State, id: CallId, failed: bool, k: Key)
    requires WellFormed(s) && KeyInv(s, k)
    requires id in s.calls && s.calls[id].phase.Reserved?
    ensures KeyInv(StepRecord(s, id, if failed then Rejected else AlreadyThere), k)
    ensures Covered(s, k) ==> Covered(StepRecord(s, id, if failed then Rejected else AlreadyThere), k)
  {
    var t := StepRecord(s, id, if failed then Rejected else AlreadyThere);
    InFlightAfter(s, id, t.calls[id].phase, k);
    if InFlightCall(s.calls[id], k) {
      assert Covered(s, k);
    } else {
      assert SafeToLose(s, k) ==> SafeToLose(t, k);
    }
  }

  lemma RecordKeeps(s: State, id: CallId, recording: Recording, k: Key)
    requires WellFormed(s) && KeyInv(s, k)
    requires id in s.calls && s.calls[id].phase.Reserved?
    ensures KeyInv(StepRecord(s, id, recording), k)
    ensures Covered(s, k) ==> Covered(StepRecord(s, id, recording), k)
  {
    match recording
    case Stored => StoreKeeps(s, id, k);
    case AlreadyThere => NotStoredKeeps(s, id, false, k);
    case Rejected => NotStoredKeeps(s, id, true, k);
  }

  lemma ReleaseKeeps(s: State, id: CallId, delivery: Delivery, k: Key)
    requires WellFormed(s) && KeyInv(s, k)
    requires id in s.calls && s.calls[id].phase.Owing?
    ensures KeyInv(StepRelease(s, id, delivery), k)
    ensures Covered(s, k) ==> Covered(StepRelease(s, id, delivery), k)
  {
    var t := StepRelease(s, id, delivery);
    InFlightAfter(s, id, t.calls[id].phase, k);
    assert SafeToLose(s, k) ==> SafeToLose(t, k);
  }

  lemma QuietKeeps(s: State, id: CallId, phase: Phase, k: Key)
    requires KeyInv(s, k)
    requires id in s.calls && !phase.Counted? && !phase.Reserved? && !phase.Owing?
    ensures KeyInv(SetPhase(s, id, phase), k)
    ensures Covered(s, k) ==> Covered(SetPhase(s, id, phase), k)
  {
    InFlightAfter(s, id, phase, k);
    assert SafeToLose(s, k) ==> SafeToLose(SetPhase(s, id, phase), k);
  }

  lemma MoveWellFormed(s: State, id: CallId, phase: Phase)
    requires WellFormed(s) && id in s.calls && PhaseOk(s, phase)
    ensures WellFormed(SetPhase(s, id, phase))
  {
  }

  lemma RecordWellFormed(s: State, id: CallId, recording: Recording)
    requires WellFormed(s) && id in s.calls && s.calls[id].phase.Reserved?
    ensures WellFormed(StepRecord(s, id, recording))
  {
    assert PhaseOk(s, s.calls[id].phase);
    var t := StepRecord(s, id, recording);
    MoveWellFormed(s, id, t.calls[id].phase);
  }

  lemma StepWellFormed(s: State, e: Event)
    requires WellFormed(s)
    ensures WellFormed(Step(s, e))
  {
    var t := Step(s, e);
    if t != s {
      match e
      case Record(id, recording) => RecordWellFormed(s, id, recording);
      case Find(id, _) => MoveWellFormed(s, id, t.calls[id].phase);
      case Count(id, _) => MoveWellFormed(s, id, t.calls[id].phase);
      case Reserve(id, _) => MoveWellFormed(s, id, t.calls[id].phase);
      case Release(id, _) => MoveWellFormed(s, id, t.calls[id].phase);
      case Crash(id) => MoveWellFormed(s, id, t.calls[id].phase);
      case Begin(_, _) =>
      case Tick(_) =>
      case Expire(_) =>
      case Evict(_) =>
    }
  }

  /** A new request, the clock, and a key that Redis drops. */
  lemma OutsideKeeps(s: State, e: Event, k: Key)
    requires KeyInv(s, k) && (e.Begin? || e.Tick? || e.Expire? || e.Evict?)
    requires Drops(s, e) && e.key == k ==> SafeToLose(s, k)
    ensures KeyInv(Step(s, e), k)
    ensures Covered(s, k) && !Drops(s, e) ==> Covered(Step(s, e), k)
  {
    var t := Step(s, e);
    assert InFlight(t, k) == InFlight(s, k);
    assert SafeToLose(s, k) ==> SafeToLose(t, k);
  }

  lemma StepKeepsKey(s: State, e: Event, k: Key)
    requires WellFormed(s) && KeyInv(s, k)
    requires Drops(s, e) && e.key == k ==> SafeToLose(s, k)
    ensures KeyInv(Step(s, e), k)
    ensures Covered(s, k) && !Drops(s, e) ==> Covered(Step(s, e), k)
  {
    var t := Step(s, e);
    if t != s {
      match e
      case Find(id, search) => QuietKeeps(s, id, t.calls[id].phase, k);
      case Count(id, fails) => CountKeeps(s, id, fails, k);
      case Reserve(id, delivery) => ReserveKeeps(s, id, delivery, k);
      case Record(id, recording) => RecordKeeps(s, id, recording, k);
      case Release(id, delivery) => ReleaseKeeps(s, id, delivery, k);
      case Crash(id) => QuietKeeps(s, id, Done(Crashed), k);
      case _ => OutsideKeeps(s, e, k);
    }
  }

  lemma StepKeeps(s: State, e: Event)
    requires Inv(s)
    requires Drops(s, e) ==> SafeToLose(s, e.key)
    ensures Inv(Step(s, e))
  {
    StepWellFormed(s, e);
    forall k ensures KeyInv(Step(s, e), k) {
      assert KeyInv(s, k);
      StepKeepsKey(s, e, k);
    }
  }

  /** The budget theorem: whatever interleaving, staleness and crashes, as long as a key is only
      dropped when that is safe, no user's rows of a day exceed the limit, nor does the counter. */
  lemma {:induction false} BudgetKept(s: State, events: seq<Event>)
    requires Inv(s) && LossesSafe(s, events)
    ensures Inv(Run(s, events))
    decreases |events|
  {
    if events == [] {
    } else {
      StepKeeps(s, events[0]);
      BudgetKept(Step(s, events[0]), events[1..]);
    }
  }

  lemma InitInv(limit: nat, now: nat)
    requires limit >= 1
    ensures Inv(Init(limit, now))
  {
  }
}
