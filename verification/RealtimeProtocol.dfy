/** The client's single realtime connection: a state machine driven by callbacks that may come late.
    Tickets, sockets and timers that are under way belong to the environment; each event is one callback
    or one call of `start` or `stop`. */
module RealtimeProtocol {
  import opened Arithmetic
  import opened Wrappers

  type Id = nat

  datatype Status = Idle | Connecting | Open | Reconnecting | Closed

  /** One socket: the generation its handlers compare with, the ticket it was opened with, and whether
      its close callback has come. */
  datatype Connection = Connection(generation: nat, ticket: Id, closed: bool)

  /** `requests` are the tickets under way with the generation that asked; `timers` the pending ones, and
      `backoffs` the attempt each timer's delay was computed from.
      `delivered` lists the sockets whose events reached the application, `running` whether `start` was
      the last of `start` and `stop`. */
  datatype State = State(
    generation: nat,
    stopped: bool,
    attempt: nat,
    socket: Option<Id>,
    timer: Option<Id>,
    status: Status,
    requests: map<Id, nat>,
    connections: map<Id, Connection>,
    timers: set<Id>,
    backoffs: map<Id, nat>,
    next: Id,
    delivered: seq<Id>,
    running: bool)

  datatype Event =
    | Start
    | Stop
    | TicketIssued(request: Id)
    | TicketRefused(request: Id)
    | Opened(socket: Id)
    | Received(socket: Id, valid: bool)
    | Dropped(socket: Id)
    | Fired(timer: Id)

  const INIT := State(0, false, 0, None, None, Idle, map[], map[], {}, map[], 0, [], false)

  function Connect(s: State): State {
    if s.stopped then s
    else
      s.(generation := s.generation + 1,
         status := if s.attempt == 0 then Connecting else Reconnecting,
         requests := s.requests[s.next := s.generation + 1],
         next := s.next + 1)
  }

  function ScheduleReconnect(s: State): State {
    if s.stopped then s
    else
      s.(status := Reconnecting, attempt := s.attempt + 1,
         timer := Some(s.next), timers := s.timers + {s.next}, backoffs := s.backoffs[s.next := s.attempt],
         next := s.next + 1)
  }

  function StopNow(s: State): State {
    s.(stopped := true, generation := s.generation + 1,
       timers := if s.timer.Some? then s.timers - {s.timer.value} else s.timers, timer := None,
       socket := None, status := Closed, running := false)
  }

  function Attach(s: State, request: Id, generation: nat): State {
    if s.stopped || generation != s.generation then s
    else
      s.(connections := s.connections[s.next := Connection(generation, request, false)],
         socket := Some(s.next), next := s.next + 1)
  }

  /** A socket whose close callback has not come. */
  predicate Live(s: State, c: Id) {
    c in s.connections && !s.connections[c].closed
  }

  /** A live socket whose handlers still compare equal. */
  predicate Current(s: State, c: Id) {
    Live(s, c) && s.connections[c].generation == s.generation
  }

  /** An event that is not enabled leaves the state as it is. */
  function Step(s: State, e: Event): State {
    match e
    case Start => Connect(s.(stopped := false, running := true))
    case Stop => StopNow(s)
    case TicketIssued(r) =>
      if r !in s.requests then s else Attach(s.(requests := s.requests - {r}), r, s.requests[r])
    case TicketRefused(r) =>
      if r !in s.requests then s else ScheduleReconnect(s.(requests := s.requests - {r}))
    case Opened(c) =>
      if !Current(s, c) then s else s.(attempt := 0, status := Open)
    case Received(c, valid) =>
      if !Current(s, c) || !valid then s else s.(delivered := s.delivered + [c])
    case Dropped(c) =>
      if !Live(s, c) then s
      else
        var t := s.(connections := s.connections[c := s.connections[c].(closed := true)]);
        if !Current(s, c) then t else ScheduleReconnect(t.(socket := None))
    case Fired(timer) =>
      if timer !in s.timers then s else Connect(s.(timers := s.timers - {timer}, timer := None))
  }

  function Run(s: State, events: seq<Event>): State
    decreases |events|
  {
    if events == [] then s else Run(Step(s, events[0]), events[1..])
  }

  // ----- each call and callback, field by field -----

  /** A start raises the generation and asks for a ticket, whatever was under way. */
  lemma StartExactly(s: State)
    ensures Step(s, Start) ==
            s.(stopped := false, running := true, generation := s.generation + 1, next := s.next + 1,
               status := if s.attempt == 0 then Connecting else Reconnecting,
               requests := s.requests[s.next := s.generation + 1])
  {
  }

  /** A stop outdates every handler, gives the socket up and clears the remembered timer. */
  lemma StopExactly(s: State)
    ensures var t := Step(s, Stop);
            && t == s.(stopped := true, running := false, generation := s.generation + 1, status := Closed,
                       socket := None, timer := None, timers := t.timers)
            && (s.timer == None ==> t.timers == s.timers)
            && (s.timer != None ==> t.timers == s.timers - {s.timer.value})
  {
  }

  /** A ticket opens a socket if the client was neither stopped nor restarted since it was asked for. */
  lemma IssuedExactly(s: State, r: Id)
    requires r in s.requests
    ensures var t := Step(s, TicketIssued(r));
            && t.requests == s.requests - {r}
            && (s.stopped || s.requests[r] != s.generation ==> t == s.(requests := t.requests))
            && (!s.stopped && s.requests[r] == s.generation ==>
                  t == s.(requests := t.requests, socket := Some(s.next), next := s.next + 1,
                          connections := s.connections[s.next := Connection(s.generation, r, false)]))
  {
  }

  /** What schedules a reconnect counts the attempt and sets a timer for the attempt before, unless stopped. */
  predicate Schedules(s: State, t: State) {
    if s.stopped then t == s
    else t == s.(status := Reconnecting, attempt := s.attempt + 1, timer := Some(s.next), next := s.next + 1,
                 timers := s.timers + {s.next}, backoffs := s.backoffs[s.next := s.attempt])
  }

  /** A refusal always schedules a reconnect; the loss of a socket does while it is the current one; an outdated
      one is only closed. */
  lemma LossExactly(s: State, r: Id, c: Id)
    ensures r in s.requests ==> Schedules(s.(requests := s.requests - {r}), Step(s, TicketRefused(r)))
    ensures c in s.connections && !s.connections[c].closed ==>
              var closed := s.(connections := s.connections[c := s.connections[c].(closed := true)]);
              && (s.connections[c].generation == s.generation ==>
                    Schedules(closed.(socket := None), Step(s, Dropped(c))))
              && (s.connections[c].generation != s.generation ==> Step(s, Dropped(c)) == closed)
  {
  }

  /** A current socket that opens resets the attempts; one that receives hands a well-formed event on, and
      nothing else; an outdated or closed one does neither. */
  lemma SocketExactly(s: State, c: Id, valid: bool)
    ensures var current := c in s.connections && !s.connections[c].closed
                           && s.connections[c].generation == s.generation;
            && Step(s, Opened(c)) == (if current then s.(attempt := 0, status := Open) else s)
            && Step(s, Received(c, valid)) ==
                 (if current && valid == true then s.(delivered := s.delivered + [c]) else s)
  {
  }

  /** A timer that fires is used up and begins the next connect, unless stopped. */
  lemma FiredExactly(s: State, timer: Id)
    requires timer in s.timers
    ensures Step(s, Fired(timer)) ==
            if s.stopped then s.(timers := s.timers - {timer}, timer := None)
            else s.(timers := s.timers - {timer}, timer := None, generation := s.generation + 1, next := s.next + 1,
                    status := if s.attempt == 0 then Connecting else Reconnecting,
                    requests := s.requests[s.next := s.generation + 1])
  {
  }

  // ----- the one thing under way -----

  /** Ticket requests whose answer still counts. */
  function Awaited(s: State): set<Id> {
    set r | r in s.requests && s.requests[r] == s.generation
  }

  /** A ticket request that was overtaken by a stop or another connect. */
  predicate Stale(s: State, request: Id) {
    request in s.requests && s.requests[request] != s.generation
  }

  function Underway(s: State): nat {
    |Awaited(s)| + (if s.socket.Some? then 1 else 0) + |s.timers|
  }

  /** While running exactly one of a ticket request, a socket and a timer; otherwise none. */
  predicate Exclusive(s: State) {
    Underway(s) == if s.running then 1 else 0
  }

  /** The owned socket is the one current socket, and the known timer the one pending. */
  predicate Tidy(s: State) {
    && (forall r <- s.requests :: r < s.next && s.requests[r] <= s.generation)
    && (forall t <- s.timers :: t < s.next && s.timer == Some(t))
    && (forall c <- s.connections :: c < s.next && s.connections[c].generation <= s.generation)
    && (forall c <- s.connections :: Current(s, c) ==> s.socket == Some(c))
    && (s.socket.Some? ==> Current(s, s.socket.value))
    && (s.running ==> !s.stopped)
    && (!s.running && !s.stopped ==> s.requests == map[])
  }

  predicate Inv(s: State) {
    Tidy(s) && Exclusive(s)
  }

  /** The two events that give a running client a second thing under way: a `start` while a socket or a
      timer is, and the refusal of a ticket that was overtaken, for that callback schedules a reconnect
      without comparing generations. */
  predicate Doubles(s: State, e: Event) {
    s.running && ((e.Start? && Awaited(s) == {}) || (e.TicketRefused? && Stale(s, e.request)))
  }

  lemma AwaitedAfterConnect(s: State)
    requires Tidy(s)
    ensures Awaited(s.(generation := s.generation + 1)) == {}
    ensures !s.stopped ==> Awaited(Connect(s)) == {s.next}
  {
  }

  lemma OnlyOne(a: set<Id>, x: Id)
    requires x in a && |a| <= 1
    ensures a == {x}
  {
    assert |a - {x}| == |a| - 1;
  }

  lemma StartExact(s: State)
    requires Inv(s)
    ensures Inv(Step(s, Start)) <==> !Doubles(s, Start)
  {
    var t := Step(s, Start);
    assert Awaited(t) == {s.next} by {
      assert forall r <- s.requests :: s.requests[r] <= s.generation;
    }
    if Awaited(s) != {} {
      assert |Awaited(s)| >= 1;
    }
  }

  lemma StopKeeps(s: State)
    requires Inv(s)
    ensures Inv(Step(s, Stop)) && Underway(Step(s, Stop)) == 0
  {
    AwaitedAfterConnect(s);
    var t := Step(s, Stop);
    assert Awaited(t) == {};
    assert t.timers == {};
  }

  lemma IssuedKeeps(s: State, r: Id)
    requires Inv(s) && r in s.requests
    ensures Inv(Step(s, TicketIssued(r)))
  {
    var t := Step(s, TicketIssued(r));
    if s.requests[r] == s.generation {
      OnlyOne(Awaited(s), r);
      assert Awaited(t) == {};
    } else {
      assert Awaited(t) == Awaited(s);
    }
  }

  lemma RefusedExact(s: State, r: Id)
    requires Inv(s) && r in s.requests
    ensures Inv(Step(s, TicketRefused(r))) <==> !Doubles(s, TicketRefused(r))
  {
    var t := Step(s, TicketRefused(r));
    if s.requests[r] == s.generation {
      OnlyOne(Awaited(s), r);
      assert Awaited(t) == {};
    } else {
      assert Awaited(t) == Awaited(s);
      assert s.next !in s.timers;
    }
  }

  lemma OldDroppedKeeps(s: State, c: Id)
    requires Inv(s) && Live(s, c) && !Current(s, c)
    ensures Inv(Step(s, Dropped(c)))
  {
    var t := Step(s, Dropped(c));
    assert t == s.(connections := t.connections);
    assert Awaited(t) == Awaited(s);
  }

  lemma OwnedDroppedKeeps(s: State, c: Id)
    requires Inv(s) && Current(s, c)
    ensures Inv(Step(s, Dropped(c)))
  {
    var t := Step(s, Dropped(c));
    assert s.socket == Some(c);
    assert s.timers == {} && Awaited(s) == {};
    assert Awaited(t) == {};
    if !s.stopped {
      assert t.timers == {s.next};
    }
  }

  lemma FiredKeeps(s: State, timer: Id)
    requires Inv(s) && timer in s.timers
    ensures Inv(Step(s, Fired(timer)))
  {
    OnlyOne(s.timers, timer);
    var u := s.(timers := s.timers - {timer}, timer := None);
    AwaitedAfterConnect(u);
    assert u.timers == {};
  }

  /** All is well after an event exactly unless it is one of the two that double. */
  lemma StepExact(s: State, e: Event)
    requires Inv(s)
    ensures Inv(Step(s, e)) <==> !Doubles(s, e)
  {
    match e
    case Start => StartExact(s);
    case Stop => StopKeeps(s);
    case TicketIssued(r) => if r in s.requests { IssuedKeeps(s, r); }
    case TicketRefused(r) => if r in s.requests { RefusedExact(s, r); }
    case Dropped(c) => if Current(s, c) { OwnedDroppedKeeps(s, c); } else if Live(s, c) { OldDroppedKeeps(s, c); }
    case Fired(timer) => if timer in s.timers { FiredKeeps(s, timer); }
    case Opened(_) => assert Awaited(Step(s, e)) == Awaited(s);
    case Received(_, _) => assert Awaited(Step(s, e)) == Awaited(s);
  }

  predicate Throughout(s: State, events: seq<Event>)
    decreases |events|
  {
    Inv(s) && (events != [] ==> Throughout(Step(s, events[0]), events[1..]))
  }

  predicate NeverDoubles(s: State, events: seq<Event>)
    decreases |events|
  {
    events != [] ==> !Doubles(s, events[0]) && NeverDoubles(Step(s, events[0]), events[1..])
  }

  /** Over whole runs, with any number of starts and stops. */
  lemma {:induction false} RunExact(s: State, events: seq<Event>)
    requires Inv(s)
    ensures Throughout(s, events) <==> NeverDoubles(s, events)
    decreases |events|
  {
    if events == [] {
    } else {
      StepExact(s, events[0]);
      if Inv(Step(s, events[0])) {
        RunExact(Step(s, events[0]), events[1..]);
      }
    }
  }

  // ----- one start -----

  function Starts(events: seq<Event>): nat {
    if events == [] then 0 else (if events[0].Start? then 1 else 0) + Starts(events[1..])
  }

  /** A running client has no overtaken request; a start still to come finds no request at all. */
  predicate OnceReady(s: State, starts: nat) {
    && (s.running ==> forall r <- s.requests :: s.requests[r] == s.generation)
    && (starts > 0 ==> starts == 1 && !s.running && s.requests == map[])
  }

  lemma OnceStep(s: State, e: Event, starts: nat)
    requires Inv(s) && OnceReady(s, starts + if e.Start? then 1 else 0)
    ensures !Doubles(s, e) && OnceReady(Step(s, e), starts)
  {
    if e.Fired? && e.timer in s.timers && s.running {
      OnlyOne(s.timers, e.timer);
      assert forall r <- s.requests :: r in Awaited(s);
    }
  }

  lemma {:induction false} OnceNeverDoubles(s: State, events: seq<Event>)
    requires Inv(s) && OnceReady(s, Starts(events))
    ensures NeverDoubles(s, events)
    decreases |events|
  {
    if events == [] {
    } else {
      OnceStep(s, events[0], Starts(events[1..]));
      StepExact(s, events[0]);
      OnceNeverDoubles(Step(s, events[0]), events[1..]);
    }
  }

  lemma InitInv()
    ensures Inv(INIT)
  {
    assert Awaited(INIT) == {};
  }

  /** With a single start, a running client has exactly one thing under way after every event. */
  lemma SingleStart(events: seq<Event>)
    requires Starts(events) <= 1
    ensures Throughout(INIT, events)
  {
    InitInv();
    OnceNeverDoubles(INIT, events);
    RunExact(INIT, events);
  }

  // ----- stopped, after any number of starts -----

  /** No request or socket is of a later generation than the client, and none that a stopped client could
      still listen to is of its own; a stopped client owns no socket. */
  predicate Aged(s: State) {
    && (forall r <- s.requests :: s.requests[r] <= s.generation)
    && (forall c <- s.connections :: s.connections[c].generation <= s.generation)
    && (s.stopped ==>
          && s.socket.None?
          && (forall r <- s.requests :: s.requests[r] < s.generation)
          && (forall c <- s.connections :: s.connections[c].generation < s.generation))
  }

  lemma AgedStep(s: State, e: Event)
    requires Aged(s)
    ensures Aged(Step(s, e))
  {
  }

  lemma {:induction false} AgedRun(s: State, events: seq<Event>)
    requires Aged(s)
    ensures Aged(Run(s, events))
    decreases |events|
  {
    if events == [] {
    } else {
      AgedStep(s, events[0]);
      AgedRun(Step(s, events[0]), events[1..]);
    }
  }

  lemma StoppedStep(s: State, e: Event)
    requires Aged(s) && s.stopped && !e.Start?
    ensures var t := Step(s, e); t.stopped && t.delivered == s.delivered && t.timers <= s.timers
  {
  }

  lemma SubsetSize(a: set<Id>, b: set<Id>)
    requires a <= b
    ensures |a| <= |b|
  {
    if a == {} {
    } else {
      var x :| x in a;
      SubsetSize(a - {x}, b - {x});
    }
  }

  /** What is under way for a stopped client: timers it forgot, and nothing else. */
  lemma StoppedUnderway(s: State)
    requires Aged(s) && s.stopped
    ensures Underway(s) == |s.timers|
  {
    assert Awaited(s) == {};
  }

  /** Once stopped and not started again, nothing is delivered, no ticket is awaited, no socket is owned and
      no timer is added, whatever callbacks still come and however often the client was restarted before. */
  lemma {:induction false} StoppedStaysQuiet(s: State, events: seq<Event>)
    requires Aged(s) && s.stopped && Starts(events) == 0
    ensures var t := Run(s, events);
            && t.stopped && t.delivered == s.delivered
            && t.socket.None? && Awaited(t) == {} && t.timers <= s.timers && Underway(t) <= Underway(s)
    ensures Inv(s) ==> Throughout(s, events)
    decreases |events|
  {
    StoppedUnderway(s);
    if events == [] {
      assert Awaited(s) == {};
    } else {
      var t := Step(s, events[0]);
      AgedStep(s, events[0]);
      StoppedStep(s, events[0]);
      StoppedUnderway(t);
      SubsetSize(t.timers, s.timers);
      if Inv(s) {
        StepExact(s, events[0]);
      }
      StoppedStaysQuiet(t, events[1..]);
    }
  }

  /** The only pending timer is the one the client remembers. */
  predicate OnlyRemembered(s: State) {
    forall t <- s.timers :: s.timer == Some(t)
  }

  /** In every reachable state, however often the client was started: a stop leaves nothing under way if and
      only if the remembered timer is the only one, for it clears no other. Nothing is delivered after it
      either way, and what it leaves can only dwindle until the next start. */
  lemma StopExact(before: seq<Event>, later: seq<Event>)
    requires Starts(later) == 0
    ensures var s := Run(INIT, before);
            var t := Step(s, Stop);
            && (Underway(t) == 0 <==> OnlyRemembered(s))
            && (OnlyRemembered(s) ==> Underway(Run(t, later)) == 0)
            && Underway(Run(t, later)) <= Underway(t)
            && Run(t, later).delivered == s.delivered
  {
    AgedRun(INIT, before);
    var s := Run(INIT, before);
    AgedStep(s, Stop);
    StoppedUnderway(Step(s, Stop));
    assert OnlyRemembered(s) <==> Step(s, Stop).timers == {};
    StoppedStaysQuiet(Step(s, Stop), later);
  }

  /** In particular when all was well before the stop. */
  lemma StopAfterInv(s: State)
    requires Inv(s)
    ensures OnlyRemembered(s) && Aged(Step(s, Stop)) && Underway(Step(s, Stop)) == 0
  {
    StopKeeps(s);
  }

  lemma RunThree(s: State, a: Event, b: Event, c: Event)
    ensures Run(s, [a, b, c]) == Step(Step(Step(s, a), b), c)
  {
    assert [a, b, c][1..] == [b, c];
    assert Run(s, [a, b, c]) == Run(Step(s, a), [b, c]);
    assert Run(Step(s, a), [b, c]) == Run(Step(Step(s, a), b), [c]) by {
      assert [b, c][1..] == [c];
    }
    assert Run(Step(Step(s, a), b), [c]) == Step(Step(Step(s, a), b), c) by {
      assert [c][1..] == [];
    }
  }

  /** Started, stopped and started again before either ticket came. */
  const RESTARTED := State(3, false, 0, None, None, Connecting, map[0 := 1, 1 := 3], map[], {}, map[], 2, [], true)

  lemma {:induction false} RunAppend(s: State, a: seq<Event>, b: seq<Event>)
    ensures Run(s, a + b) == Run(Run(s, a), b)
    decreases |a|
  {
    if a == [] {
      assert a + b == b;
    } else {
      assert (a + b)[1..] == a[1..] + b;
      RunAppend(Step(s, a[0]), a[1..], b);
    }
  }

  /** A client started twice with a stop between, whose first ticket is refused late, waits for its second
      ticket and a reconnect timer at once. */
  lemma RestartDoubles()
    ensures Run(INIT, [Start, Stop, Start]) == RESTARTED
    ensures Underway(Run(INIT, [Start, Stop, Start, TicketRefused(0)])) == 2
  {
    RunThree(INIT, Start, Stop, Start);
    RunAppend(INIT, [Start, Stop, Start], [TicketRefused(0)]);
    assert [Start, Stop, Start] + [TicketRefused(0)] == [Start, Stop, Start, TicketRefused(0)];
    assert [TicketRefused(0)][1..] == [];
    var t := Step(RESTARTED, TicketRefused(0));
    assert Run(t, []) == t;
    assert t.requests == map[1 := 3];
    assert Awaited(t) == {1} && t.timers == {2};
  }

  /** When the second ticket is refused too, the first of two timers is forgotten: the stop that follows
      leaves it pending, and after a further start it is under way beside that start's ticket request. */
  lemma StopForgetsTimer()
    ensures var t := Run(RESTARTED, [TicketRefused(0), TicketRefused(1), Stop]);
            && t.stopped && t.timers == {2} && Underway(t) == 1
            && Underway(Step(t, Start)) == 2
  {
    RunThree(RESTARTED, TicketRefused(0), TicketRefused(1), Stop);
    var t := Run(RESTARTED, [TicketRefused(0), TicketRefused(1), Stop]);
    assert t.requests == map[] && t.timers == {2} && t.generation == 4;
    assert Awaited(t) == {};
    assert Step(t, Start).requests == map[4 := 5];
    assert Awaited(Step(t, Start)) == {4};
  }

  // ----- what holds in every run, however often it was started -----

  /** No ticket was offered to two sockets, and none that is still asked for was offered. */
  predicate TicketsOnce(s: State) {
    && (forall r <- s.requests :: r < s.next)
    && (forall c <- s.connections ::
          c < s.next && s.connections[c].ticket < s.next && s.connections[c].ticket !in s.requests)
    && (forall a, b | a in s.connections && b in s.connections && a != b ::
          s.connections[a].ticket != s.connections[b].ticket)
  }

  lemma AttachOnce(s: State, r: Id)
    requires TicketsOnce(s) && r in s.requests
    ensures TicketsOnce(Attach(s.(requests := s.requests - {r}), r, s.requests[r]))
  {
  }

  lemma ConnectOnce(s: State)
    requires TicketsOnce(s)
    ensures TicketsOnce(Connect(s))
  {
  }

  lemma ScheduleOnce(s: State)
    requires TicketsOnce(s)
    ensures TicketsOnce(ScheduleReconnect(s))
  {
  }

  lemma ClosedOnce(s: State, c: Id)
    requires TicketsOnce(s) && Live(s, c)
    ensures TicketsOnce(s.(connections := s.connections[c := s.connections[c].(closed := true)]))
  {
  }

  lemma DroppedOnce(s: State, c: Id)
    requires TicketsOnce(s) && Live(s, c)
    ensures TicketsOnce(Step(s, Dropped(c)))
  {
    ClosedOnce(s, c);
    var t := s.(connections := s.connections[c := s.connections[c].(closed := true)]);
    if Current(s, c) {
      ScheduleOnce(t.(socket := None));
    }
  }

  lemma TicketsOnceStep(s: State, e: Event)
    requires TicketsOnce(s)
    ensures TicketsOnce(Step(s, e))
  {
    match e
    case Start => ConnectOnce(s.(stopped := false, running := true));
    case TicketIssued(r) => if r in s.requests { AttachOnce(s, r); }
    case TicketRefused(r) => if r in s.requests { ScheduleOnce(s.(requests := s.requests - {r})); }
    case Dropped(c) =>
      if Live(s, c) {
        DroppedOnce(s, c);
      }
    case Fired(timer) =>
      if timer in s.timers {
        ConnectOnce(s.(timers := s.timers - {timer}, timer := None));
      }
    case _ =>
  }

  lemma {:induction false} NoTicketTwice(s: State, events: seq<Event>)
    requires TicketsOnce(s)
    ensures TicketsOnce(Run(s, events))
    decreases |events|
  {
    if events == [] {
    } else {
      TicketsOnceStep(s, events[0]);
      NoTicketTwice(Step(s, events[0]), events[1..]);
    }
  }

  predicate Outdated(s: State, c: Id) {
    c in s.connections && c < s.next && s.connections[c].generation < s.generation
  }

  lemma OutdatedStep(s: State, c: Id, e: Event)
    requires Outdated(s, c)
    ensures Outdated(Step(s, e), c)
    ensures Step(s, e).delivered == s.delivered
            || (e.Received? && e.socket != c && Step(s, e).delivered == s.delivered + [e.socket])
  {
  }

  /** A socket of an older generation delivers nothing more, whatever comes. */
  lemma {:induction false} OldSocketSilent(s: State, c: Id, events: seq<Event>)
    requires Outdated(s, c)
    ensures multiset(Run(s, events).delivered)[c] == multiset(s.delivered)[c]
    decreases |events|
  {
    if events == [] {
    } else {
      OutdatedStep(s, c, events[0]);
      OldSocketSilent(Step(s, events[0]), c, events[1..]);
    }
  }

  /** While all is well, an event is delivered only from the socket the client owns, and none after it has
      been dropped or stopped. */
  lemma DeliversFromOwned(s: State, e: Event)
    requires Inv(s)
    ensures Step(s, e).delivered == s.delivered
            || (s.running && s.socket.Some? && Step(s, e).delivered == s.delivered + [s.socket.value])
  {
    if e.Received? && Current(s, e.socket) {
      assert s.socket == Some(e.socket);
    }
  }

  // ----- the delay before a reconnect -----

  const BASE_RECONNECT_DELAY_MS := 500
  const MAX_RECONNECT_DELAY_MS := 30000

  function Ceiling(attempt: nat): nat {
    Min(MAX_RECONNECT_DELAY_MS, BASE_RECONNECT_DELAY_MS * Power2(attempt))
  }

  /** `Math.round`: halves go up. */
  function Round(x: real): int {
    (x + 0.5).Floor
  }

  function Jitter(ceiling: nat, random: real): int {
    Round(ceiling as real * (0.5 + random * 0.5))
  }

  function ReconnectDelay(attempt: nat, random: real): int {
    Jitter(Ceiling(attempt), random)
  }

  lemma {:induction false} Power2Grows(attempt: nat)
    ensures attempt <= 5 ==> Power2(attempt) <= 32
    ensures attempt >= 6 ==> Power2(attempt) >= 64
  {
    if attempt >= 7 {
      Power2Grows(attempt - 1);
    } else {
      assert Power2(0) == 1 && Power2(1) == 2 && Power2(2) == 4 && Power2(3) == 8;
      assert Power2(4) == 16 && Power2(5) == 32 && Power2(6) == 64;
    }
  }

  /** The ceiling doubles until it meets the maximum, which it does at the sixth retry. */
  lemma CeilingDoubles(attempt: nat)
    ensures Ceiling(attempt + 1) == Min(MAX_RECONNECT_DELAY_MS, 2 * Ceiling(attempt))
    ensures Ceiling(attempt) == MAX_RECONNECT_DELAY_MS <==> attempt >= 6
    ensures Ceiling(attempt) > 0 && Ceiling(attempt) % 2 == 0
    ensures Ceiling(0) == 500 && (attempt >= 6 ==> Ceiling(attempt) == 30000)
  {
    Power2Grows(attempt);
  }

  lemma RoundStays(lo: int, x: real, hi: int)
    requires lo as real <= x <= hi as real
    ensures lo <= Round(x) <= hi
  {
    assert x + 0.5 < (hi + 1) as real;
  }

  lemma Scaled(a: real, b: real, c: real)
    requires c > 0.0
    ensures a < b <==> a * c < b * c
  {
    var difference := (b - a) * c;
    assert b * c - a * c == difference;
    if b - a > 0.0 {
      assert difference > 0.0;
    } else if b - a < 0.0 {
      assert difference < 0.0;
    }
  }

  lemma Between(random: real, c: real, product: real)
    requires 0.0 <= random < 1.0 && c >= 0.0 && product == random * c
    ensures 0.0 <= product <= c
  {
    if c > 0.0 {
      Scaled(random, 0.0, c);
      Scaled(random, 1.0, c);
      assert 0.0 * c == 0.0;
      assert 1.0 * c == c;
    } else {
      assert random * 0.0 == 0.0;
    }
  }

  lemma Distribute(c: real, random: real, product: real)
    requires product == random * c
    ensures c * (0.5 + random * 0.5) == c * 0.5 + product * 0.5
  {
  }

  lemma JitterWithin(ceiling: nat, random: real)
    requires ceiling % 2 == 0 && 0.0 <= random < 1.0
    ensures ceiling / 2 <= Jitter(ceiling, random) <= ceiling
  {
    var c := ceiling as real;
    var product := random * c;
    Between(random, c, product);
    Distribute(c, random, product);
    assert (2 * (ceiling / 2)) as real == c;
    RoundStays(ceiling / 2, c * (0.5 + random * 0.5), ceiling);
  }

  /** The random number that lands the product on `x`. */
  lemma JitterSolves(c: real, x: real) returns (random: real)
    requires c > 0.0 && c * 0.5 <= x < c
    ensures 0.0 <= random < 1.0 && c * (0.5 + random * 0.5) == x
  {
    var share := x / c;
    assert share * c == x;
    Scaled(share, 0.5, c);
    Scaled(share, 1.0, c);
    random := share * 2.0 - 1.0;
    assert 0.5 + random * 0.5 == share;
  }

  lemma JitterReached(ceiling: nat, delay: int) returns (random: real)
    requires ceiling > 0 && ceiling % 2 == 0 && ceiling / 2 <= delay <= ceiling
    ensures 0.0 <= random < 1.0 && Jitter(ceiling, random) == delay
  {
    var c := ceiling as real;
    var x := if delay == ceiling then c - 0.25 else delay as real;
    random := JitterSolves(c, x);
  }

  /** The delay is any whole number of milliseconds from half the ceiling up to the ceiling, and no other. */
  lemma DelayExactly(attempt: nat, delay: int)
    ensures (exists random: real :: 0.0 <= random < 1.0 && ReconnectDelay(attempt, random) == delay)
            <==> Ceiling(attempt) / 2 <= delay <= Ceiling(attempt)
  {
    CeilingDoubles(attempt);
    forall random: real | 0.0 <= random < 1.0 && ReconnectDelay(attempt, random) == delay
      ensures Ceiling(attempt) / 2 <= delay <= Ceiling(attempt)
    {
      JitterWithin(Ceiling(attempt), random);
    }
    if Ceiling(attempt) / 2 <= delay <= Ceiling(attempt) {
      var random := JitterReached(Ceiling(attempt), delay);
      assert ReconnectDelay(attempt, random) == delay;
    }
  }
}
