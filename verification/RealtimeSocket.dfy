/** The client class itself, its fields updated by calls and callbacks. */
module RealtimeSocket {
  import opened Wrappers
  import opened RealtimeProtocol

  class Client {
    var socket: Option<Id>
    var reconnectAttempt: nat
    var reconnectTimer: Option<Id>
    var stopped: bool
    var status: Status
    var generation: nat

    // What the browser holds for this client: promises, sockets and timers, with what was captured.
    var requests: map<Id, nat>
    var connections: map<Id, Connection>
    var timers: set<Id>
    var backoffs: map<Id, nat>
    var next: Id
    // What the application has been handed.
    var delivered: seq<Id>
    ghost var running: bool

    ghost function View(): State
      reads this
    {
      State(generation, stopped, reconnectAttempt, socket, reconnectTimer, status, requests, connections, timers,
            backoffs, next, delivered, running)
    }

    constructor ()
      ensures View() == INIT
    {
      socket, reconnectAttempt, reconnectTimer := None, 0, None;
      stopped, status, generation := false, Idle, 0;
      requests, connections, timers, backoffs, next := map[], map[], {}, map[], 0;
      delivered, running := [], false;
    }

    method Start()
      modifies this
      ensures View() == Step(old(View()), Event.Start)
    {
      running := true;
      stopped := false;
      BeginConnect();
    }

    method Stop()
      modifies this
      ensures View() == Step(old(View()), Event.Stop)
    {
      running := false;
      stopped := true;
      generation := generation + 1;
      if reconnectTimer.Some? {
        timers := timers - {reconnectTimer.value};
        reconnectTimer := None;
      }
      socket := None;
      status := Closed;
    }

    /** `connect` up to its wait for the ticket. */
    method BeginConnect()
      modifies this
      ensures View() == Connect(old(View()))
    {
      if stopped {
        return;
      }
      generation := generation + 1;
      status := if reconnectAttempt == 0 then Connecting else Reconnecting;
      requests := requests[next := generation];
      next := next + 1;
    }

    /** `connect` from where its ticket has come, with the generation it captured. */
    method OnTicket(request: Id)
      requires request in requests
      modifies this
      ensures View() == Step(old(View()), TicketIssued(request))
    {
      var captured := requests[request];
      requests := requests - {request};
      if stopped || captured != generation {
        return;
      }
      connections := connections[next := Connection(captured, request, false)];
      socket := Some(next);
      next := next + 1;
    }

    /** The catch branch of `connect`. */
    method OnRefusal(request: Id)
      requires request in requests
      modifies this
      ensures View() == Step(old(View()), TicketRefused(request))
    {
      requests := requests - {request};
      ScheduleReconnect();
    }

    method OnOpen(c: Id)
      requires c in connections && !connections[c].closed
      modifies this
      ensures View() == Step(old(View()), Opened(c))
    {
      if connections[c].generation != generation {
        return;
      }
      reconnectAttempt := 0;
      status := Open;
    }

    method OnMessage(c: Id, valid: bool)
      requires c in connections && !connections[c].closed
      modifies this
      ensures View() == Step(old(View()), Received(c, valid))
    {
      if connections[c].generation != generation {
        return;
      }
      if valid {
        delivered := delivered + [c];
      }
    }

    method OnClose(c: Id)
      requires c in connections && !connections[c].closed
      modifies this
      ensures View() == Step(old(View()), Dropped(c))
    {
      connections := connections[c := connections[c].(closed := true)];
      if connections[c].generation != generation {
        return;
      }
      socket := None;
      ScheduleReconnect();
    }

    method OnTimer(timer: Id)
      requires timer in timers
      modifies this
      ensures View() == Step(old(View()), Fired(timer))
    {
      timers := timers - {timer};
      reconnectTimer := None;
      BeginConnect();
    }

    method ScheduleReconnect()
      modifies this
      ensures View() == RealtimeProtocol.ScheduleReconnect(old(View()))
    {
      if stopped {
        return;
      }
      status := Reconnecting;
      backoffs := backoffs[next := reconnectAttempt];
      reconnectAttempt := reconnectAttempt + 1;
      reconnectTimer := Some(next);
      timers := timers + {next};
      next := next + 1;
    }
  }
}
