/** The failed-attempt limiter of one scope: attempts within a window, violations remembered for a
    day, and a lockout that doubles with each remembered violation. Times are whole seconds; a key
    written with a lifetime is gone from the moment it ends. */
module Lockout {
  import opened Arithmetic
  import opened Wrappers

  const MEMORY := 86400

  /** The settings of the limiter; the program uses 900, 5, 300 and 3600. */
  datatype Settings = Settings(window: nat, maxAttempts: nat, base: nat, most: nat)

  predicate Sound(p: Settings) {
    p.window >= 1 && p.maxAttempts >= 1 && p.base >= 1 && p.most >= 1
  }

  const PROGRAM := Settings(900, 5, 300, 3600)

  datatype Counter = Counter(value: nat, expiresAt: int)

  /** `log` remembers each lockout applied: when, and for how long. */
  datatype Lock = Lock(at: int, seconds: nat)
  datatype State = State(
    now: int, attempts: Option<Counter>, lockedUntil: Option<int>, violations: Option<Counter>, log: seq<Lock>)

  datatype Event = Fail(wait: nat) | Reset(wait: nat)

  /** What the k-th remembered violation locks for. */
  function Duration(p: Settings, k: nat): nat
    requires k >= 1
  {
    Min(p.base * Power2(k - 1), p.most)
  }

  function Value(c: Option<Counter>, now: int): nat {
    if c.Some? && now < c.value.expiresAt then c.value.value else 0
  }

  function Failure(p: Settings, s: State): State {
    var attempts := Value(s.attempts, s.now) + 1;
    if attempts < p.maxAttempts then
      s.(attempts := Some(Counter(attempts, if attempts == 1 then s.now + p.window else s.attempts.value.expiresAt)))
    else
      var k := Value(s.violations, s.now) + 1;
      var seconds := Duration(p, k);
      State(s.now, None, Some(s.now + seconds), Some(Counter(k, s.now + MEMORY)), s.log + [Lock(s.now, seconds)])
  }

  function Step(p: Settings, s: State, e: Event): State {
    var later := s.(now := s.now + e.wait);
    if e.Fail? then Failure(p, later) else later.(attempts := None, lockedUntil := None)
  }

  function Run(p: Settings, s: State, events: seq<Event>): State
    decreases |events|
  {
    if events == [] then s else Run(p, Step(p, s, events[0]), events[1..])
  }

  function Init(now: int): State {
    State(now, None, None, None, [])
  }

  /** How many lockouts in a row, up to the last one, each followed within the memory of the one before. */
  function Chain(log: seq<Lock>): nat {
    if log == [] then 0
    else if |log| == 1 || log[|log| - 1].at >= log[|log| - 2].at + MEMORY then 1
    else 1 + Chain(log[..|log| - 1])
  }

  /** Each lockout in the log is the one its place in its chain calls for. */
  predicate LogExact(p: Settings, log: seq<Lock>)
    decreases |log|
  {
    log != [] ==>
      && Chain(log) >= 1 && log[|log| - 1].seconds == Duration(p, Chain(log))
      && LogExact(p, log[..|log| - 1])
  }

  predicate Inv(p: Settings, s: State) {
    && (s.attempts.Some? ==> 1 <= s.attempts.value.value < p.maxAttempts)
    && (s.log == [] ==> s.violations.None? && s.lockedUntil.None?)
    && (s.log != [] ==>
          var last := s.log[|s.log| - 1];
          && last.at <= s.now
          && s.violations == Some(Counter(Chain(s.log), last.at + MEMORY))
          && (s.lockedUntil.Some? ==> s.lockedUntil.value == last.at + last.seconds))
    && LogExact(p, s.log)
  }

  lemma {:induction false} LogAt(p: Settings, log: seq<Lock>, i: nat)
    requires LogExact(p, log) && i < |log|
    ensures Chain(log[..i + 1]) >= 1 && log[i].seconds == Duration(p, Chain(log[..i + 1]))
    decreases |log|
  {
    if i == |log| - 1 {
      assert log[..i + 1] == log;
    } else {
      LogAt(p, log[..|log| - 1], i);
      assert log[..|log| - 1][..i + 1] == log[..i + 1];
    }
  }

  lemma StepKeeps(p: Settings, s: State, e: Event)
    requires Sound(p) && Inv(p, s)
    ensures Inv(p, Step(p, s, e))
  {
    var t := Step(p, s, e);
    if t.log != s.log {
      assert t.log[..|s.log|] == s.log;
    }
  }

  lemma {:induction false} RunKeeps(p: Settings, s: State, events: seq<Event>)
    requires Sound(p) && Inv(p, s)
    ensures Inv(p, Run(p, s, events))
    decreases |events|
  {
    if events == [] {
    } else {
      StepKeeps(p, s, events[0]);
      RunKeeps(p, Step(p, s, events[0]), events[1..]);
    }
  }

  /** Over any run of failures and resets: the k-th lockout of an unbroken chain lasts the base doubled
      k - 1 times, capped; and the stored attempts stay below the threshold. */
  lemma LocksDouble(p: Settings, now: int, events: seq<Event>, i: nat)
    requires Sound(p)
    ensures var s := Run(p, Init(now), events);
            && (s.attempts.Some? ==> s.attempts.value.value < p.maxAttempts)
            && (i < |s.log| ==> var k := Chain(s.log[..i + 1]);
                                k >= 1 && s.log[i].seconds == Min(p.base * Power2(k - 1), p.most))
  {
    RunKeeps(p, Init(now), events);
    var s := Run(p, Init(now), events);
    if i < |s.log| {
      LogAt(p, s.log, i);
    }
  }

  lemma {:induction false} DurationGrows(p: Settings, j: nat, k: nat)
    requires 1 <= j <= k
    ensures Duration(p, j) <= Duration(p, k)
    decreases k - j
  {
    if j < k {
      DurationGrows(p, j, k - 1);
      assert p.base * Power2(k - 1) == 2 * (p.base * Power2(k - 2));
    }
  }

  /** A violation that is still remembered never makes the next lockout shorter. */
  lemma LocksNeverShrink(p: Settings, now: int, events: seq<Event>, i: nat)
    requires Sound(p)
    requires var s := Run(p, Init(now), events); i + 1 < |s.log| && s.log[i + 1].at < s.log[i].at + MEMORY
    ensures var s := Run(p, Init(now), events); s.log[i].seconds <= s.log[i + 1].seconds
  {
    var s := Run(p, Init(now), events);
    LocksDouble(p, now, events, i);
    LocksDouble(p, now, events, i + 1);
    assert s.log[..i + 2][..i + 1] == s.log[..i + 1];
    DurationGrows(p, Chain(s.log[..i + 1]), Chain(s.log[..i + 2]));
  }

  /** A failure never lets a lockout end earlier, because violations are remembered for longer than any
      lockout exceeds the shortest one. */
  lemma FailureNeverShortens(p: Settings, s: State, wait: nat)
    requires Sound(p) && Inv(p, s) && p.most <= MEMORY + p.base && s.lockedUntil.Some?
    ensures var t := Step(p, s, Fail(wait)); t.lockedUntil.Some? && t.lockedUntil.value >= s.lockedUntil.value
  {
    var later := s.(now := s.now + wait);
    if Value(later.attempts, later.now) + 1 >= p.maxAttempts {
      var last := s.log[|s.log| - 1];
      if later.now < last.at + MEMORY {
        DurationGrows(p, Chain(s.log), Chain(s.log) + 1);
      } else {
        assert Duration(p, 1) == Min(p.base, p.most);
      }
    }
  }

  predicate NoReset(events: seq<Event>) {
    forall e <- events :: e.Fail?
  }

  lemma {:induction false} EndNeverEarlier(p: Settings, s: State, events: seq<Event>)
    requires Sound(p) && Inv(p, s) && p.most <= MEMORY + p.base && NoReset(events) && s.lockedUntil.Some?
    ensures var t := Run(p, s, events); t.lockedUntil.Some? && t.lockedUntil.value >= s.lockedUntil.value
    decreases |events|
  {
    if events == [] {
    } else {
      assert events[0] in events;
      StepKeeps(p, s, events[0]);
      FailureNeverShortens(p, s, events[0].wait);
      EndNeverEarlier(p, Step(p, s, events[0]), events[1..]);
    }
  }

  /** With the program's settings, a scope locked at one moment of a run stays locked until at least the
      end announced then, however many failures follow. */
  lemma LockedUntilAnnounced(now: int, before: seq<Event>, later: seq<Event>)
    requires NoReset(later) && Run(PROGRAM, Init(now), before).lockedUntil.Some?
    ensures var s := Run(PROGRAM, Init(now), before);
            var t := Run(PROGRAM, s, later);
            t.lockedUntil.Some? && t.lockedUntil.value >= s.lockedUntil.value
  {
    RunKeeps(PROGRAM, Init(now), before);
    EndNeverEarlier(PROGRAM, Run(PROGRAM, Init(now), before), later);
  }

  // ----- when a lockout falls -----

  /** What a live counter says now; an expired one says nothing. */
  predicate Counts(c: Option<Counter>, now: int, value: nat) {
    if c.Some? && now < c.value.expiresAt then value == c.value.value else value == 0
  }

  /** One failure: below the threshold it is only counted, in the window that the first one opened; at the
      threshold it locks, for the base doubled with each remembered violation and capped, the violation is
      remembered for a day from now, and the attempts are forgotten. */
  lemma FailureExactly(p: Settings, s: State, tried: nat, violated: nat)
    requires Counts(s.attempts, s.now, tried) && Counts(s.violations, s.now, violated)
    ensures var t := Failure(p, s);
            && t.now == s.now
            && (tried + 1 < p.maxAttempts ==>
                  && t.log == s.log && t.lockedUntil == s.lockedUntil && t.violations == s.violations
                  && t.attempts == Some(Counter(tried + 1, if tried == 0 then s.now + p.window
                                                           else s.attempts.value.expiresAt)))
            && (tried + 1 >= p.maxAttempts ==>
                  var seconds := Min(p.base * Power2(violated), p.most);
                  && t.log == s.log + [Lock(s.now, seconds)] && t.lockedUntil == Some(s.now + seconds)
                  && t.attempts == None && t.violations == Some(Counter(violated + 1, s.now + 86400)))
  {
  }

  /** Time passes before an event; a reset forgets attempts and lockout, and remembers the violations. */
  lemma StepExactly(p: Settings, s: State, wait: nat)
    ensures Step(p, s, Reset(wait)) == State(s.now + wait, None, None, s.violations, s.log)
    ensures Step(p, s, Fail(wait)) == Failure(p, State(s.now + wait, s.attempts, s.lockedUntil, s.violations, s.log))
  {
  }

  function Fails(waits: seq<nat>): (events: seq<Event>)
    ensures |events| == |waits|
  {
    if waits == [] then [] else [Fail(waits[0])] + Fails(waits[1..])
  }

  function Sum(waits: seq<nat>): nat {
    if waits == [] then 0 else waits[0] + Sum(waits[1..])
  }

  /** While a window is open, failures below the threshold are counted and nothing is locked. */
  lemma {:induction false} CountedInWindow(p: Settings, s: State, waits: seq<nat>)
    requires s.attempts.Some? && s.now + Sum(waits) < s.attempts.value.expiresAt
    requires s.attempts.value.value >= 1 && s.attempts.value.value + |waits| < p.maxAttempts
    ensures var t := Run(p, s, Fails(waits));
            && t == s.(now := s.now + Sum(waits),
                       attempts := Some(Counter(s.attempts.value.value + |waits|, s.attempts.value.expiresAt)))
    decreases |waits|
  {
    if waits == [] {
    } else {
      var t := Step(p, s, Fail(waits[0]));
      assert Fails(waits)[1..] == Fails(waits[1..]);
      CountedInWindow(p, t, waits[1..]);
    }
  }

  lemma {:induction false} FailsAppend(p: Settings, s: State, waits: seq<nat>, last: nat)
    ensures Run(p, s, Fails(waits + [last])) == Step(p, Run(p, s, Fails(waits)), Fail(last))
    ensures Sum(waits + [last]) == Sum(waits) + last
    decreases |waits|
  {
    if waits == [] {
      assert waits + [last] == [last];
      assert Fails([last]) == [Fail(last)] && [Fail(last)][1..] == [];
      assert Run(p, Step(p, s, Fail(last)), []) == Step(p, s, Fail(last));
      assert [last][1..] == [] && Sum([]) == 0;
    } else {
      assert (waits + [last])[1..] == waits[1..] + [last];
      assert Fails(waits + [last])[1..] == Fails(waits[1..] + [last]) && Fails(waits)[1..] == Fails(waits[1..]);
      FailsAppend(p, Step(p, s, Fail(waits[0])), waits[1..], last);
    }
  }

  /** When no attempt is remembered, or the last window has ended, failures within one window do not lock
      before the threshold, and the one that reaches it does, whatever was locked before. */
  lemma LocksAtThreshold(p: Settings, s: State, first: nat, waits: seq<nat>)
    requires Sound(p) && Counts(s.attempts, s.now + first, 0)
    requires Sum(waits) < p.window && |waits| + 1 <= p.maxAttempts
    ensures var t := Run(p, Step(p, s, Fail(first)), Fails(waits));
            && (|waits| + 1 < p.maxAttempts ==> t.log == s.log && t.lockedUntil == s.lockedUntil)
            && (|waits| + 1 == p.maxAttempts ==>
                  && |t.log| == |s.log| + 1 && t.log[..|s.log|] == s.log && t.attempts == None
                  && t.log[|s.log|].at == s.now + first + Sum(waits)
                  && t.lockedUntil == Some(t.log[|s.log|].at + t.log[|s.log|].seconds))
  {
    var one := Step(p, s, Fail(first));
    if waits == [] {
    } else {
      var init, last := waits[..|waits| - 1], waits[|waits| - 1];
      assert waits == init + [last];
      FailsAppend(p, one, init, last);
      CountedInWindow(p, one, init);
      if |waits| + 1 < p.maxAttempts {
        CountedInWindow(p, one, waits);
      }
    }
  }

  /** The program's settings: the fifth failure within a quarter of an hour locks, for five minutes the first
      time, then ten, twenty, forty, and an hour from then on. */
  lemma ProgramLocks(k: nat)
    requires k >= 1
    ensures PROGRAM.window == 15 * 60 && PROGRAM.maxAttempts == 5 && Sound(PROGRAM)
    ensures Duration(PROGRAM, k) == if k == 1 then 300 else if k == 2 then 600 else if k == 3 then 1200
                                    else if k == 4 then 2400 else 3600
  {
    assert Power2(0) == 1 && Power2(1) == 2 && Power2(2) == 4 && Power2(3) == 8 && Power2(4) == 16;
    if k >= 5 {
      DurationGrows(PROGRAM, 5, k);
    }
  }

  // ----- the adapter, with the script statement by statement -----

  class RateLimiter {
    const settings: Settings
    var now: int
    var attempts: Option<Counter>
    var lockedUntil: Option<int>
    var violations: Option<Counter>
    ghost var log: seq<Lock>

    constructor (settings: Settings, now: int)
      ensures this.settings == settings && View() == Init(now)
    {
      this.settings, this.now := settings, now;
      attempts, lockedUntil, violations, log := None, None, None, [];
    }

    ghost function View(): State
      reads this
    {
      State(now, attempts, lockedUntil, violations, log)
    }

    /** Refused while the lockout key has time left, with that time. */
    method Allowed() returns (allowed: bool, retryAfter: int)
      ensures allowed <==> lockedUntil.None? || lockedUntil.value <= now
      ensures !allowed ==> retryAfter > 0 && now + retryAfter == lockedUntil.value
    {
      if lockedUntil.Some? && lockedUntil.value - now > 0 {
        return false, lockedUntil.value - now;
      }
      return true, 0;
    }

    method Increment(counter: Option<Counter>, lifetime: int) returns (value: nat, stored: Counter)
      ensures value == Value(counter, now) + 1 == stored.value
      ensures stored.expiresAt == if value == 1 then now + lifetime else counter.value.expiresAt
    {
      if counter.Some? && now < counter.value.expiresAt && counter.value.value > 0 {
        value := counter.value.value + 1;
        stored := Counter(value, counter.value.expiresAt);
      } else {
        value := 1;
        stored := Counter(1, now + lifetime);
      }
    }

    method RecordFailure() returns (seconds: nat)
      requires Sound(settings)
      modifies this`attempts, this`lockedUntil, this`violations, this`log
      ensures View() == Failure(settings, old(View()))
      ensures seconds == if |log| > |old(log)| then log[|log| - 1].seconds else 0
      ensures seconds > 0 <==>
                old(if attempts.Some? && now < attempts.value.expiresAt then attempts.value.value else 0) + 1
                >= settings.maxAttempts
    {
      var tried, counter := Increment(attempts, settings.window);
      attempts := Some(counter);
      if tried >= settings.maxAttempts {
        var k, violation := Increment(violations, MEMORY);
        violations := Some(violation.(expiresAt := now + MEMORY));
        seconds := settings.base;
        for doubled := 1 to k
          invariant seconds == settings.base * Power2(doubled - 1)
        {
          seconds := seconds * 2;
        }
        if seconds > settings.most {
          seconds := settings.most;
        }
        lockedUntil := Some(now + seconds);
        attempts := None;
        log := log + [Lock(now, seconds)];
        return;
      }
      seconds := 0;
    }

    /** Forgets attempts and lockout, not the violations. */
    method Reset()
      modifies this`attempts, this`lockedUntil
      ensures View() == old(View()).(attempts := None, lockedUntil := None)
    {
      attempts, lockedUntil := None, None;
    }
  }
}
