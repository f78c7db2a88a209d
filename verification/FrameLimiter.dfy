/** The per-connection limit on inbound frames: a fixed window that opens with a frame. */
module FrameLimiter {
  const MAX_DURATION := 0x7fff_ffff_ffff_ffff

  datatype State = State(limit: nat, window: int, windowStart: int, count: nat)

  /** Subtracting two instants saturates at the largest duration. */
  function Since(now: int, start: int): int {
    if now - start > MAX_DURATION then MAX_DURATION else now - start
  }

  predicate Sound(s: State) {
    1 <= s.window <= MAX_DURATION
  }

  function Opened(s: State, now: int): State {
    if Since(now, s.windowStart) >= s.window then s.(windowStart := now, count := 0) else s
  }

  function Next(s: State, now: int): State {
    var current := Opened(s, now);
    current.(count := current.count + 1)
  }

  predicate Accepts(s: State, now: int) {
    Opened(s, now).count < s.limit
  }

  class Limiter {
    const limit: nat
    const window: int
    var windowStart: int
    var count: nat

    constructor (limit: nat, window: int)
      ensures View() == State(limit, window, 0, 0)
    {
      this.limit, this.window := limit, window;
      windowStart, count := 0, 0;
    }

    function View(): State
      reads this
    {
      State(limit, window, windowStart, count)
    }

    method Allow(now: int) returns (allowed: bool)
      modifies this
      ensures View() == Next(old(View()), now)
      ensures allowed <==> Accepts(old(View()), now)
      ensures var elapsed := if now - old(windowStart) > MAX_DURATION then MAX_DURATION else now - old(windowStart);
              && (elapsed >= window ==> windowStart == now && count == 1)
              && (elapsed < window ==> windowStart == old(windowStart) && count == old(count) + 1)
              && (allowed <==> count <= limit)
    {
      if Since(now, windowStart) >= window {
        windowStart := now;
        count := 0;
      }
      count := count + 1;
      allowed := count <= limit;
    }
  }

  // ----- traces of arrival times -----

  predicate NonDecreasing(times: seq<int>) {
    forall i, j | 0 <= i < j < |times| :: times[i] <= times[j]
  }

  predicate AtLeast(times: seq<int>, low: int) {
    forall t <- times :: low <= t
  }

  /** Accepted frames that arrive in the half-open interval from `low` to `high`. */
  function Accepted(s: State, times: seq<int>, low: int, high: int): nat
    decreases |times|
  {
    if times == [] then 0
    else (if low <= times[0] < high && Accepts(s, times[0]) then 1 else 0)
         + Accepted(Next(s, times[0]), times[1..], low, high)
  }

  /** How many windows a trace opens, and how many frames it has accepted in all. */
  function Openings(s: State, times: seq<int>): nat
    decreases |times|
  {
    if times == [] then 0
    else (if Since(times[0], s.windowStart) >= s.window then 1 else 0) + Openings(Next(s, times[0]), times[1..])
  }

  function Room(s: State): nat {
    if s.count < s.limit then s.limit - s.count else 0
  }

  lemma Rest(times: seq<int>, low: int)
    requires NonDecreasing(times) && times != [] && AtLeast(times, low)
    ensures NonDecreasing(times[1..]) && AtLeast(times[1..], times[0]) && times[0] >= low
  {
    forall t | t in times[1..] ensures times[0] <= t {
      var i :| 0 <= i < |times[1..]| && times[1..][i] == t;
      assert times[i + 1] == t;
    }
    assert times[0] in times;
  }

  /** The current window opened inside the interval: no other one can open before the interval ends. */
  lemma {:induction false} InsideWindow(s: State, times: seq<int>, low: int)
    requires Sound(s) && NonDecreasing(times) && s.windowStart >= low
    requires AtLeast(times, s.windowStart)
    ensures Accepted(s, times, low, low + s.window) <= Room(s)
    decreases |times|
  {
    if times == [] {
    } else {
      Rest(times, s.windowStart);
      var t := Next(s, times[0]);
      if t.windowStart == s.windowStart && t.count == s.count + 1 {
        assert AtLeast(times[1..], t.windowStart);
        InsideWindow(t, times[1..], low);
      } else {
        NoneBeyond(t, times[1..], low, low + s.window);
      }
    }
  }

  lemma {:induction false} NoneBeyond(s: State, times: seq<int>, low: int, high: int)
    requires AtLeast(times, high)
    ensures Accepted(s, times, low, high) == 0
    decreases |times|
  {
    if times == [] {
    } else {
      assert times[0] in times && forall t | t in times[1..] :: t in times;
      NoneBeyond(Next(s, times[0]), times[1..], low, high);
    }
  }

  /** The current window opened before the interval and all frames to come lie in or after it. */
  lemma {:induction false} AcrossStart(s: State, times: seq<int>, low: int)
    requires Sound(s) && NonDecreasing(times) && s.windowStart < low && AtLeast(times, low)
    ensures Accepted(s, times, low, low + s.window) <= Room(s) + s.limit
    decreases |times|
  {
    if times == [] {
    } else {
      Rest(times, low);
      var t := Next(s, times[0]);
      assert AtLeast(times[1..], low);
      if t.windowStart == s.windowStart {
        AcrossStart(t, times[1..], low);
      } else {
        InsideWindow(t, times[1..], low);
      }
    }
  }

  /** Once a window has been opened by a frame before the interval, the interval sees one less than two
      full windows: that frame lies outside it. */
  lemma {:induction false} AfterOpening(s: State, times: seq<int>, low: int)
    requires Sound(s) && NonDecreasing(times) && s.windowStart < low && s.count >= 1 && s.limit >= 1
    ensures Accepted(s, times, low, low + s.window) <= 2 * s.limit - 1
    decreases |times|
  {
    if times == [] {
    } else {
      assert AtLeast(times, times[0]);
      Rest(times, times[0]);
      if times[0] < low {
        AfterOpening(Next(s, times[0]), times[1..], low);
      } else {
        AcrossStart(s, times, low);
      }
    }
  }

  /** The sharp bound: for every non-decreasing sequence of arrivals, the first of them at least a window
      after the zero instant, no interval as long as the window sees more than two limits less one. */
  lemma SharpBound(limit: nat, window: int, times: seq<int>, low: int)
    requires 1 <= window <= MAX_DURATION && limit >= 1
    requires NonDecreasing(times) && AtLeast(times, window)
    ensures Accepted(State(limit, window, 0, 0), times, low, low + window) <= 2 * limit - 1
  {
    var s := State(limit, window, 0, 0);
    if times != [] {
      Rest(times, window);
      var t := Next(s, times[0]);
      if t.windowStart < low {
        AfterOpening(t, times[1..], low);
      } else {
        InsideWindow(t, times[1..], low);
      }
    }
  }

  /** From any state, whatever the first arrival: at most two limits. */
  lemma {:induction false} AtMostTwoLimits(s: State, times: seq<int>, low: int)
    requires Sound(s) && NonDecreasing(times) && AtLeast(times, s.windowStart)
    ensures Accepted(s, times, low, low + s.window) <= 2 * s.limit
    decreases |times|
  {
    if s.windowStart >= low {
      InsideWindow(s, times, low);
    } else if times != [] {
      Rest(times, s.windowStart);
      assert AtLeast(times, times[0]);
      if times[0] < low {
        AtMostTwoLimits(Next(s, times[0]), times[1..], low);
      } else {
        AcrossStart(s, times, low);
      }
    }
  }

  function Repeat(n: nat, time: int): (r: seq<int>)
    ensures |r| == n && forall t <- r :: t == time
  {
    if n == 0 then [] else [time] + Repeat(n - 1, time)
  }

  lemma {:induction false} RepeatInWindow(s: State, n: nat, time: int, rest: seq<int>, low: int, high: int)
    requires Since(time, s.windowStart) < s.window && low <= time < high && s.count + n <= s.limit
    ensures Accepted(s, Repeat(n, time) + rest, low, high) == n + Accepted(s.(count := s.count + n), rest, low, high)
    decreases n
  {
    if n == 0 {
      assert Repeat(n, time) + rest == rest;
    } else {
      assert (Repeat(n, time) + rest)[1..] == Repeat(n - 1, time) + rest;
      RepeatInWindow(Next(s, time), n - 1, time, rest, low, high);
    }
  }

  lemma FillWindow(s: State, n: nat, rest: seq<int>, time: int, low: int, high: int)
    requires Sound(s) && time - s.windowStart == s.window && low <= time < high && s.limit == n + 1
    ensures Accepted(s, [time] + Repeat(n, time) + rest, low, high)
         == s.limit + Accepted(s.(windowStart := time, count := s.limit), rest, low, high)
  {
    var times := [time] + Repeat(n, time) + rest;
    assert times[1..] == Repeat(n, time) + rest;
    RepeatInWindow(Next(s, time), n, time, rest, low, high);
  }

  /** A first frame opens a window before the interval; the others it has room for come inside. */
  lemma FirstWindow(limit: nat, window: int, rest: seq<int>, low: int)
    requires 2 <= window <= MAX_DURATION && limit >= 1 && low == 2 * window - 1
    ensures Accepted(State(limit, window, 0, 0), [window] + (Repeat(limit - 1, low) + rest), low, low + window)
         == limit - 1 + Accepted(State(limit, window, window, limit), rest, low, low + window)
  {
    var s := State(limit, window, 0, 0);
    var others := Repeat(limit - 1, low) + rest;
    assert ([window] + others)[1..] == others;
    assert Next(s, window) == State(limit, window, window, 1);
    RepeatInWindow(Next(s, window), limit - 1, low, rest, low, low + window);
  }

  lemma SecondWindow(limit: nat, window: int, low: int)
    requires 2 <= window <= MAX_DURATION && limit >= 1 && low == 2 * window - 1
    ensures var times := [2 * window] + Repeat(limit - 1, 2 * window);
            Accepted(State(limit, window, window, limit), times, low, low + window) == limit
  {
    var times := [2 * window] + Repeat(limit - 1, 2 * window);
    FillWindow(State(limit, window, window, limit), limit - 1, [], 2 * window, low, low + window);
    assert times + [] == times;
  }

  /** The bound is met: one frame opens a window, the rest of its frames come at its last instant, and the
      next window is filled at once. */
  lemma BoundIsMet(limit: nat, window: int) returns (times: seq<int>, low: int)
    requires 2 <= window <= MAX_DURATION && limit >= 1
    ensures NonDecreasing(times) && AtLeast(times, window)
    ensures Accepted(State(limit, window, 0, 0), times, low, low + window) == 2 * limit - 1
  {
    low := 2 * window - 1;
    var first, second := Repeat(limit - 1, low), [2 * window] + Repeat(limit - 1, 2 * window);
    times := [window] + (first + second);
    FirstWindow(limit, window, second, low);
    SecondWindow(limit, window, low);
    BoundTimesOrdered(window, times, first, second);
  }

  lemma BoundTimesOrdered(window: int, times: seq<int>, first: seq<int>, second: seq<int>)
    requires window >= 2 && times == [window] + (first + second)
    requires (forall t <- first :: t == 2 * window - 1) && (forall t <- second :: t == 2 * window)
    ensures NonDecreasing(times) && AtLeast(times, window)
  {
    forall i | 0 <= i < |times|
      ensures times[i] == if i == 0 then window else if i <= |first| then 2 * window - 1 else 2 * window
    {
      if 0 < i <= |first| {
        assert times[i] == first[i - 1] && first[i - 1] in first;
      } else if i > |first| {
        assert times[i] == second[i - 1 - |first|] && second[i - 1 - |first|] in second;
      }
    }
  }

  /** And at most `limit` frames are accepted for each window opened, plus what the current one has room for. */
  lemma {:induction false} LimitPerWindow(s: State, times: seq<int>, low: int, high: int)
    requires Sound(s)
    ensures Accepted(s, times, low, high) <= Room(s) + Openings(s, times) * s.limit
    decreases |times|
  {
    if times == [] {
    } else {
      var t := Next(s, times[0]);
      LimitPerWindow(t, times[1..], low, high);
      var rest := Openings(t, times[1..]);
      assert (1 + rest) * s.limit == s.limit + rest * s.limit;
    }
  }
}
