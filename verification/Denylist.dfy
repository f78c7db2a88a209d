/** Access tokens and the Redis keys that can end them early: per user the set of active token
    ids with their expiry, and per token id a denylist key with its own expiry.

    The clock counts milliseconds; token expiry (`exp`, section 4.1.4 of RFC 7519) and key
    lifetimes are whole seconds. The caller of the script reads the clock some time before the
    script runs, and rounds it down. */
module Denylist {
  type UserId = nat
  type Jti = nat

  const SECOND := 1000

  datatype Access = Access(user: UserId, exp: nat)

  /** `issued` remembers every token whose id was registered, before it is returned to its user. */
  datatype State = State(
    now: nat,
    active: map<UserId, map<Jti, nat>>,
    deny: map<Jti, nat>,
    issued: map<Jti, Access>)

  datatype Event =
    | Tick(millis: nat)
    | Register(user: UserId, jti: Jti, expiresAt: nat)
    | DenyAll(user: UserId, nowSeconds: nat)
    | Deny(jti: Jti)

  function Members(active: map<UserId, map<Jti, nat>>, user: UserId): map<Jti, nat> {
    if user in active then active[user] else map[]
  }

  /** The members the script denylists, given the second its caller read. */
  function Due(members: map<Jti, nat>, nowSeconds: nat): set<Jti> {
    set jti | jti in members && members[jti] > nowSeconds
  }

  /** Each due member is denied for its remaining whole seconds, counted from when the script runs. */
  function Sweep(deny: map<Jti, nat>, members: map<Jti, nat>, nowSeconds: nat, now: nat): map<Jti, nat> {
    map jti | jti in deny.Keys + Due(members, nowSeconds) ::
      if jti in Due(members, nowSeconds) then now + (members[jti] - nowSeconds) * SECOND else deny[jti]
  }

  function AddMember(active: map<UserId, map<Jti, nat>>, user: UserId, jti: Jti, exp: nat): map<UserId, map<Jti, nat>> {
    active[user := Members(active, user)[jti := exp]]
  }

  function DenyOne(s: State, jti: Jti, expiresAt: nat): State {
    if expiresAt <= s.now then s else s.(deny := s.deny[jti := expiresAt])
  }

  function Step(s: State, e: Event): State {
    match e
    case Tick(millis) => s.(now := s.now + millis)
    case Register(user, jti, expiresAt) =>
      if jti in s.issued then s
      else s.(active := AddMember(s.active, user, jti, expiresAt / SECOND),
              issued := s.issued[jti := Access(user, expiresAt / SECOND)])
    case DenyAll(user, nowSeconds) =>
      if nowSeconds * SECOND > s.now then s
      else s.(deny := Sweep(s.deny, Members(s.active, user), nowSeconds, s.now), active := s.active - {user})
    case Deny(jti) =>
      if jti in s.issued then DenyOne(s, jti, s.issued[jti].exp * SECOND) else s
  }

  function Run(s: State, events: seq<Event>): State
    decreases |events|
  {
    if events == [] then s else Run(Step(s, events[0]), events[1..])
  }

  lemma {:induction false} RunAppend(s: State, a: seq<Event>, b: seq<Event>)
    ensures Run(s, a + b) == Run(Run(s, a), b)
    decreases |a|
  {
    if a == [] {
      assert a + b == b;
    } else {
      assert (a + b)[1..] == a[1..] + b;
      RunAppend(Step(s, a[0]), a[1..], b);
    }
  }

  lemma RunOne(s: State, e: Event)
    ensures Run(s, [e]) == Step(s, e)
  {
    assert [e][1..] == [];
    assert Run(Step(s, e), []) == Step(s, e);
  }

  const INIT := State(0, map[], map[], map[])

  /** What the authentication middleware lets through: not expired, and no live denylist key. */
  predicate Accepted(s: State, jti: Jti)
    requires jti in s.issued
  {
    s.now < s.issued[jti].exp * SECOND && !(jti in s.deny && s.now < s.deny[jti])
  }

  /** Expired, or denied for at least the rest of its life. */
  predicate Finished(s: State, jti: Jti)
    requires jti in s.issued
  {
    var end := s.issued[jti].exp * SECOND;
    end <= s.now || (jti in s.deny && end <= s.deny[jti])
  }

  predicate Tracked(s: State, jti: Jti)
    requires jti in s.issued
  {
    var Access(user, exp) := s.issued[jti];
    jti in Members(s.active, user) && Members(s.active, user)[jti] == exp
  }

  predicate OnlyIssued(s: State) {
    && (forall user <- s.active :: forall jti <- s.active[user] ::
          jti in s.issued && s.issued[jti] == Access(user, s.active[user][jti]))
    && (forall jti <- s.deny :: jti in s.issued)
  }

  /** Every registered token is tracked or finished, and nothing else is tracked or denied. */
  predicate Inv(s: State) {
    (forall jti <- s.issued :: Tracked(s, jti) || Finished(s, jti)) && OnlyIssued(s)
  }

  /** The script denies each tracked token for at least the rest of its life, however late it runs. */
  lemma SweepOutlives(s: State, user: UserId, nowSeconds: nat, jti: Jti)
    requires jti in s.issued && s.issued[jti].user == user && Tracked(s, jti) && nowSeconds * SECOND <= s.now
    ensures Finished(Step(s, DenyAll(user, nowSeconds)), jti)
  {
    var exp := s.issued[jti].exp;
    if exp > nowSeconds {
      assert jti in Due(Members(s.active, user), nowSeconds);
    }
  }

  lemma SweepKeepsFinished(s: State, user: UserId, nowSeconds: nat, jti: Jti)
    requires Inv(s) && jti in s.issued && Finished(s, jti) && nowSeconds * SECOND <= s.now
    ensures Finished(Step(s, DenyAll(user, nowSeconds)), jti)
  {
    var members := Members(s.active, user);
    if jti in Due(members, nowSeconds) {
      assert s.issued[jti] == Access(user, members[jti]);
      SweepOutlives(s, user, nowSeconds, jti);
    }
  }

  lemma StepKeepsFinished(s: State, e: Event, jti: Jti)
    requires Inv(s) && jti in s.issued && Finished(s, jti)
    ensures jti in Step(s, e).issued && Step(s, e).issued[jti] == s.issued[jti] && Finished(Step(s, e), jti)
  {
    if e.DenyAll? && e.nowSeconds * SECOND <= s.now {
      SweepKeepsFinished(s, e.user, e.nowSeconds, jti);
    }
  }

  /** A token that was tracked or finished stays one of the two. */
  lemma StepCovers(s: State, e: Event, jti: Jti)
    requires Inv(s) && jti in s.issued
    ensures var t := Step(s, e); jti in t.issued && (Tracked(t, jti) || Finished(t, jti))
  {
    if Finished(s, jti) {
      StepKeepsFinished(s, e, jti);
    } else if e.DenyAll? && e.nowSeconds * SECOND <= s.now && s.issued[jti].user == e.user {
      SweepOutlives(s, e.user, e.nowSeconds, jti);
    }
  }

  lemma StepKeepsIssued(s: State, e: Event)
    requires OnlyIssued(s)
    ensures OnlyIssued(Step(s, e))
  {
  }

  lemma StepKeeps(s: State, e: Event)
    requires Inv(s)
    ensures Inv(Step(s, e))
  {
    var t := Step(s, e);
    StepKeepsIssued(s, e);
    forall jti | jti in t.issued ensures Tracked(t, jti) || Finished(t, jti) {
      if jti in s.issued {
        StepCovers(s, e, jti);
      }
    }
  }

  lemma {:induction false} RunKeeps(s: State, events: seq<Event>)
    requires Inv(s)
    ensures Inv(Run(s, events))
    decreases |events|
  {
    if events == [] {
    } else {
      StepKeeps(s, events[0]);
      RunKeeps(Step(s, events[0]), events[1..]);
    }
  }

  lemma {:induction false} RunKeepsToken(s: State, events: seq<Event>, jti: Jti)
    requires Inv(s) && jti in s.issued
    ensures jti in Run(s, events).issued && Run(s, events).issued[jti] == s.issued[jti]
    ensures Finished(s, jti) ==> Finished(Run(s, events), jti)
    decreases |events|
  {
    if events == [] {
    } else {
      StepKeeps(s, events[0]);
      if Finished(s, jti) {
        StepKeepsFinished(s, events[0], jti);
      }
      RunKeepsToken(Step(s, events[0]), events[1..], jti);
    }
  }

  /** Once the script has run for a user, no token registered for that user before is ever accepted
      again: at every later instant it is expired or its denylist key is alive. */
  lemma DeniedForGood(before: seq<Event>, user: UserId, nowSeconds: nat, later: seq<Event>, jti: Jti)
    requires var s := Run(INIT, before);
             nowSeconds * SECOND <= s.now && jti in s.issued && s.issued[jti].user == user
    ensures var t := Run(Step(Run(INIT, before), DenyAll(user, nowSeconds)), later);
            jti in t.issued && !Accepted(t, jti)
  {
    RunKeeps(INIT, before);
    var s := Run(INIT, before);
    DenyAllFinishes(s, user, nowSeconds, jti);
    StepKeeps(s, DenyAll(user, nowSeconds));
    RunKeepsToken(Step(s, DenyAll(user, nowSeconds)), later, jti);
  }

  lemma DenyAllFinishes(s: State, user: UserId, nowSeconds: nat, jti: Jti)
    requires Inv(s) && nowSeconds * SECOND <= s.now && jti in s.issued && s.issued[jti].user == user
    ensures Finished(Step(s, DenyAll(user, nowSeconds)), jti)
  {
    if Finished(s, jti) {
      StepKeepsFinished(s, DenyAll(user, nowSeconds), jti);
    } else {
      SweepOutlives(s, user, nowSeconds, jti);
    }
  }

  // ----- each call, token by token -----

  /** The script denies each active token of the user that has time left from the second its caller read, for
      exactly that many seconds from now, forgets the user's set, and touches no other token or user. */
  lemma SweepExactly(s: State, user: UserId, nowSeconds: nat, jti: Jti)
    requires nowSeconds * SECOND <= s.now
    ensures var t := Step(s, DenyAll(user, nowSeconds));
            var due := user in s.active && jti in s.active[user] && s.active[user][jti] > nowSeconds;
            && t.now == s.now && t.issued == s.issued && t.active == s.active - {user}
            && (due ==> jti in t.deny && t.deny[jti] == s.now + (s.active[user][jti] - nowSeconds) * 1000)
            && (!due ==> (jti in t.deny <==> jti in s.deny) && (jti in s.deny ==> t.deny[jti] == s.deny[jti]))
  {
  }

  /** Tokens of other users are accepted after the script exactly as before. */
  lemma OthersUnaffected(s: State, user: UserId, nowSeconds: nat, jti: Jti)
    requires Inv(s) && jti in s.issued && s.issued[jti].user != user
    ensures Accepted(Step(s, DenyAll(user, nowSeconds)), jti) <==> Accepted(s, jti)
  {
    if nowSeconds * SECOND <= s.now {
      SweepExactly(s, user, nowSeconds, jti);
    }
  }

  /** Denying one token ends it, until its own expiry, and no other. */
  lemma DenyExactly(s: State, jti: Jti, other: Jti)
    requires jti in s.issued && other in s.issued
    ensures var t := Step(s, Deny(jti));
            && t.now == s.now && t.active == s.active && t.issued == s.issued
            && !Accepted(t, jti) && (other != jti ==> (Accepted(t, other) <==> Accepted(s, other)))
            && (s.now < s.issued[jti].exp * 1000 ==> t.deny == s.deny[jti := s.issued[jti].exp * 1000])
            && (s.now >= s.issued[jti].exp * 1000 ==> t.deny == s.deny)
  {
  }

  /** A registered token belongs to its user until the whole second in which it expires, and is accepted from
      then on until that second unless its key says otherwise. */
  lemma RegisterExactly(s: State, user: UserId, jti: Jti, expiresAt: nat)
    requires Inv(s) && jti !in s.issued
    ensures var t := Step(s, Register(user, jti, expiresAt));
            && t.now == s.now && t.deny == s.deny
            && t.issued == s.issued[jti := Access(user, expiresAt / 1000)]
            && user in t.active && jti in t.active[user] && t.active[user][jti] == expiresAt / 1000
            && (forall other <- s.active :: other != user ==> other in t.active && t.active[other] == s.active[other])
            && (Accepted(t, jti) <==> s.now < expiresAt / 1000 * 1000)
  {
  }

  lemma TickExactly(s: State, millis: nat)
    ensures Step(s, Tick(millis)) == s.(now := s.now + millis)
  {
  }

  // ----- tokens issued while a logout is still under way -----

  predicate OnlyRegisters(events: seq<Event>) {
    forall e <- events :: e.Register? || e.Tick?
  }

  lemma {:induction false} RegistersDenyNothing(s: State, events: seq<Event>)
    requires OnlyRegisters(events)
    ensures Run(s, events).deny == s.deny
    decreases |events|
  {
    if events == [] {
    } else {
      assert events[0] in events;
      RegistersDenyNothing(Step(s, events[0]), events[1..]);
    }
  }

  lemma LateTokenAccepted(s: State, user: UserId, nowSeconds: nat, jti: Jti, expiresAt: nat)
    requires Inv(s) && nowSeconds * SECOND <= s.now && jti !in s.issued && s.now < expiresAt / SECOND * SECOND
    ensures var t := Step(Step(s, DenyAll(user, nowSeconds)), Register(user, jti, expiresAt));
            jti in t.issued && t.issued[jti].user == user && Accepted(t, jti)
  {
    StepKeeps(s, DenyAll(user, nowSeconds));
  }

  /** A token registered right after the script is accepted, in every reachable state. */
  lemma LateTokenSurvives(before: seq<Event>, user: UserId, nowSeconds: nat, jti: Jti, expiresAt: nat)
    requires var s := Run(INIT, before);
             nowSeconds * SECOND <= s.now && jti !in s.issued && s.now < expiresAt / SECOND * SECOND
    ensures var t := Step(Step(Run(INIT, before), DenyAll(user, nowSeconds)), Register(user, jti, expiresAt));
            jti in t.issued && t.issued[jti].user == user && Accepted(t, jti)
  {
    RunKeeps(INIT, before);
    LateTokenAccepted(Run(INIT, before), user, nowSeconds, jti, expiresAt);
  }

  /** Between the script and the moment the logout returns, other requests may register tokens. The
      logout has then ended every token of the user exactly when each one registered in between has
      expired by itself. */
  lemma RaceExact(s: State, user: UserId, nowSeconds: nat, between: seq<Event>)
    requires Inv(s) && nowSeconds * SECOND <= s.now && OnlyRegisters(between)
    ensures var t := Run(Step(s, DenyAll(user, nowSeconds)), between);
            (forall jti <- t.issued :: t.issued[jti].user == user ==> Finished(t, jti))
            <==>
            (forall jti <- t.issued :: t.issued[jti].user == user && jti !in s.issued ==>
                                         t.issued[jti].exp * SECOND <= t.now)
  {
    var u := Step(s, DenyAll(user, nowSeconds));
    var t := Run(u, between);
    StepKeeps(s, DenyAll(user, nowSeconds));
    RegistersDenyNothing(u, between);
    forall jti | jti in s.issued
      ensures jti in t.issued && t.issued[jti] == s.issued[jti]
      ensures s.issued[jti].user == user ==> Finished(t, jti)
    {
      if s.issued[jti].user == user {
        DenyAllFinishes(s, user, nowSeconds, jti);
      }
      RunKeepsToken(u, between, jti);
    }
    forall jti | jti in t.issued && jti !in s.issued ensures jti !in t.deny {
      assert u.issued == s.issued;
    }
  }
}
