/** Logging out everywhere while other requests are under way. A refresh first rotates its row and later
    registers its access token; a logout first sweeps the access tokens and later revokes the rows; any
    other step may fall between. */
module AuthRace {
  import opened Wrappers
  import opened Sessions
  import Denylist

  type Jti = Denylist.Jti

  /** `from` remembers which refresh registered an access token; logins register the others. */
  datatype State = Both(rows: Sessions.State, tokens: Denylist.State, from: map<Jti, CallId>)

  datatype Event =
    | Rows(row: Sessions.Event)
    | Tokens(token: Denylist.Event)
    | Grant(call: CallId, jti: Jti, expiresAt: nat)

  const INIT := Both(Sessions.INIT, Denylist.INIT, map[])

  /** A refresh that has rotated and not yet registered its access token. */
  predicate Grantable(s: State, call: CallId, jti: Jti) {
    && call in s.rows.calls && Won(s.rows.calls[call], s.rows.calls[call].token)
    && s.rows.calls[call].token in s.rows.table
    && jti !in s.tokens.issued && forall other <- s.from :: s.from[other] != call
  }

  function TokenEvents(s: State, e: Event): seq<Denylist.Event> {
    match e
    case Rows(_) => []
    case Tokens(token) => [token]
    case Grant(call, jti, expiresAt) =>
      if Grantable(s, call, jti) then [Denylist.Register(s.rows.table[s.rows.calls[call].token].user, jti, expiresAt)]
      else []
  }

  ghost function Step(s: State, e: Event): State {
    var tokens := Denylist.Run(s.tokens, TokenEvents(s, e));
    match e
    case Rows(row) => s.(rows := Sessions.Step(s.rows, row))
    case Tokens(_) => s.(tokens := tokens)
    case Grant(call, jti, _) => if Grantable(s, call, jti) then s.(tokens := tokens, from := s.from[jti := call]) else s
  }

  ghost function Run(s: State, events: seq<Event>): State
    decreases |events|
  {
    if events == [] then s else Run(Step(s, events[0]), events[1..])
  }

  // ----- the runs of the two stores -----

  function RowEvents(events: seq<Event>): seq<Sessions.Event> {
    if events == [] then []
    else (if events[0].Rows? then [events[0].row] else []) + RowEvents(events[1..])
  }

  ghost function AllTokenEvents(s: State, events: seq<Event>): seq<Denylist.Event>
    decreases |events|
  {
    if events == [] then [] else TokenEvents(s, events[0]) + AllTokenEvents(Step(s, events[0]), events[1..])
  }

  lemma {:induction false} RowsRun(s: State, events: seq<Event>)
    ensures Run(s, events).rows == Sessions.Run(s.rows, RowEvents(events))
    decreases |events|
  {
    if events == [] {
    } else {
      RowsRun(Step(s, events[0]), events[1..]);
      if events[0].Rows? {
        assert RowEvents(events)[1..] == RowEvents(events[1..]);
      } else {
        assert RowEvents(events) == RowEvents(events[1..]);
      }
    }
  }

  lemma {:induction false} TokensRun(s: State, events: seq<Event>)
    ensures Run(s, events).tokens == Denylist.Run(s.tokens, AllTokenEvents(s, events))
    decreases |events|
  {
    if events == [] {
    } else {
      TokensRun(Step(s, events[0]), events[1..]);
      Denylist.RunAppend(s.tokens, TokenEvents(s, events[0]), AllTokenEvents(Step(s, events[0]), events[1..]));
    }
  }

  // ----- where the granted tokens come from -----

  /** A token that a refresh registered belongs to the user of the row that refresh rotated. */
  predicate FromWinners(s: State) {
    forall jti <- s.from ::
      && jti in s.tokens.issued && s.from[jti] in s.rows.calls
      && var c := s.rows.calls[s.from[jti]];
         Won(c, c.token) && c.token in s.rows.table && s.rows.table[c.token].user == s.tokens.issued[jti].user
  }

  /** A refresh registers one access token at most. */
  predicate OnePerCall(s: State) {
    forall a, b | a in s.from && b in s.from && s.from[a] == s.from[b] :: a == b
  }

  ghost predicate Inv(s: State) {
    Sessions.Inv(s.rows) && Denylist.Inv(s.tokens) && FromWinners(s) && OnePerCall(s)
  }

  lemma EndedStays(s: Sessions.State, e: Sessions.Event, call: CallId)
    requires call in s.calls && s.calls[call].Ended?
    ensures call in Sessions.Step(s, e).calls && Sessions.Step(s, e).calls[call] == s.calls[call]
  {
  }

  lemma RowStepKeeps(s: State, e: Event)
    requires Inv(s) && e.Rows?
    ensures FromWinners(Step(s, e))
  {
    var t := Sessions.Step(s.rows, e.row);
    StepGrows(s.rows, e.row);
    assert Step(s, e) == s.(rows := t);
    forall jti | jti in s.from
      ensures s.from[jti] in t.calls && t.calls[s.from[jti]] == s.rows.calls[s.from[jti]]
    {
      EndedStays(s.rows, e.row, s.from[jti]);
    }
  }

  lemma TokenStepKeeps(s: State, e: Event)
    requires Inv(s) && !e.Rows?
    ensures FromWinners(Step(s, e))
  {
    forall jti | jti in s.from ensures jti in Step(s, e).tokens.issued
                                       && Step(s, e).tokens.issued[jti] == s.tokens.issued[jti] {
      Denylist.RunKeepsToken(s.tokens, TokenEvents(s, e), jti);
    }
    if e.Grant? && Grantable(s, e.call, e.jti) {
      var steps := TokenEvents(s, e);
      assert Denylist.Run(s.tokens, steps) == Denylist.Step(s.tokens, steps[0]) by {
        assert steps[1..] == [];
      }
    }
  }

  lemma StepKeeps(s: State, e: Event)
    requires Inv(s)
    ensures Inv(Step(s, e))
  {
    Denylist.RunKeeps(s.tokens, TokenEvents(s, e));
    if e.Rows? {
      Sessions.StepKeeps(s.rows, e.row);
      RowStepKeeps(s, e);
    } else {
      TokenStepKeeps(s, e);
    }
  }

  lemma {:induction false} RunKeeps(s: State, events: seq<Event>)
    requires Inv(s)
    ensures Inv(Run(s, events))
    decreases |events|
  {
    if events == [] {
    } else {
      StepKeeps(s, events[0]);
      RunKeeps(Step(s, events[0]), events[1..]);
    }
  }

  // ----- refreshes after the rows are revoked -----

  predicate LateWinner(mark: Sessions.State, c: Call) {
    Won(c, c.token) && c.token in mark.table && mark.table[c.token].revocation.Some?
  }

  /** Every refresh that has won with a token revoked at `mark` had won there already. */
  predicate NoLateWinner(mark: Sessions.State, s: Sessions.State) {
    forall call <- s.calls :: LateWinner(mark, s.calls[call]) ==>
      call in mark.calls && mark.calls[call] == s.calls[call]
  }

  lemma {:induction false} NeverLateWinner(mark: Sessions.State, s: Sessions.State, events: seq<Sessions.Event>)
    requires Sessions.Inv(s) && Grows(mark.table, s.table) && NoLateWinner(mark, s)
    ensures NoLateWinner(mark, Sessions.Run(s, events))
    decreases |events|
  {
    if events == [] {
    } else {
      var t := Sessions.Step(s, events[0]);
      StepGrows(s, events[0]);
      Sessions.StepKeeps(s, events[0]);
      assert Grows(mark.table, t.table);
      LateFinish(mark, s, events[0]);
      NeverLateWinner(mark, t, events[1..]);
    }
  }

  lemma LateFinish(mark: Sessions.State, s: Sessions.State, e: Sessions.Event)
    requires Sessions.Inv(s) && Grows(mark.table, s.table) && NoLateWinner(mark, s)
    ensures NoLateWinner(mark, Sessions.Step(s, e))
  {
  }

  /** One owner to a family: rows of it anywhere in the table have the same user. */
  lemma SameUser(t: Table, a: TokenId, b: TokenId)
    requires Linear(t) && a in t && b in t && t[a].family == t[b].family
    ensures t[a].user == t[b].user
  {
    var family := t[a].family;
    assert HasChain(t, family);
    var c :| ChainOf(t, family, c);
    var i :| 0 <= i < |c| && c[i] == a;
    var j :| 0 <= j < |c| && c[j] == b;
    assert Belongs(t, family, c, i) && Belongs(t, family, c, j);
  }

  // ----- main results -----

  /** The moment the rows have been revoked, some steps after the sweep. */
  ghost function AtRevocation(before: seq<Event>, user: UserId, nowSeconds: nat, between: seq<Event>, at: int): State {
    var swept := Step(Run(INIT, before), Tokens(Denylist.DenyAll(user, nowSeconds)));
    Step(Run(swept, between), Rows(EndUser(user, at)))
  }

  lemma AtRevocationInv(before: seq<Event>, user: UserId, nowSeconds: nat, between: seq<Event>, at: int)
    ensures Inv(AtRevocation(before, user, nowSeconds, between, at))
  {
    RunKeeps(INIT, before);
    var swept := Step(Run(INIT, before), Tokens(Denylist.DenyAll(user, nowSeconds)));
    StepKeeps(Run(INIT, before), Tokens(Denylist.DenyAll(user, nowSeconds)));
    RunKeeps(swept, between);
    StepKeeps(Run(swept, between), Rows(EndUser(user, at)));
  }

  /** Which rows survive a logout everywhere: every row of the user that is stored when the rows are revoked
      stays revoked, and a row of the user that is live in any later state is of a family begun since. */
  lemma RowsThatSurvive(before: seq<Event>, user: UserId, nowSeconds: nat, between: seq<Event>, at: int,
                        later: seq<Event>, id: TokenId)
    ensures var mark := AtRevocation(before, user, nowSeconds, between, at).rows.table;
            var t := Run(AtRevocation(before, user, nowSeconds, between, at), later).rows.table;
            && (id in mark && mark[id].user == user ==> mark[id].revocation.Some? && id in t && t[id] == mark[id])
            && (id in t && t[id].user == user && t[id].revocation.None? ==> !Used(mark, t[id].family))
  {
    AtRevocationInv(before, user, nowSeconds, between, at);
    var mark := AtRevocation(before, user, nowSeconds, between, at);
    var end := Run(mark, later);
    RowsRun(mark, later);
    RunGrows(mark.rows, RowEvents(later));
    var t := end.rows.table;
    if id in t && t[id].user == user && t[id].revocation.None? && Used(mark.rows.table, t[id].family) {
      var kept :| kept in mark.rows.table && mark.rows.table[kept].family == t[id].family;
      SameUser(t, id, kept);
      forall other | other in mark.rows.table && mark.rows.table[other].family == t[id].family
        ensures mark.rows.table[other].revocation.Some?
      {
        SameUser(mark.rows.table, other, kept);
      }
      DeadForever(mark.rows, RowEvents(later), t[id].family);
      assert false;
    }
  }

  lemma SweepStep(s: State, user: UserId, nowSeconds: nat)
    ensures var e := Denylist.DenyAll(user, nowSeconds);
            Step(s, Tokens(e)) == s.(tokens := Denylist.Step(s.tokens, e))
  {
    Denylist.RunOne(s.tokens, Denylist.DenyAll(user, nowSeconds));
  }

  lemma SweepFinishes(s: State, user: UserId, nowSeconds: nat, jti: Jti)
    requires Denylist.Inv(s.tokens) && nowSeconds * Denylist.SECOND <= s.tokens.now && jti in s.tokens.issued
    ensures var t := Step(s, Tokens(Denylist.DenyAll(user, nowSeconds))).tokens;
            && Denylist.Inv(t) && jti in t.issued && t.issued[jti] == s.tokens.issued[jti]
            && (t.issued[jti].user == user ==> Denylist.Finished(t, jti))
  {
    SweepStep(s, user, nowSeconds);
    Denylist.StepKeeps(s.tokens, Denylist.DenyAll(user, nowSeconds));
    if s.tokens.issued[jti].user == user {
      Denylist.DenyAllFinishes(s.tokens, user, nowSeconds, jti);
    }
  }

  lemma TokenPersists(s: State, events: seq<Event>, jti: Jti)
    requires Denylist.Inv(s.tokens) && jti in s.tokens.issued
    ensures var t := Run(s, events).tokens;
            && Denylist.Inv(t) && jti in t.issued && t.issued[jti] == s.tokens.issued[jti]
            && (Denylist.Finished(s.tokens, jti) ==> Denylist.Finished(t, jti))
  {
    TokensRun(s, events);
    Denylist.RunKeeps(s.tokens, AllTokenEvents(s, events));
    Denylist.RunKeepsToken(s.tokens, AllTokenEvents(s, events), jti);
  }

  /** Which access tokens survive: one of the user that is accepted in any later state was registered after
      the sweep. */
  lemma TokensThatSurvive(before: seq<Event>, user: UserId, nowSeconds: nat, between: seq<Event>, at: int,
                          later: seq<Event>, jti: Jti)
    requires nowSeconds * Denylist.SECOND <= Run(INIT, before).tokens.now
    ensures var s := Run(INIT, before).tokens;
            var t := Run(AtRevocation(before, user, nowSeconds, between, at), later).tokens;
            jti in t.issued && t.issued[jti].user == user && Denylist.Accepted(t, jti) ==> jti !in s.issued
  {
    RunKeeps(INIT, before);
    var s := Run(INIT, before);
    if jti in s.tokens.issued {
      SweepFinishes(s, user, nowSeconds, jti);
      var swept := Step(s, Tokens(Denylist.DenyAll(user, nowSeconds)));
      TokenPersists(swept, between, jti);
      TokenPersists(AtRevocation(before, user, nowSeconds, between, at), later, jti);
    }
  }

  /** And if a refresh registered a token of the user with a row that was stored when the rows were revoked,
      that refresh had rotated by then. */
  lemma GrantedByEarlierRotation(before: seq<Event>, user: UserId, nowSeconds: nat, between: seq<Event>, at: int,
                                 later: seq<Event>, jti: Jti)
    ensures var mark := AtRevocation(before, user, nowSeconds, between, at).rows;
            var t := Run(AtRevocation(before, user, nowSeconds, between, at), later);
            jti in t.from ==>
              && jti in t.tokens.issued && t.from[jti] in t.rows.calls && t.rows.calls[t.from[jti]].Ended?
              && (t.tokens.issued[jti].user == user && t.rows.calls[t.from[jti]].token in mark.table ==>
                    t.from[jti] in mark.calls && mark.calls[t.from[jti]] == t.rows.calls[t.from[jti]])
  {
    UserRevoked(before, user, nowSeconds, between, at);
    var mark := AtRevocation(before, user, nowSeconds, between, at);
    var t := Run(mark, later);
    LaterWinners(mark, later);
    if jti in t.from {
      WonBefore(mark.rows, t, user, jti);
    }
  }

  lemma UserRevoked(before: seq<Event>, user: UserId, nowSeconds: nat, between: seq<Event>, at: int)
    ensures var mark := AtRevocation(before, user, nowSeconds, between, at);
            && Inv(mark)
            && forall id <- mark.rows.table ::
                 mark.rows.table[id].user == user ==> mark.rows.table[id].revocation.Some?
  {
    AtRevocationInv(before, user, nowSeconds, between, at);
  }

  lemma LaterWinners(mark: State, later: seq<Event>)
    requires Inv(mark)
    ensures var t := Run(mark, later);
            FromWinners(t) && Grows(mark.rows.table, t.rows.table) && NoLateWinner(mark.rows, t.rows)
  {
    RunKeeps(mark, later);
    RowsRun(mark, later);
    RunGrows(mark.rows, RowEvents(later));
    NeverLateWinner(mark.rows, mark.rows, RowEvents(later));
  }

  lemma WonBefore(mark: Sessions.State, t: State, user: UserId, jti: Jti)
    requires FromWinners(t) && Grows(mark.table, t.rows.table) && NoLateWinner(mark, t.rows) && jti in t.from
    requires forall id <- mark.table :: mark.table[id].user == user ==> mark.table[id].revocation.Some?
    ensures jti in t.tokens.issued && t.from[jti] in t.rows.calls && t.rows.calls[t.from[jti]].Ended?
    ensures t.tokens.issued[jti].user == user && t.rows.calls[t.from[jti]].token in mark.table ==>
              t.from[jti] in mark.calls && mark.calls[t.from[jti]] == t.rows.calls[t.from[jti]]
  {
    var c := t.rows.calls[t.from[jti]];
    if t.tokens.issued[jti].user == user && c.token in mark.table {
      assert LateWinner(mark, c);
    }
  }

  // ----- exactly which refreshes outlive the logout -----

  lemma {:induction false} FromGrows(s: State, events: seq<Event>)
    requires Inv(s)
    ensures forall jti <- s.from :: jti in Run(s, events).from && Run(s, events).from[jti] == s.from[jti]
    decreases |events|
  {
    if events == [] {
    } else {
      StepKeeps(s, events[0]);
      FromKept(s, events[0]);
      FromGrows(Step(s, events[0]), events[1..]);
    }
  }

  lemma FromKept(s: State, e: Event)
    requires FromWinners(s)
    ensures forall jti <- s.from :: jti in Step(s, e).from && Step(s, e).from[jti] == s.from[jti]
  {
  }

  lemma FreshJti(taken: set<Jti>) returns (jti: Jti)
    ensures jti !in taken && forall other <- taken :: other < jti
  {
    if taken == {} {
      jti := 0;
    } else {
      var one :| one in taken;
      var rest := FreshJti(taken - {one});
      assert taken == (taken - {one}) + {one};
      jti := if one < rest then rest else one + 1;
    }
  }

  /** The call had rotated by `mark` with a row stored there, and has registered no token yet. */
  predicate Owes(mark: State, call: CallId, user: UserId) {
    && call in mark.rows.calls && Won(mark.rows.calls[call], mark.rows.calls[call].token)
    && mark.rows.calls[call].token in mark.rows.table && mark.rows.table[mark.rows.calls[call].token].user == user
    && forall other <- mark.from :: mark.from[other] != call
  }

  /** In `t` the call has registered a token that was not there at `mark`, with a row of the user stored at
      `mark`, and the token is accepted. */
  predicate LateGrant(mark: State, t: State, call: CallId, user: UserId, jti: Jti) {
    && jti !in mark.tokens.issued && jti in t.from && t.from[jti] == call
    && jti in t.tokens.issued && t.tokens.issued[jti].user == user && Denylist.Accepted(t.tokens, jti)
    && call in t.rows.calls && !t.rows.calls[call].Looked? && t.rows.calls[call].token in mark.rows.table
  }

  /** What is owed can be granted at once, under any new id and with any expiry to come, and is accepted. */
  lemma OwedIsAccepted(mark: State, call: CallId, user: UserId, jti: Jti, expiresAt: nat)
    requires Inv(mark) && Owes(mark, call, user) && jti !in mark.tokens.issued
    requires mark.tokens.now < expiresAt / Denylist.SECOND * Denylist.SECOND
    ensures LateGrant(mark, Step(mark, Grant(call, jti, expiresAt)), call, user, jti)
  {
    GrantStep(mark, call, jti, expiresAt);
  }

  lemma OwedIsGranted(mark: State, call: CallId, user: UserId) returns (later: seq<Event>, jti: Jti)
    requires Inv(mark) && Owes(mark, call, user)
    ensures LateGrant(mark, Run(mark, later), call, user, jti)
  {
    jti := FreshJti(mark.tokens.issued.Keys);
    var seconds := mark.tokens.now / Denylist.SECOND + 1;
    later := [Grant(call, jti, seconds * Denylist.SECOND)];
    OwedIsAccepted(mark, call, user, jti, seconds * Denylist.SECOND);
    var t := Step(mark, later[0]);
    assert later[1..] == [] && Run(t, []) == t;
  }

  /** After the logout is complete, whatever fell between its two steps: a refresh that owes a token may
      register it, and it is accepted. */
  lemma LateGrantSurvives(before: seq<Event>, user: UserId, nowSeconds: nat, between: seq<Event>, at: int,
                          call: CallId, jti: Jti, expiresAt: nat)
    requires var mark := AtRevocation(before, user, nowSeconds, between, at);
             && Owes(mark, call, user) && jti !in mark.tokens.issued
             && mark.tokens.now < expiresAt / Denylist.SECOND * Denylist.SECOND
    ensures var mark := AtRevocation(before, user, nowSeconds, between, at);
            LateGrant(mark, Step(mark, Grant(call, jti, expiresAt)), call, user, jti)
  {
    AtRevocationInv(before, user, nowSeconds, between, at);
    OwedIsAccepted(AtRevocation(before, user, nowSeconds, between, at), call, user, jti, expiresAt);
  }

  /** Only what was owed is ever granted. */
  lemma GrantedWasOwed(mark: State, user: UserId, call: CallId, later: seq<Event>, jti: Jti)
    requires Inv(mark) && LateGrant(mark, Run(mark, later), call, user, jti)
    requires forall id <- mark.rows.table :: mark.rows.table[id].user == user ==> mark.rows.table[id].revocation.Some?
    ensures Owes(mark, call, user)
  {
    var t := Run(mark, later);
    LaterWinners(mark, later);
    WonBefore(mark.rows, t, user, jti);
    RunKeeps(mark, later);
    FromGrows(mark, later);
    forall other | other in mark.from ensures mark.from[other] != call {
      assert other in mark.tokens.issued;
    }
  }

  /** Some continuation has the call register such a token. */
  ghost predicate MayGrant(mark: State, call: CallId, user: UserId) {
    exists later, jti :: LateGrant(mark, Run(mark, later), call, user, jti)
  }

  /** The exact condition: when the rows have been revoked, a refresh with a row of the user stored then can
      still register a token that is accepted, in some continuation, if and only if it had rotated by then and
      registered none yet. */
  lemma LateGrantExactly(before: seq<Event>, user: UserId, nowSeconds: nat, between: seq<Event>, at: int, call: CallId)
    ensures var mark := AtRevocation(before, user, nowSeconds, between, at);
            MayGrant(mark, call, user) <==> Owes(mark, call, user)
  {
    UserRevoked(before, user, nowSeconds, between, at);
    var mark := AtRevocation(before, user, nowSeconds, between, at);
    if MayGrant(mark, call, user) {
      var later, jti :| LateGrant(mark, Run(mark, later), call, user, jti);
      GrantedWasOwed(mark, user, call, later, jti);
    }
    if Owes(mark, call, user) {
      var later, jti := OwedIsGranted(mark, call, user);
      assert LateGrant(mark, Run(mark, later), call, user, jti);
    }
  }

  lemma OneRow(n: NewToken)
    ensures FindByHash(Insert(map[], n), n.hash) == Some(n.id)
  {
    assert n.id in Insert(map[], n) && Insert(map[], n)[n.id].hash == n.hash;
  }

  /** And one does owe: a login, a refresh that looks its row up and rotates it, and then the logout. */
  lemma OwingReached(n: NewToken, nextId: TokenId, nextHash: Hash, now: int, at: int)
    returns (before: seq<Event>)
    requires nextId != n.id && nextHash != n.hash && now <= n.expiresAt
    ensures Owes(AtRevocation(before, n.user, 0, [], at), 0, n.user)
  {
    var login, look := Rows(Login(n)), Rows(LookUp(0, n.hash, now, true));
    var finish := Rows(Finish(0, nextId, nextHash, n.expiresAt, now));
    before := [login, look, finish];
    OneRow(n);
    var s1 := Step(INIT, login);
    assert s1.rows == Sessions.State(Insert(map[], n), map[]);
    var s2 := Step(s1, look);
    assert s2.rows.calls == map[0 := Looked(n.id, n.user, n.family)];
    var s3 := Step(s2, finish);
    RunThree(INIT, login, look, finish);
    assert Won(s3.rows.calls[0], n.id);
    SweepStep(s3, n.user, 0);
  }

  lemma RunThree(s: State, a: Event, b: Event, c: Event)
    ensures Run(s, [a, b, c]) == Step(Step(Step(s, a), b), c)
  {
    var t := Step(Step(s, a), b);
    assert [a, b, c][1..] == [b, c];
    assert Run(s, [a, b, c]) == Run(Step(s, a), [b, c]);
    assert Run(Step(s, a), [b, c]) == Run(t, [c]) by {
      assert [b, c][1..] == [c];
    }
    assert Run(t, [c]) == Step(t, c) by {
      assert [c][1..] == [] && Run(Step(t, c), []) == Step(t, c);
    }
  }

  lemma GrantStep(s: State, call: CallId, jti: Jti, expiresAt: nat)
    requires Grantable(s, call, jti)
    ensures Step(s, Grant(call, jti, expiresAt)).tokens
         == Denylist.Step(s.tokens, Denylist.Register(s.rows.table[s.rows.calls[call].token].user, jti, expiresAt))
  {
    Denylist.RunOne(s.tokens, TokenEvents(s, Grant(call, jti, expiresAt))[0]);
  }
}
