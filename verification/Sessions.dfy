/** Refresh tokens: the rows of `refresh_tokens`, the transactions that change them, and the runs
    in which any number of logins, refreshes and logouts interleave.

    A refresh is two atomic steps, the lookup by hash and the rotation, so other steps may come
    between them. Token hashes are injective ids; new ids and families are fresh. */
module Sessions {
  import opened Wrappers

  type TokenId = nat
  type FamilyId = nat
  type UserId = nat
  type Hash = nat
  type CallId = nat

  datatype Reason = Rotated | ReuseDetected | LoggedOut | LoggedOutAll
  datatype Revocation = Revocation(at: int, reason: Reason)

  datatype Token = Token(
    user: UserId,
    family: FamilyId,
    hash: Hash,
    replacedBy: Option<TokenId>,
    expiresAt: int,
    lastUsedAt: Option<int>,
    revocation: Option<Revocation>)

  type Table = map<TokenId, Token>

  datatype NewToken = NewToken(id: TokenId, user: UserId, family: FamilyId, hash: Hash, expiresAt: int)

  datatype RotateResult = Succeeded(next: TokenId) | Reused | NotFound | InsertFailed

  // ----- the statements, as functions of the table -----

  /** The primary key and the unique index on the hash. */
  predicate Insertable(t: Table, n: NewToken) {
    n.id !in t && forall id | id in t :: t[id].hash != n.hash
  }

  function Insert(t: Table, n: NewToken): Table {
    t[n.id := Token(n.user, n.family, n.hash, None, n.expiresAt, None, None)]
  }

  function Revoked(token: Token, r: Revocation): Token {
    if token.revocation.None? then token.(revocation := Some(r)) else token
  }

  function RevokeFamily(t: Table, family: FamilyId, r: Revocation): Table {
    map id | id in t :: if t[id].family == family then Revoked(t[id], r) else t[id]
  }

  function RevokeAllForUser(t: Table, user: UserId, r: Revocation): Table {
    map id | id in t :: if t[id].user == user then Revoked(t[id], r) else t[id]
  }

  function Replace(t: Table, id: TokenId, next: TokenId, now: int): Table
    requires id in t
  {
    t[id := t[id].(replacedBy := Some(next), lastUsedAt := Some(now), revocation := Some(Revocation(now, Rotated)))]
  }

  predicate Consumed(token: Token) {
    token.revocation.Some? || token.replacedBy.Some?
  }

  function Rotate(t: Table, current: TokenId, n: NewToken, now: int): (Table, RotateResult) {
    if current !in t then (t, NotFound)
    else if Consumed(t[current]) then
      (RevokeFamily(t, t[current].family, Revocation(now, ReuseDetected)), Reused)
    else if !Insertable(t, n) then (t, InsertFailed)
    else (Replace(Insert(t, n), current, n.id, now), Succeeded(n.id))
  }

  ghost function FindByHash(t: Table, hash: Hash): (found: Option<TokenId>)
    ensures found.Some? ==> found.value in t && t[found.value].hash == hash
    ensures found.None? ==> forall id | id in t :: t[id].hash != hash
  {
    if exists id :: id in t && t[id].hash == hash then
      var id :| id in t && t[id].hash == hash; Some(id)
    else None
  }

  // ----- runs -----

  /** A refresh after its lookup remembers the row it read; afterwards, what its rotation said. */
  datatype Call =
    | Looked(token: TokenId, user: UserId, family: FamilyId)
    | Ended(token: TokenId, result: RotateResult)

  datatype State = State(table: Table, calls: map<CallId, Call>)

  datatype Event =
    | Login(token: NewToken)
    | LookUp(call: CallId, hash: Hash, now: int, active: bool)
    | Finish(call: CallId, nextId: TokenId, nextHash: Hash, expiresAt: int, now: int)
    | EndFamily(family: FamilyId, at: int)
    | EndUser(user: UserId, at: int)

  ghost function Step(s: State, e: Event): State {
    match e
    case Login(n) =>
      if Insertable(s.table, n) && !Used(s.table, n.family)
      then s.(table := Insert(s.table, n)) else s
    case LookUp(call, hash, now, active) =>
      var found := FindByHash(s.table, hash);
      if call in s.calls || found.None? || now > s.table[found.value].expiresAt || !active then s
      else
        var row := s.table[found.value];
        s.(calls := s.calls[call := Looked(found.value, row.user, row.family)])
    case Finish(call, nextId, nextHash, expiresAt, now) =>
      if call !in s.calls || !s.calls[call].Looked? then s
      else
        var Looked(token, user, family) := s.calls[call];
        var (table, result) := Rotate(s.table, token, NewToken(nextId, user, family, nextHash, expiresAt), now);
        State(table, s.calls[call := Ended(token, result)])
    case EndFamily(family, at) => s.(table := RevokeFamily(s.table, family, Revocation(at, LoggedOut)))
    case EndUser(user, at) => s.(table := RevokeAllForUser(s.table, user, Revocation(at, LoggedOutAll)))
  }

  ghost function Run(s: State, events: seq<Event>): State
    decreases |events|
  {
    if events == [] then s else Run(Step(s, events[0]), events[1..])
  }

  const INIT := State(map[], map[])

  // ----- the shape of a family -----

  predicate Belongs(t: Table, family: FamilyId, c: seq<TokenId>, i: nat)
    requires i < |c|
  {
    c[i] in t && t[c[i]].family == family && c[0] in t && t[c[i]].user == t[c[0]].user
  }

  predicate Linked(t: Table, c: seq<TokenId>, i: nat)
    requires i + 1 < |c|
  {
    c[i] in t && t[c[i]].replacedBy == Some(c[i + 1]) && t[c[i]].revocation.Some?
  }

  /** `c` lists the tokens of a family from its root: each was replaced by the next one and is
      revoked, the last has no replacement, and all belong to one user. */
  ghost predicate ChainOf(t: Table, family: FamilyId, c: seq<TokenId>) {
    && |c| > 0
    && (forall i {:trigger Belongs(t, family, c, i)} | 0 <= i < |c| :: Belongs(t, family, c, i))
    && (forall id | id in t && t[id].family == family :: id in c)
    && (forall i, j | 0 <= i < j < |c| :: c[i] != c[j])
    && (forall i {:trigger Linked(t, c, i)} | 0 <= i < |c| - 1 :: Linked(t, c, i))
    && Belongs(t, family, c, |c| - 1) && t[c[|c| - 1]].replacedBy == None
  }

  ghost predicate HasChain(t: Table, family: FamilyId) {
    exists c :: ChainOf(t, family, c)
  }

  ghost predicate Used(t: Table, family: FamilyId) {
    exists id :: id in t && t[id].family == family
  }

  ghost predicate Linear(t: Table) {
    forall family {:trigger HasChain(t, family)} :: Used(t, family) ==> HasChain(t, family)
  }

  predicate Dead(t: Table, family: FamilyId) {
    forall id | id in t && t[id].family == family :: t[id].revocation.Some?
  }

  predicate Reached(c: Call, token: TokenId) {
    c.Ended? && c.token == token && (c.result.Succeeded? || c.result.Reused?)
  }

  predicate CallOk(t: Table, c: Call) {
    && (c.Looked? ==> c.token in t && t[c.token].user == c.user && t[c.token].family == c.family)
    && (c.Ended? && c.result.Succeeded? ==>
          c.token in t && t[c.token].replacedBy == Some(c.result.next) && t[c.token].revocation.Some?)
    && (c.Ended? && c.result.Reused? ==> c.token in t && Dead(t, t[c.token].family))
  }

  predicate UniqueHashes(t: Table) {
    forall a, b | a in t && b in t && a != b :: t[a].hash != t[b].hash
  }

  predicate Won(c: Call, token: TokenId) {
    c.Ended? && c.result.Succeeded? && c.token == token
  }

  predicate OneWinner(s: State) {
    forall a, b | a in s.calls && b in s.calls && a != b && s.calls[a].Ended? && Won(s.calls[a], s.calls[a].token) ::
      !Won(s.calls[b], s.calls[a].token)
  }

  ghost predicate Inv(s: State) {
    && Linear(s.table)
    && UniqueHashes(s.table)
    && (forall call <- s.calls :: CallOk(s.table, s.calls[call]))
    && OneWinner(s)
  }

  // ----- what one step does to the rows -----

  /** A row never disappears and keeps its owner, family and hash; once revoked it never changes
      again, so its revocation is written once. */
  ghost predicate Grows(t: Table, u: Table) {
    forall id | id in t ::
      && id in u && u[id].user == t[id].user && u[id].family == t[id].family && u[id].hash == t[id].hash
      && (t[id].revocation.Some? ==> u[id] == t[id])
  }

  lemma StepGrows(s: State, e: Event)
    requires Inv(s)
    ensures Grows(s.table, Step(s, e).table)
  {
  }

  lemma {:induction false} RunGrows(s: State, events: seq<Event>)
    requires Inv(s)
    ensures Inv(Run(s, events)) && Grows(s.table, Run(s, events).table)
    decreases |events|
  {
    if events == [] {
    } else {
      StepGrows(s, events[0]);
      StepKeeps(s, events[0]);
      RunGrows(Step(s, events[0]), events[1..]);
    }
  }

  /** A family whose tokens are all revoked gains no token. */
  lemma DeadStays(s: State, e: Event, family: FamilyId)
    requires Inv(s) && Dead(s.table, family) && Used(s.table, family)
    ensures Dead(Step(s, e).table, family)
  {
  }

  /** A rotation that reaches a token touches no row of another family. */
  lemma OtherFamiliesUntouched(s: State, e: Event, id: TokenId)
    requires Inv(s) && e.Finish? && e.call in s.calls && s.calls[e.call].Looked?
    requires id in s.table && s.table[id].family != s.calls[e.call].family
    ensures id in Step(s, e).table && Step(s, e).table[id] == s.table[id]
    ensures forall added | added in Step(s, e).table && added !in s.table ::
              Step(s, e).table[added].family == s.calls[e.call].family
  {
  }

  // ----- each transaction, row by row -----

  /** Revoking a family gives its unrevoked rows that time and reason, and touches nothing else. */
  lemma FamilyRevocationExactly(t: Table, family: FamilyId, r: Revocation)
    ensures var u := RevokeFamily(t, family, r);
            && u.Keys == t.Keys
            && (forall id <- t :: t[id].family == family && t[id].revocation == None ==>
                                    u[id] == t[id].(revocation := Some(r)))
            && (forall id <- t :: t[id].family != family || t[id].revocation != None ==> u[id] == t[id])
  {
  }

  /** Revoking a user's tokens gives the unrevoked rows of that user, and of no other, that time and reason. */
  lemma UserRevocationExactly(t: Table, user: UserId, r: Revocation)
    ensures var u := RevokeAllForUser(t, user, r);
            && u.Keys == t.Keys
            && (forall id <- t :: t[id].user == user && t[id].revocation == None ==>
                                    u[id] == t[id].(revocation := Some(r)))
            && (forall id <- t :: t[id].user != user || t[id].revocation != None ==> u[id] == t[id])
  {
  }

  /** A token that was revoked or replaced is a reuse, which revokes its family; one that was not is replaced
      by the new row, unless the new id or hash is taken. */
  lemma RotationExactly(t: Table, current: TokenId, n: NewToken, now: int)
    ensures var (u, r) := Rotate(t, current, n, now);
            var used := current in t && (t[current].revocation != None || t[current].replacedBy != None);
            var free := n.id !in t && forall id <- t :: t[id].hash != n.hash;
            && (r == NotFound <==> current !in t)
            && (r == Reused <==> used)
            && (r == InsertFailed <==> current in t && !used && !free)
            && (r == Succeeded(n.id) <==> current in t && !used && free)
            && (r == NotFound || r == InsertFailed ==> u == t)
            && (r == Reused ==>
                  && u.Keys == t.Keys
                  && (forall id <- t :: t[id].family == t[current].family && t[id].revocation == None ==>
                                          u[id] == t[id].(revocation := Some(Revocation(now, ReuseDetected))))
                  && (forall id <- t ::
                        t[id].family != t[current].family || t[id].revocation != None ==> u[id] == t[id]))
            && (r == Succeeded(n.id) ==>
                  && u.Keys == t.Keys + {n.id}
                  && u[n.id] == Token(n.user, n.family, n.hash, None, n.expiresAt, None, None)
                  && u[current] == t[current].(replacedBy := Some(n.id), lastUsedAt := Some(now),
                                               revocation := Some(Revocation(now, Rotated)))
                  && (forall id <- t :: id != current ==> u[id] == t[id]))
  {
  }

  /** A refresh gets past its lookup exactly with the hash of a stored row that has not expired, for an active
      user; it then carries that row's token, user and family. */
  lemma LookUpExactly(s: State, call: CallId, hash: Hash, now: int, active: bool)
    requires UniqueHashes(s.table) && call !in s.calls
    ensures var t := Step(s, LookUp(call, hash, now, active));
            && t.table == s.table
            && (call in t.calls <==>
                  active && exists id <- s.table :: s.table[id].hash == hash && now <= s.table[id].expiresAt)
            && (call in t.calls ==>
                  && t.calls[call].Looked? && t.calls[call].token in s.table
                  && var row := s.table[t.calls[call].token];
                     row.hash == hash && t.calls[call].user == row.user && t.calls[call].family == row.family)
  {
  }

  /** A login stores its row under a new id, hash and family; a refresh that looked its row up rotates that row
      to one of the same user and family; a logout ends a family, a logout everywhere a user's tokens. */
  lemma StepExactly(s: State, e: Event)
    ensures e.Login? ==>
              var n := e.token;
              var free := n.id !in s.table && forall id <- s.table ::
                            s.table[id].hash != n.hash && s.table[id].family != n.family;
              var row := Token(n.user, n.family, n.hash, None, n.expiresAt, None, None);
              Step(s, e) == (if free then s.(table := s.table[n.id := row]) else s)
    ensures e.Finish? && e.call in s.calls && s.calls[e.call].Looked? ==>
              var c := s.calls[e.call];
              var n := NewToken(e.nextId, c.user, c.family, e.nextHash, e.expiresAt);
              var (table, result) := Rotate(s.table, c.token, n, e.now);
              Step(s, e) == State(table, s.calls[e.call := Ended(c.token, result)])
    ensures e.EndFamily? ==> Step(s, e) == s.(table := RevokeFamily(s.table, e.family, Revocation(e.at, LoggedOut)))
    ensures e.EndUser? ==> Step(s, e) == s.(table := RevokeAllForUser(s.table, e.user, Revocation(e.at, LoggedOutAll)))
  {
  }

  // ----- the chain invariant -----

  lemma SameShape(t: Table, u: Table, family: FamilyId, c: seq<TokenId>)
    requires ChainOf(t, family, c)
    requires forall id | id in t :: id in u
    requires forall id | id in u && u[id].family == family :: id in t
    requires forall id | id in t :: u[id].family == t[id].family && u[id].user == t[id].user
    requires forall id | id in t && t[id].family == family ::
               u[id].replacedBy == t[id].replacedBy && (t[id].revocation.Some? ==> u[id].revocation.Some?)
    ensures ChainOf(u, family, c)
  {
    forall i | 0 <= i < |c| ensures Belongs(u, family, c, i) {
      assert Belongs(t, family, c, i);
    }
    forall i | 0 <= i < |c| - 1 ensures Linked(u, c, i) {
      assert Linked(t, c, i) && Belongs(t, family, c, i);
    }
  }

  lemma RevocationKeepsLinear(t: Table, u: Table)
    requires Linear(t) && u.Keys == t.Keys
    requires forall id | id in t ::
               u[id] == t[id] || (u[id].revocation.Some? && u[id] == t[id].(revocation := u[id].revocation))
    ensures Linear(u)
  {
    forall family | Used(u, family) ensures HasChain(u, family) {
      var id :| id in u && u[id].family == family;
      assert t[id].family == family;
      assert HasChain(t, family);
      var c :| ChainOf(t, family, c);
      SameShape(t, u, family, c);
    }
  }

  lemma LoginKeepsLinear(t: Table, n: NewToken)
    requires Linear(t) && Insertable(t, n) && !Used(t, n.family)
    ensures Linear(Insert(t, n))
  {
    var u := Insert(t, n);
    forall family | Used(u, family) ensures HasChain(u, family) {
      if family == n.family {
        assert Belongs(u, family, [n.id], 0);
        assert ChainOf(u, family, [n.id]);
      } else {
        var id :| id in u && u[id].family == family;
        assert t[id].family == family;
        assert HasChain(t, family);
        var c :| ChainOf(t, family, c);
        SameShape(t, u, family, c);
      }
    }
  }

  /** Only the tip of a chain can be unconsumed, so a rotation extends the chain at its end. */
  lemma RotationExtendsChain(t: Table, current: TokenId, n: NewToken, now: int, c: seq<TokenId>)
    requires current in t && !Consumed(t[current]) && Insertable(t, n)
    requires n.family == t[current].family && n.user == t[current].user
    requires ChainOf(t, n.family, c)
    ensures ChainOf(Replace(Insert(t, n), current, n.id, now), n.family, c + [n.id])
  {
    var u := Replace(Insert(t, n), current, n.id, now);
    var d := c + [n.id];
    var i :| 0 <= i < |c| && c[i] == current;
    assert i < |c| - 1 ==> Linked(t, c, i);
    forall j | 0 <= j < |c| ensures d[j] == c[j] && d[j] != n.id && Belongs(u, n.family, d, j) {
      assert Belongs(t, n.family, c, j) && Belongs(t, n.family, c, i);
    }
    assert Belongs(u, n.family, d, |c|) by {
      assert Belongs(t, n.family, c, i);
    }
    forall j | 0 <= j < |c| ensures Linked(u, d, j) {
      if j < i {
        assert Linked(t, c, j);
        assert d[j + 1] == c[j + 1];
      }
    }
  }

  lemma RotationKeepsLinear(t: Table, current: TokenId, n: NewToken, now: int)
    requires Linear(t) && current in t && !Consumed(t[current]) && Insertable(t, n)
    requires n.family == t[current].family && n.user == t[current].user
    ensures Linear(Replace(Insert(t, n), current, n.id, now))
  {
    var u := Replace(Insert(t, n), current, n.id, now);
    forall family | Used(u, family) ensures HasChain(u, family) {
      var id :| id in u && u[id].family == family;
      if family == n.family {
        assert t[current].family == family;
        assert HasChain(t, family);
        var c :| ChainOf(t, family, c);
        RotationExtendsChain(t, current, n, now, c);
      } else {
        assert t[id].family == family;
        assert HasChain(t, family);
        var c :| ChainOf(t, family, c);
        SameShape(t, u, family, c);
      }
    }
  }

  lemma StepKeepsLinear(s: State, e: Event)
    requires Inv(s)
    ensures Linear(Step(s, e).table)
  {
    var t := Step(s, e);
    match e
    case Login(n) => if t != s { LoginKeepsLinear(s.table, n); }
    case Finish(call, nextId, nextHash, expiresAt, now) =>
      if t != s {
        var Looked(token, user, family) := s.calls[call];
        var n := NewToken(nextId, user, family, nextHash, expiresAt);
        if Consumed(s.table[token]) {
          RevocationKeepsLinear(s.table, t.table);
        } else if Insertable(s.table, n) {
          RotationKeepsLinear(s.table, token, n, now);
        }
      }
    case EndFamily(_, _) => RevocationKeepsLinear(s.table, t.table);
    case EndUser(_, _) => RevocationKeepsLinear(s.table, t.table);
    case LookUp(_, _, _, _) =>
  }

  lemma CallsStayOk(s: State, e: Event, call: CallId)
    requires Inv(s) && call in s.calls && Step(s, e).calls[call] == s.calls[call]
    ensures CallOk(Step(s, e).table, s.calls[call])
  {
    StepGrows(s, e);
    var c := s.calls[call];
    if c.Ended? && c.result.Reused? {
      DeadStays(s, e, s.table[c.token].family);
    }
  }

  lemma StepKeepsHashes(s: State, e: Event)
    requires UniqueHashes(s.table)
    ensures UniqueHashes(Step(s, e).table)
  {
  }

  lemma StepKeepsWinner(s: State, e: Event)
    requires OneWinner(s) && forall call <- s.calls :: CallOk(s.table, s.calls[call])
    ensures OneWinner(Step(s, e))
  {
  }

  lemma CallsKept(s: State, e: Event)
    requires Inv(s)
    ensures forall call <- Step(s, e).calls :: CallOk(Step(s, e).table, Step(s, e).calls[call])
  {
    var t := Step(s, e);
    forall call | call in t.calls ensures CallOk(t.table, t.calls[call]) {
      if call in s.calls && t.calls[call] == s.calls[call] {
        CallsStayOk(s, e, call);
      }
    }
  }

  lemma StepKeeps(s: State, e: Event)
    requires Inv(s)
    ensures Inv(Step(s, e))
  {
    StepKeepsLinear(s, e);
    StepKeepsHashes(s, e);
    StepKeepsWinner(s, e);
    CallsKept(s, e);
  }

  // ----- main results -----

  /** In every reachable state each family is one linear chain with one root and one owner. */
  lemma FamilyShape(events: seq<Event>, family: FamilyId)
    ensures var t := Run(INIT, events).table; Used(t, family) ==> HasChain(t, family)
  {
    RunGrows(INIT, events);
  }

  /** Following `replaced_by` from any token of a chain moves strictly towards its tip. */
  lemma ChainAcyclic(t: Table, family: FamilyId, c: seq<TokenId>, i: nat)
    requires ChainOf(t, family, c) && i < |c|
    ensures c[i] in t
    ensures t[c[i]].replacedBy.Some? ==> i + 1 < |c| && t[c[i]].replacedBy.value == c[i + 1] && c[i + 1] !in c[..i + 1]
    ensures t[c[i]].revocation.None? ==> i == |c| - 1
  {
    assert Belongs(t, family, c, i);
    if i < |c| - 1 {
      assert Linked(t, c, i);
    }
  }

  lemma AtMostOneLive(t: Table, a: TokenId, b: TokenId)
    requires Linear(t) && a in t && b in t && t[a].family == t[b].family
    requires t[a].revocation.None? && t[b].revocation.None?
    ensures a == b
  {
    var family := t[a].family;
    assert HasChain(t, family);
    var c :| ChainOf(t, family, c);
    var i :| 0 <= i < |c| && c[i] == a;
    var j :| 0 <= j < |c| && c[j] == b;
    ChainAcyclic(t, family, c, i);
    ChainAcyclic(t, family, c, j);
  }

  lemma {:induction false} DeadForever(s: State, events: seq<Event>, family: FamilyId)
    requires Inv(s) && Dead(s.table, family) && Used(s.table, family)
    ensures Dead(Run(s, events).table, family)
    decreases |events|
  {
    if events == [] {
    } else {
      var id :| id in s.table && s.table[id].family == family;
      StepKeeps(s, events[0]);
      StepGrows(s, events[0]);
      DeadStays(s, events[0], family);
      assert Step(s, events[0]).table[id].family == family;
      DeadForever(Step(s, events[0]), events[1..], family);
    }
  }

  /** Two refreshes that reach the rotation with one token: at most one succeeds, and the family
      has no unrevoked token, now and in every later state. */
  lemma SingleUse(before: seq<Event>, later: seq<Event>, a: CallId, b: CallId, token: TokenId)
    requires var s := Run(INIT, before);
             a != b && a in s.calls && b in s.calls && Reached(s.calls[a], token) && Reached(s.calls[b], token)
    ensures var s := Run(INIT, before);
            && !(s.calls[a].result.Succeeded? && s.calls[b].result.Succeeded?)
            && token in s.table
            && Dead(s.table, s.table[token].family)
            && Dead(Run(s, later).table, s.table[token].family)
  {
    RunGrows(INIT, before);
    var s := Run(INIT, before);
    assert CallOk(s.table, s.calls[a]) && CallOk(s.table, s.calls[b]);
    DeadForever(s, later, s.table[token].family);
  }

  /** A token revoked once can never be refreshed: every rotation that reaches it later is a reuse. */
  lemma RevokedNeverRotates(s: State, events: seq<Event>, token: TokenId, n: NewToken, now: int)
    requires Inv(s) && token in s.table && s.table[token].revocation.Some?
    ensures Rotate(Run(s, events).table, token, n, now).1 == Reused
  {
    RunGrows(s, events);
  }
}
