/** The session calls of the authentication service, each as one step over the token table and the
    denylist, and what a completed logout-everywhere promises for ever after. */
module Auth {
  import opened Wrappers
  import opened Sessions
  import Denylist

  datatype State = Stores(sessions: Table, tokens: Denylist.State)

  datatype Answer = Granted(jti: Denylist.Jti, refresh: TokenId) | Fine | Invalid | Unavailable | Failed

  /** How a Redis call ends: `ReplyLost` ran it but the caller sees an error. */
  datatype Delivery = Delivered | NotSent | ReplyLost

  /** The ids and hash drawn for the tokens a call may create. */
  datatype Drawn = Drawn(jti: Denylist.Jti, id: TokenId, hash: Hash)
  datatype Config = Config(refreshTtl: nat, accessTtl: nat)

  function Sign(s: State, user: UserId, jti: Denylist.Jti, cfg: Config): State {
    s.(tokens := Denylist.Step(s.tokens, Denylist.Register(user, jti, s.tokens.now + cfg.accessTtl)))
  }

  function DenyAll(s: State, user: UserId): State {
    s.(tokens := Denylist.Step(s.tokens, Denylist.DenyAll(user, s.tokens.now / Denylist.SECOND)))
  }

  function IssueSession(s: State, user: UserId, family: FamilyId, d: Drawn, cfg: Config, redis: Delivery)
    : (State, Answer)
  {
    if redis == NotSent then (s, Unavailable)
    else
      var signed := Sign(s, user, d.jti, cfg);
      var n := NewToken(d.id, user, family, d.hash, s.tokens.now + cfg.refreshTtl);
      if redis == ReplyLost then (signed, Unavailable)
      else if Insertable(s.sessions, n) then (signed.(sessions := Insert(s.sessions, n)), Granted(d.jti, d.id))
      else (signed, Failed)
  }

  ghost function Refresh(s: State, hash: Hash, active: bool, d: Drawn, cfg: Config, redis: Delivery): (State, Answer) {
    var found := FindByHash(s.sessions, hash);
    if found.None? || s.tokens.now > s.sessions[found.value].expiresAt || !active then (s, Invalid)
    else
      var row := s.sessions[found.value];
      var n := NewToken(d.id, row.user, row.family, d.hash, s.tokens.now + cfg.refreshTtl);
      var (table, result) := Rotate(s.sessions, found.value, n, s.tokens.now);
      var t := s.(sessions := table);
      match result
      case Reused =>
        if redis == NotSent then (t, Unavailable)
        else (DenyAll(t, row.user), if redis == Delivered then Invalid else Unavailable)
      case NotFound => (t, Invalid)
      case InsertFailed => (t, Failed)
      case Succeeded(next) =>
        if redis == NotSent then (t, Unavailable)
        else (Sign(t, row.user, d.jti, cfg), if redis == Delivered then Granted(d.jti, next) else Unavailable)
  }

  ghost function Logout(s: State, user: UserId, jti: Denylist.Jti, exp: nat, refresh: Option<Hash>, redis: Delivery)
    : (State, Answer)
  {
    if redis == NotSent then (s, Unavailable)
    else
      var t := s.(tokens := Denylist.DenyOne(s.tokens, jti, exp * Denylist.SECOND));
      if redis == ReplyLost then (t, Unavailable)
      else if refresh.None? then (t, Fine)
      else
        var found := FindByHash(s.sessions, refresh.value);
        if found.None? || s.sessions[found.value].user != user then (t, Fine)
        else
          var family := s.sessions[found.value].family;
          (t.(sessions := RevokeFamily(s.sessions, family, Revocation(s.tokens.now, LoggedOut))), Fine)
  }

  function LogoutAll(s: State, user: UserId, redis: Delivery): (State, Answer) {
    if redis == NotSent then (s, Unavailable)
    else
      var t := DenyAll(s, user);
      if redis == ReplyLost then (t, Unavailable)
      else (t.(sessions := RevokeAllForUser(s.sessions, user, Revocation(s.tokens.now, LoggedOutAll))), Fine)
  }

  // ----- runs of calls -----

  datatype Call =
    | Login(user: UserId, family: FamilyId, drawn: Drawn, redis: Delivery)
    | Renew(hash: Hash, active: bool, drawn: Drawn, redis: Delivery)
    | Leave(user: UserId, jti: Denylist.Jti, refresh: Option<Hash>, redis: Delivery)
    | LeaveAll(user: UserId, redis: Delivery)
    | Wait(millis: nat)

  /** A login begins a family under a new id. A logout request was authenticated with its access token, so the
      id it denies was issued and the expiry it passes on is that token's. */
  ghost function Do(s: State, c: Call, cfg: Config): State {
    match c
    case Login(user, family, d, redis) =>
      if Used(s.sessions, family) then s else IssueSession(s, user, family, d, cfg, redis).0
    case Renew(hash, active, d, redis) => Refresh(s, hash, active, d, cfg, redis).0
    case Leave(user, jti, refresh, redis) =>
      if jti in s.tokens.issued then Logout(s, user, jti, s.tokens.issued[jti].exp, refresh, redis).0 else s
    case LeaveAll(user, redis) => LogoutAll(s, user, redis).0
    case Wait(millis) => s.(tokens := Denylist.Step(s.tokens, Denylist.Tick(millis)))
  }

  ghost function DoAll(s: State, calls: seq<Call>, cfg: Config): State
    decreases |calls|
  {
    if calls == [] then s else DoAll(Do(s, calls[0], cfg), calls[1..], cfg)
  }

  const INIT := Stores(map[], Denylist.INIT)

  ghost predicate Inv(s: State) {
    UniqueHashes(s.sessions) && Denylist.Inv(s.tokens)
  }

  lemma InsertGrows(t: Table, n: NewToken)
    requires UniqueHashes(t) && Insertable(t, n)
    ensures Grows(t, Insert(t, n)) && UniqueHashes(Insert(t, n))
  {
  }

  lemma RevocationGrows(t: Table, user: UserId, family: FamilyId, r: Revocation)
    requires UniqueHashes(t)
    ensures Grows(t, RevokeFamily(t, family, r)) && UniqueHashes(RevokeFamily(t, family, r))
    ensures Grows(t, RevokeAllForUser(t, user, r)) && UniqueHashes(RevokeAllForUser(t, user, r))
  {
  }

  lemma RotateGrows(t: Table, current: TokenId, n: NewToken, now: int)
    requires UniqueHashes(t)
    ensures Grows(t, Rotate(t, current, n, now).0) && UniqueHashes(Rotate(t, current, n, now).0)
  {
    if current in t {
      if Consumed(t[current]) {
        RevocationGrows(t, 0, t[current].family, Revocation(now, ReuseDetected));
      } else if Insertable(t, n) {
        InsertGrows(t, n);
      }
    }
  }

  lemma RefreshGrows(s: State, hash: Hash, active: bool, d: Drawn, cfg: Config, redis: Delivery)
    requires UniqueHashes(s.sessions)
    ensures var t := Refresh(s, hash, active, d, cfg, redis).0;
            Grows(s.sessions, t.sessions) && UniqueHashes(t.sessions)
  {
    var found := FindByHash(s.sessions, hash);
    if found.Some? {
      var row := s.sessions[found.value];
      RotateGrows(s.sessions, found.value,
                  NewToken(d.id, row.user, row.family, d.hash, s.tokens.now + cfg.refreshTtl), s.tokens.now);
    }
  }

  lemma LogoutGrows(s: State, user: UserId, jti: Denylist.Jti, exp: nat, refresh: Option<Hash>, redis: Delivery)
    requires UniqueHashes(s.sessions)
    ensures var t := Logout(s, user, jti, exp, refresh, redis).0;
            Grows(s.sessions, t.sessions) && UniqueHashes(t.sessions)
  {
    if refresh.Some? {
      var found := FindByHash(s.sessions, refresh.value);
      if found.Some? {
        RevocationGrows(s.sessions, 0, s.sessions[found.value].family, Revocation(s.tokens.now, LoggedOut));
      }
    }
  }

  lemma DoGrows(s: State, c: Call, cfg: Config)
    requires UniqueHashes(s.sessions)
    ensures Grows(s.sessions, Do(s, c, cfg).sessions) && UniqueHashes(Do(s, c, cfg).sessions)
  {
    match c
    case Login(user, family, d, _) =>
      var n := NewToken(d.id, user, family, d.hash, s.tokens.now + cfg.refreshTtl);
      if Insertable(s.sessions, n) {
        InsertGrows(s.sessions, n);
      }
    case Renew(hash, active, d, redis) => RefreshGrows(s, hash, active, d, cfg, redis);
    case Leave(user, jti, refresh, redis) =>
      if jti in s.tokens.issued {
        LogoutGrows(s, user, jti, s.tokens.issued[jti].exp, refresh, redis);
      }
    case LeaveAll(user, _) => RevocationGrows(s.sessions, user, 0, Revocation(s.tokens.now, LoggedOutAll));
    case Wait(_) =>
  }

  /** Whatever a call does to the access tokens is at most one event of the denylist. */
  lemma DoIsDenylistRun(s: State, c: Call, cfg: Config) returns (events: seq<Denylist.Event>)
    ensures |events| <= 1 && Do(s, c, cfg).tokens == Denylist.Run(s.tokens, events)
  {
    var nowSeconds := s.tokens.now / Denylist.SECOND;
    events := [];
    if Do(s, c, cfg).tokens != s.tokens {
      match c
      case Login(user, _, d, _) => events := [Denylist.Register(user, d.jti, s.tokens.now + cfg.accessTtl)];
      case Renew(hash, _, d, _) =>
        var row := s.sessions[FindByHash(s.sessions, hash).value];
        events := [if Consumed(row) then Denylist.DenyAll(row.user, nowSeconds)
                   else Denylist.Register(row.user, d.jti, s.tokens.now + cfg.accessTtl)];
      case Leave(_, jti, _, _) => events := [Denylist.Deny(jti)];
      case LeaveAll(user, _) => events := [Denylist.DenyAll(user, nowSeconds)];
      case Wait(millis) => events := [Denylist.Tick(millis)];
      assert Denylist.Run(s.tokens, events) == Denylist.Step(s.tokens, events[0]) by {
        assert events[1..] == [];
      }
    }
  }

  lemma {:induction false} DoAllKeeps(s: State, calls: seq<Call>, cfg: Config, id: TokenId, jti: Denylist.Jti)
    requires Inv(s)
    ensures var t := DoAll(s, calls, cfg);
            && Inv(t)
            && (id in s.sessions ==> id in t.sessions && t.sessions[id].hash == s.sessions[id].hash)
            && (id in s.sessions && s.sessions[id].revocation.Some? ==> t.sessions[id] == s.sessions[id])
            && (jti in s.tokens.issued ==> jti in t.tokens.issued)
            && (jti in s.tokens.issued && Denylist.Finished(s.tokens, jti) ==> Denylist.Finished(t.tokens, jti))
    decreases |calls|
  {
    if calls == [] {
    } else {
      DoGrows(s, calls[0], cfg);
      var events := DoIsDenylistRun(s, calls[0], cfg);
      Denylist.RunKeeps(s.tokens, events);
      if jti in s.tokens.issued {
        Denylist.RunKeepsToken(s.tokens, events, jti);
      }
      DoAllKeeps(Do(s, calls[0], cfg), calls[1..], cfg, id, jti);
    }
  }

  lemma LogoutAllKeeps(before: seq<Call>, user: UserId, cfg: Config)
    ensures Inv(DoAll(INIT, before, cfg)) && Inv(LogoutAll(DoAll(INIT, before, cfg), user, Delivered).0)
  {
    DoAllKeeps(INIT, before, cfg, 0, 0);
    var s := DoAll(INIT, before, cfg);
    Denylist.StepKeeps(s.tokens, Denylist.DenyAll(user, s.tokens.now / Denylist.SECOND));
    DoGrows(s, LeaveAll(user, Delivered), cfg);
  }

  lemma AccessEnds(before: seq<Call>, user: UserId, later: seq<Call>, cfg: Config, jti: Denylist.Jti)
    requires var s := DoAll(INIT, before, cfg).tokens; jti in s.issued && s.issued[jti].user == user
    ensures var s := DoAll(INIT, before, cfg);
            var t := DoAll(LogoutAll(s, user, Delivered).0, later, cfg).tokens;
            jti in t.issued && !Denylist.Accepted(t, jti)
  {
    LogoutAllKeeps(before, user, cfg);
    var s := DoAll(INIT, before, cfg);
    Denylist.DenyAllFinishes(s.tokens, user, s.tokens.now / Denylist.SECOND, jti);
    DoAllKeeps(LogoutAll(s, user, Delivered).0, later, cfg, 0, jti);
  }

  lemma RefreshEnds(before: seq<Call>, user: UserId, later: seq<Call>, cfg: Config,
                    id: TokenId, d: Drawn, active: bool, redis: Delivery)
    requires var s := DoAll(INIT, before, cfg).sessions; id in s && s[id].user == user
    ensures var s := DoAll(INIT, before, cfg);
            var t := DoAll(LogoutAll(s, user, Delivered).0, later, cfg);
            !Refresh(t, s.sessions[id].hash, active, d, cfg, redis).1.Granted?
  {
    LogoutAllKeeps(before, user, cfg);
    var s := DoAll(INIT, before, cfg);
    var out := LogoutAll(s, user, Delivered).0;
    var t := DoAll(out, later, cfg);
    DoAllKeeps(out, later, cfg, id, 0);
    assert out.sessions[id].revocation.Some?;
    assert t.sessions[id] == out.sessions[id];
    assert FindByHash(t.sessions, s.sessions[id].hash) == Some(id);
  }

  /** After a successful logout everywhere no credential the user was given before works again: no
      earlier access token is ever accepted, and no earlier refresh token is ever exchanged. */
  lemma LogoutAllIsFinal(before: seq<Call>, user: UserId, later: seq<Call>, cfg: Config,
                         id: TokenId, jti: Denylist.Jti, d: Drawn, active: bool, redis: Delivery)
    ensures var s := DoAll(INIT, before, cfg);
            var t := DoAll(LogoutAll(s, user, Delivered).0, later, cfg);
            && (jti in s.tokens.issued && s.tokens.issued[jti].user == user ==>
                  jti in t.tokens.issued && !Denylist.Accepted(t.tokens, jti))
            && (id in s.sessions && s.sessions[id].user == user ==>
                  !Refresh(t, s.sessions[id].hash, active, d, cfg, redis).1.Granted?)
  {
    var s := DoAll(INIT, before, cfg);
    if jti in s.tokens.issued && s.tokens.issued[jti].user == user {
      AccessEnds(before, user, later, cfg, jti);
    }
    if id in s.sessions && s.sessions[id].user == user {
      RefreshEnds(before, user, later, cfg, id, d, active, redis);
    }
  }

  // ----- each call, over both stores -----

  /** A session is issued exactly when Redis answers and the drawn id and hash are free; the access token is
      registered before, for the configured time, unless Redis was not reached. */
  lemma IssueExactly(s: State, user: UserId, family: FamilyId, d: Drawn, cfg: Config, redis: Delivery)
    ensures var (t, a) := IssueSession(s, user, family, d, cfg, redis);
            var free := d.id !in s.sessions && forall id <- s.sessions :: s.sessions[id].hash != d.hash;
            && (a == Granted(d.jti, d.id) <==> redis == Delivered && free)
            && (a == Failed <==> redis == Delivered && !free)
            && (a == Unavailable <==> redis != Delivered)
            && t.tokens == (if redis == NotSent then s.tokens
                            else Denylist.Step(s.tokens, Denylist.Register(user, d.jti, s.tokens.now + cfg.accessTtl)))
            && t.sessions == (if a.Granted?
                              then s.sessions[d.id := Token(user, family, d.hash, None, s.tokens.now + cfg.refreshTtl,
                                                            None, None)]
                              else s.sessions)
  {
  }

  /** A hash that names no row, or an expired one, or whose user is not active, is refused and changes nothing. */
  lemma RefreshRefused(s: State, hash: Hash, active: bool, d: Drawn, cfg: Config, redis: Delivery)
    requires UniqueHashes(s.sessions)
    requires !active || forall id <- s.sessions ::
               s.sessions[id].hash == hash ==> s.tokens.now > s.sessions[id].expiresAt
    ensures Refresh(s, hash, active, d, cfg, redis) == (s, Invalid)
  {
  }

  /** Any other refresh rotates the row its hash names. A reuse ends all access tokens of its user; a rotation
      registers the next one; Redis must be reached for either, and answer for the caller to hear of it. */
  lemma RefreshExactly(s: State, id: TokenId, d: Drawn, cfg: Config, redis: Delivery)
    requires UniqueHashes(s.sessions) && id in s.sessions && s.tokens.now <= s.sessions[id].expiresAt
    ensures var row := s.sessions[id];
            var (t, a) := Refresh(s, row.hash, true, d, cfg, redis);
            var n := NewToken(d.id, row.user, row.family, d.hash, s.tokens.now + cfg.refreshTtl);
            var used := row.revocation != None || row.replacedBy != None;
            var free := d.id !in s.sessions && forall other <- s.sessions :: s.sessions[other].hash != d.hash;
            && t.sessions == Rotate(s.sessions, id, n, s.tokens.now).0
            && (used ==>
                  && t.tokens == (if redis == NotSent then s.tokens
                                  else Denylist.Step(s.tokens, Denylist.DenyAll(row.user, s.tokens.now / 1000)))
                  && a == (if redis == Delivered then Invalid else Unavailable))
            && (!used && free ==>
                  && t.tokens == (if redis == NotSent then s.tokens
                                  else Denylist.Step(s.tokens, Denylist.Register(row.user, d.jti,
                                                                                 s.tokens.now + cfg.accessTtl)))
                  && a == (if redis == Delivered then Granted(d.jti, d.id) else Unavailable))
            && (!used && !free ==> t.tokens == s.tokens && a == Failed)
  {
    assert FindByHash(s.sessions, s.sessions[id].hash) == Some(id);
  }

  /** The refresh token is that of the row, and the row is the caller's. */
  predicate Brings(s: State, user: UserId, refresh: Option<Hash>, id: TokenId) {
    id in s.sessions && refresh == Some(s.sessions[id].hash) && s.sessions[id].user == user
  }

  /** A logout denies the presented access token; and, when Redis answers and the refresh token it brings is the
      caller's own, revokes that token's family. Any other refresh token is ignored. */
  lemma LogoutExactly(s: State, user: UserId, jti: Denylist.Jti, exp: nat, refresh: Option<Hash>, redis: Delivery)
    requires UniqueHashes(s.sessions)
    ensures var (t, a) := Logout(s, user, jti, exp, refresh, redis);
            && (a == Fine <==> redis == Delivered) && (a == Unavailable <==> redis != Delivered)
            && t.tokens == (if redis == NotSent || exp * 1000 <= s.tokens.now then s.tokens
                            else s.tokens.(deny := s.tokens.deny[jti := exp * 1000]))
            && (forall id <- s.sessions :: redis == Delivered && Brings(s, user, refresh, id) ==>
                  t.sessions == RevokeFamily(s.sessions, s.sessions[id].family, Revocation(s.tokens.now, LoggedOut)))
            && ((redis != Delivered || forall id <- s.sessions :: !Brings(s, user, refresh, id)) ==>
                  t.sessions == s.sessions)
  {
    if refresh.Some? {
      forall id | id in s.sessions && s.sessions[id].hash == refresh.value
        ensures FindByHash(s.sessions, refresh.value) == Some(id)
      {
      }
    }
  }

  lemma LogoutAllExactly(s: State, user: UserId, redis: Delivery)
    ensures var (t, a) := LogoutAll(s, user, redis);
            && (a == Fine <==> redis == Delivered) && (a == Unavailable <==> redis != Delivered)
            && t.tokens == (if redis == NotSent then s.tokens
                            else Denylist.Step(s.tokens, Denylist.DenyAll(user, s.tokens.now / 1000)))
            && t.sessions == (if redis == Delivered
                              then RevokeAllForUser(s.sessions, user, Revocation(s.tokens.now, LoggedOutAll))
                              else s.sessions)
  {
  }

  /** A call does to the stores what its operation does; a login begins a new family. */
  lemma DoExactly(s: State, cfg: Config, user: UserId, family: FamilyId, d: Drawn, redis: Delivery,
                  hash: Hash, active: bool, millis: nat)
    ensures (forall id <- s.sessions :: s.sessions[id].family != family) ==>
              Do(s, Call.Login(user, family, d, redis), cfg) == IssueSession(s, user, family, d, cfg, redis).0
    ensures Do(s, Renew(hash, active, d, redis), cfg) == Refresh(s, hash, active, d, cfg, redis).0
    ensures Do(s, LeaveAll(user, redis), cfg) == LogoutAll(s, user, redis).0
    ensures Do(s, Wait(millis), cfg) == Stores(s.sessions, s.tokens.(now := s.tokens.now + millis))
  {
  }

  // ----- what a detected reuse and a logout end -----

  lemma RotationKeepsDead(t: Table, current: TokenId, n: NewToken, now: int, family: FamilyId)
    requires current in t && n.family == t[current].family && Dead(t, family)
    ensures Dead(Rotate(t, current, n, now).0, family)
  {
    RotationExactly(t, current, n, now);
  }

  lemma DoKeepsDead(s: State, c: Call, cfg: Config, family: FamilyId)
    requires UniqueHashes(s.sessions) && Dead(s.sessions, family) && Used(s.sessions, family)
    ensures Dead(Do(s, c, cfg).sessions, family) && Used(Do(s, c, cfg).sessions, family)
  {
    var id :| id in s.sessions && s.sessions[id].family == family;
    DoGrows(s, c, cfg);
    assert id in Do(s, c, cfg).sessions && Do(s, c, cfg).sessions[id].family == family;
    if c.Renew? {
      var found := FindByHash(s.sessions, c.hash);
      if found.Some? {
        var row := s.sessions[found.value];
        var n := NewToken(c.drawn.id, row.user, row.family, c.drawn.hash, s.tokens.now + cfg.refreshTtl);
        RotationKeepsDead(s.sessions, found.value, n, s.tokens.now, family);
      }
    }
  }

  lemma {:induction false} DeadAllAlong(s: State, calls: seq<Call>, cfg: Config, family: FamilyId)
    requires UniqueHashes(s.sessions) && Dead(s.sessions, family) && Used(s.sessions, family)
    ensures Dead(DoAll(s, calls, cfg).sessions, family)
    decreases |calls|
  {
    if calls == [] {
    } else {
      DoGrows(s, calls[0], cfg);
      DoKeepsDead(s, calls[0], cfg, family);
      DeadAllAlong(Do(s, calls[0], cfg), calls[1..], cfg, family);
    }
  }

  /** A refresh token that was revoked or replaced is presented again, unexpired, while Redis can be reached:
      its family has no unrevoked token from then on, and no access token issued before to its user is
      accepted in any later state. */
  lemma ReuseEndsAll(before: seq<Call>, id: TokenId, d: Drawn, redis: Delivery, later: seq<Call>, cfg: Config,
                     jti: Denylist.Jti)
    requires var s := DoAll(INIT, before, cfg);
             && id in s.sessions && s.tokens.now <= s.sessions[id].expiresAt && redis != NotSent
             && (s.sessions[id].revocation.Some? || s.sessions[id].replacedBy.Some?)
    ensures var s := DoAll(INIT, before, cfg);
            var row := s.sessions[id];
            var t := DoAll(Do(s, Renew(row.hash, true, d, redis), cfg), later, cfg);
            && (forall other <- t.sessions ::
                  t.sessions[other].family == row.family ==> t.sessions[other].revocation.Some?)
            && (jti in s.tokens.issued && s.tokens.issued[jti].user == row.user ==>
                  jti in t.tokens.issued && !Denylist.Accepted(t.tokens, jti))
  {
    DoAllKeeps(INIT, before, cfg, id, jti);
    var s := DoAll(INIT, before, cfg);
    var row := s.sessions[id];
    var c := Renew(row.hash, true, d, redis);
    var out := Do(s, c, cfg);
    RefreshExactly(s, id, d, cfg, redis);
    var n := NewToken(d.id, row.user, row.family, d.hash, s.tokens.now + cfg.refreshTtl);
    RotationExactly(s.sessions, id, n, s.tokens.now);
    assert Used(out.sessions, row.family) by {
      assert id in out.sessions && out.sessions[id].family == row.family;
    }
    DoGrows(s, c, cfg);
    DeadAllAlong(out, later, cfg, row.family);
    if jti in s.tokens.issued && s.tokens.issued[jti].user == row.user {
      Denylist.DenyAllFinishes(s.tokens, row.user, s.tokens.now / 1000, jti);
      Denylist.StepKeeps(s.tokens, Denylist.DenyAll(row.user, s.tokens.now / 1000));
      DoAllKeeps(out, later, cfg, id, jti);
    }
  }

  /** After a successful logout the presented access token is never accepted again, and the family of the
      refresh token it brought, if that was the caller's, has no unrevoked token in any later state. */
  lemma LogoutIsFinal(before: seq<Call>, user: UserId, jti: Denylist.Jti, id: TokenId, later: seq<Call>, cfg: Config)
    requires var s := DoAll(INIT, before, cfg);
             jti in s.tokens.issued && id in s.sessions && s.sessions[id].user == user
    ensures var s := DoAll(INIT, before, cfg);
            var t := DoAll(Do(s, Leave(user, jti, Some(s.sessions[id].hash), Delivered), cfg), later, cfg);
            && jti in t.tokens.issued && !Denylist.Accepted(t.tokens, jti)
            && (forall other <- t.sessions ::
                  t.sessions[other].family == s.sessions[id].family ==> t.sessions[other].revocation.Some?)
  {
    DoAllKeeps(INIT, before, cfg, id, jti);
    var s := DoAll(INIT, before, cfg);
    var row := s.sessions[id];
    var c := Leave(user, jti, Some(row.hash), Delivered);
    var out := Do(s, c, cfg);
    LogoutExactly(s, user, jti, s.tokens.issued[jti].exp, Some(row.hash), Delivered);
    FamilyRevocationExactly(s.sessions, row.family, Revocation(s.tokens.now, LoggedOut));
    assert Used(out.sessions, row.family) by {
      assert id in out.sessions && out.sessions[id].family == row.family;
    }
    DoGrows(s, c, cfg);
    DeadAllAlong(out, later, cfg, row.family);
    var events := DoIsDenylistRun(s, c, cfg);
    Denylist.RunKeeps(s.tokens, events);
    Denylist.RunKeepsToken(s.tokens, events, jti);
    DoAllKeeps(out, later, cfg, id, jti);
  }
}
