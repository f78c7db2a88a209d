/** The authentication service as the program runs it, over the two stores it changes. */
module AuthService {
  import opened Wrappers
  import opened Sessions
  import opened Auth
  import Denylist
  import SessionRepository
  import TokenDenylist

  class Service {
    const cfg: Config
    const sessions: SessionRepository.Repository
    const denylist: TokenDenylist.Redis
    var now: nat
    ghost var issued: map<Denylist.Jti, Denylist.Access>

    constructor (cfg: Config, sessions: SessionRepository.Repository, denylist: TokenDenylist.Redis, now: nat)
      ensures this.cfg == cfg && this.sessions == sessions && this.denylist == denylist
      ensures this.now == now && issued == map[]
    {
      this.cfg, this.sessions, this.denylist, this.now := cfg, sessions, denylist, now;
      issued := map[];
    }

    ghost function View(): Auth.State
      reads this, sessions, denylist
    {
      Stores(sessions.tokens, Denylist.State(now, denylist.active, denylist.deny, issued))
    }

    /** Signs an access token and records its id. The id is a new UUID. */
    method Register(user: UserId, jti: Denylist.Jti)
      requires jti !in issued
      modifies this`issued, denylist`active
      ensures View() == Sign(old(View()), user, jti, cfg)
    {
      var expiresAt := now + cfg.accessTtl;
      denylist.RegisterActive(user, jti, expiresAt);
      issued := issued[jti := Denylist.Access(user, expiresAt / Denylist.SECOND)];
    }

    method DenylistAllActive(user: UserId)
      modifies denylist
      ensures View() == DenyAll(old(View()), user)
    {
      var nowSeconds := now / Denylist.SECOND;
      denylist.DenyAllActive(user, nowSeconds, now);
    }

    method IssueSession(user: UserId, family: FamilyId, d: Drawn, redis: Delivery) returns (answer: Answer)
      requires d.jti !in issued
      modifies this, sessions, denylist
      ensures (View(), answer) == Auth.IssueSession(old(View()), user, family, d, cfg, redis)
    {
      if redis == NotSent {
        return Unavailable;
      }
      Register(user, d.jti);
      if redis == ReplyLost {
        return Unavailable;
      }
      var ok := sessions.Create(NewToken(d.id, user, family, d.hash, now + cfg.refreshTtl));
      if !ok {
        return Failed;
      }
      answer := Granted(d.jti, d.id);
    }

    method Refresh(hash: Hash, active: bool, d: Drawn, redis: Delivery) returns (answer: Answer)
      requires UniqueHashes(sessions.tokens) && d.jti !in issued
      modifies this, sessions, denylist
      ensures (View(), answer) == Auth.Refresh(old(View()), hash, active, d, cfg, redis)
    {
      var found := sessions.FindByHash(hash);
      if found.None? {
        return Invalid;
      }
      var row := sessions.tokens[found.value];
      if now > row.expiresAt || !active {
        return Invalid;
      }
      var next := NewToken(d.id, row.user, row.family, d.hash, now + cfg.refreshTtl);
      var result := sessions.Rotate(found.value, next, now);
      match result {
        case Reused =>
          if redis == NotSent {
            return Unavailable;
          }
          DenylistAllActive(row.user);
          return if redis == Delivered then Invalid else Unavailable;
        case NotFound =>
          return Invalid;
        case InsertFailed =>
          return Failed;
        case Succeeded(id) =>
          if redis == NotSent {
            return Unavailable;
          }
          Register(row.user, d.jti);
          return if redis == Delivered then Granted(d.jti, id) else Unavailable;
      }
    }

    method Logout(user: UserId, jti: Denylist.Jti, exp: nat, refresh: Option<Hash>, redis: Delivery)
      returns (answer: Answer)
      requires UniqueHashes(sessions.tokens)
      modifies sessions, denylist
      ensures (View(), answer) == Auth.Logout(old(View()), user, jti, exp, refresh, redis)
    {
      if redis == NotSent {
        return Unavailable;
      }
      denylist.Deny(jti, exp * Denylist.SECOND, now);
      if redis == ReplyLost {
        return Unavailable;
      }
      answer := Fine;
      if refresh.Some? {
        var found := sessions.FindByHash(refresh.value);
        if found.Some? && sessions.tokens[found.value].user == user {
          sessions.RevokeFamily(sessions.tokens[found.value].family, LoggedOut, now);
        }
      }
    }

    method LogoutAll(user: UserId, redis: Delivery) returns (answer: Answer)
      modifies sessions, denylist
      ensures (View(), answer) == Auth.LogoutAll(old(View()), user, redis)
    {
      if redis == NotSent {
        return Unavailable;
      }
      DenylistAllActive(user);
      if redis == ReplyLost {
        return Unavailable;
      }
      sessions.RevokeAllForUser(user, LoggedOutAll, now);
      answer := Fine;
    }

    /** The check in front of every protected handler, for a token whose signature holds: its own expiry,
        then the denylist. Without an answer from Redis nobody passes. */
    method Authenticate(jti: Denylist.Jti, exp: nat, redis: Delivery) returns (answer: Answer)
      requires jti in issued && issued[jti].exp == exp
      ensures answer.Fine? <==> redis == Delivered && Denylist.Accepted(View().tokens, jti)
      ensures answer.Fine? <==>
                redis == Delivered && now < exp * 1000 && (jti !in denylist.deny || denylist.deny[jti] <= now)
      ensures answer.Unavailable? <==> redis != Delivered && now < exp * Denylist.SECOND
      ensures answer.Fine? || answer.Unavailable? || answer.Invalid?
    {
      if now >= exp * Denylist.SECOND {
        return Invalid;
      }
      if redis != Delivered {
        return Unavailable;
      }
      var revoked := denylist.IsRevoked(jti, now);
      answer := if revoked then Invalid else Fine;
    }
  }
}
