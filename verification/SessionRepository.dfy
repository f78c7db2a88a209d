/** The repository over the token table: one transaction per method, statement by statement. */
module SessionRepository {
  import opened Wrappers
  import opened Sessions

  class Repository {
    var tokens: Table

    constructor ()
      ensures tokens == map[]
    {
      tokens := map[];
    }

    method Create(n: NewToken) returns (ok: bool)
      modifies this
      ensures ok <==> old(Insertable(tokens, n))
      ensures tokens == if ok then Insert(old(tokens), n) else old(tokens)
    {
      ok := Insertable(tokens, n);
      if ok {
        tokens := tokens[n.id := Token(n.user, n.family, n.hash, None, n.expiresAt, None, None)];
      }
    }

    method FindByHash(hash: Hash) returns (found: Option<TokenId>)
      ensures found.Some? ==> found.value in tokens && tokens[found.value].hash == hash
      ensures found.None? ==> forall id | id in tokens :: tokens[id].hash != hash
    {
      if exists id | id in tokens :: tokens[id].hash == hash {
        var id :| id in tokens && tokens[id].hash == hash;
        found := Some(id);
      } else {
        found := None;
      }
    }

    /** Locks the current row, and either ends the family of a consumed token or inserts the next
        token and marks the current one replaced. A failed insert rolls everything back. */
    method Rotate(current: TokenId, n: NewToken, now: int) returns (result: RotateResult)
      modifies this
      ensures (tokens, result) == Sessions.Rotate(old(tokens), current, n, now)
    {
      if current !in tokens {
        return NotFound;
      }
      var row := tokens[current];
      if row.revocation.Some? || row.replacedBy.Some? {
        RevokeFamily(row.family, ReuseDetected, now);
        return Reused;
      }
      var ok := Create(n);
      if !ok {
        return InsertFailed;
      }
      tokens := tokens[current := row.(replacedBy := Some(n.id), lastUsedAt := Some(now),
                                       revocation := Some(Revocation(now, Rotated)))];
      result := Succeeded(n.id);
    }

    method RevokeFamily(family: FamilyId, reason: Reason, at: int)
      modifies this
      ensures tokens == Sessions.RevokeFamily(old(tokens), family, Revocation(at, reason))
    {
      tokens := map id | id in tokens ::
        if tokens[id].family == family && tokens[id].revocation.None?
        then tokens[id].(revocation := Some(Revocation(at, reason)))
        else tokens[id];
    }

    method RevokeAllForUser(user: UserId, reason: Reason, at: int)
      modifies this
      ensures tokens == Sessions.RevokeAllForUser(old(tokens), user, Revocation(at, reason))
    {
      tokens := map id | id in tokens ::
        if tokens[id].user == user && tokens[id].revocation.None?
        then tokens[id].(revocation := Some(Revocation(at, reason)))
        else tokens[id];
    }
  }
}
