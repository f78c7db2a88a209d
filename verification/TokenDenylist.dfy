/** The Redis adapter of the denylist, with the script's loop over the active set. */
module TokenDenylist {
  import opened Denylist

  class Redis {
    var active: map<UserId, map<Jti, nat>>
    var deny: map<Jti, nat>

    constructor ()
      ensures active == map[] && deny == map[]
    {
      active, deny := map[], map[];
    }

    method IsRevoked(jti: Jti, now: nat) returns (revoked: bool)
      ensures revoked <==> jti in deny && now < deny[jti]
    {
      revoked := jti in deny && now < deny[jti];
    }

    method Deny(jti: Jti, expiresAt: nat, now: nat)
      modifies this`deny
      ensures deny == if expiresAt <= now then old(deny) else old(deny)[jti := expiresAt]
    {
      var ttl := expiresAt - now;
      if ttl <= 0 {
        return;
      }
      deny := deny[jti := now + ttl];
    }

    method RegisterActive(user: UserId, jti: Jti, expiresAt: nat)
      modifies this`active
      ensures active == AddMember(old(active), user, jti, expiresAt / SECOND)
    {
      var members := map[];
      if user in active {
        members := active[user];
      }
      active := active[user := members[jti := expiresAt / SECOND]];
    }

    method DenyAllActive(user: UserId, nowSeconds: nat, now: nat)
      modifies this
      ensures deny == Sweep(old(deny), old(Members(active, user)), nowSeconds, now)
      ensures active == old(active) - {user}
    {
      var scores := map[];
      if user in active {
        scores := active[user];
      }
      var members := set jti | jti in scores && scores[jti] >= nowSeconds;
      ghost var all := members;
      while members != {}
        invariant members <= all
        invariant active == old(active)
        invariant forall jti :: jti in deny <==> jti in old(deny) || (jti in all - members && scores[jti] > nowSeconds)
        invariant forall jti | jti in deny ::
                    deny[jti] == if jti in all - members && scores[jti] > nowSeconds
                                 then now + (scores[jti] - nowSeconds) * SECOND else old(deny)[jti]
        decreases members
      {
        var jti :| jti in members;
        var ttl := scores[jti] - nowSeconds;
        if ttl > 0 {
          deny := deny[jti := now + ttl * SECOND];
        }
        members := members - {jti};
      }
      active := active - {user};
      assert Due(scores, nowSeconds) == set jti | jti in all && scores[jti] > nowSeconds;
    }
  }
}
