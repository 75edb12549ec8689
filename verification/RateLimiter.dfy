/**
 The limiter object: a map from client address to a visitor record that is updated in place, and a sweeper that
 deletes from the map while walking it.  Both methods hold the mutex throughout.
 */
module RateLimiters {
  import opened RateLimiting

  class Visitor {
    var tokens: int
    var lastSeen: int
    var lastRefill: int

    constructor (tokens: int, now: int)
      ensures this.tokens == tokens && lastSeen == now && lastRefill == now
    {
      this.tokens, lastSeen, lastRefill := tokens, now, now;
    }

    ghost function Value(): Bucket
      reads this
    {
      Bucket(tokens, lastSeen, lastRefill)
    }
  }

  class RateLimiter {
    const limits: Limits
    var visitors: map<string, Visitor>

    /** No two clients share a record. */
    ghost predicate Valid()
      reads this
    {
      forall a, b :: a in visitors && b in visitors && a != b ==> visitors[a] != visitors[b]
    }

    ghost function Value(): Visitors
      reads this, visitors.Values
    {
      map ip | ip in visitors :: visitors[ip].Value()
    }

    constructor (rate: int, window: int)
      ensures Valid() && Value() == After(limits, []) && limits == Limits(rate, window)
    {
      limits := Limits(rate, window);
      visitors := map[];
    }

    method Allow(ip: string, now: int) returns (ok: bool)
      requires Valid()
      modifies this, visitors.Values
      ensures Valid()
      ensures (Value(), ok) == RateLimiting.Allow(limits, old(Value()), ip, now)
      ensures forall a :: a in visitors ==> visitors[a] in old(visitors.Values) || fresh(visitors[a])
    {
      ghost var before := Value();
      if ip !in visitors {
        var v := new Visitor(limits.rate - 1, now);
        visitors := visitors[ip := v];
        assert Value() == before[ip := v.Value()];
        return true;
      }
      var v := visitors[ip];
      v.lastSeen := now;
      if now - v.lastRefill >= limits.window {
        v.tokens := limits.rate;
        v.lastRefill := now;
      }
      if v.tokens > 0 {
        v.tokens := v.tokens - 1;
        assert v.Value() == Visit(limits, before[ip], now).0;
        assert Value() == before[ip := v.Value()];
        return true;
      }
      assert Value() == before[ip := v.Value()];
      return false;
    }

    /** One tick of the sweeper; the map is walked in no particular order. */
    method CleanupVisitors(now: int)
      requires Valid()
      modifies this
      ensures Valid()
      ensures Value() == SweepOut(limits, old(Value()), now)
      ensures forall a :: a in visitors <==>
                a in old(visitors) && now - old(visitors[a].lastSeen) <= 2 * limits.window
      ensures forall a :: a in visitors ==> a in old(visitors) && visitors[a] == old(visitors[a])
    {
      var todo := visitors.Keys;
      while todo != {}
        invariant todo <= old(visitors.Keys)
        invariant forall a :: a in visitors ==> a in old(visitors) && visitors[a] == old(visitors[a])
        invariant forall a :: a in old(visitors) ==>
                    (a in visitors <==> a in todo || now - old(visitors[a].lastSeen) <= limits.window * 2)
      {
        var ip :| ip in todo;
        todo := todo - {ip};
        if now - visitors[ip].lastSeen > limits.window * 2 {
          visitors := visitors - {ip};
        }
      }
    }
  }
}
