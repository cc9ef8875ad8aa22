/** The Bucket object. */
module TokenBucket {
  import M = BucketModel

  class Bucket {
    var tokens: real
    var lastRefill: real
    var rate: real
    var burst: real

    ghost function State(): M.Bucket
      reads this
    {
      M.Bucket(tokens, lastRefill, rate, burst)
    }

    constructor (rate: real, burst: real, now: real)
      ensures State() == M.New(rate, burst, now)
    {
      this.rate := if rate < 0.0 then 0.0 else rate;
      this.burst := if burst < 0.0 then 0.0 else burst;
      this.tokens := if burst < 0.0 then 0.0 else burst;
      this.lastRefill := now;
    }

    method Refill(now: real)
      modifies this`tokens, this`lastRefill
      ensures State() == M.Refill(old(State()), now)
    {
      if rate <= 0.0 {
        lastRefill := now;
        return;
      }
      var elapsed := now - lastRefill;
      if elapsed <= 0.0 {
        return;
      }
      tokens := M.RMin(burst, tokens + elapsed * rate);
      lastRefill := now;
    }

    method Take(now: real, cost: real) returns (r: M.Result)
      modifies this`tokens, this`lastRefill
      ensures (State(), r) == M.Take(old(State()), now, cost)
    {
      var c := if cost < 0.0 then 0.0 else cost;
      Refill(now);
      if c > burst {
        return M.Result(false, tokens, M.RetryAfterMs(tokens, c, rate, burst));
      }
      if tokens >= c {
        tokens := tokens - c;
        return M.Result(true, tokens, 0);
      }
      r := M.Result(false, tokens, M.RetryAfterMs(tokens, c, rate, burst));
    }

    /** The store's resize of an existing bucket. */
    method SetLimits(newRate: real, newBurst: real, now: real)
      modifies this
      ensures State() == M.Resize(old(State()), newRate, newBurst, now)
    {
      if rate != newRate || burst != newBurst {
        Refill(now);
        rate := newRate;
        burst := newBurst;
        if tokens > newBurst {
          tokens := newBurst;
        }
      }
    }
  }
}
