/** src/rate_limit_patterns/algorithms/token_bucket.py */
module TokenBucket {
  import opened Numbers
  import opened Models

  datatype State = State(tokens: real, lastRefill: real)

  function InitialState(c: Config): State {
    State(c.Capacity() as real, 0.0)
  }

  /** The balance after lazy refill, capped at the burst size. */
  function Refilled(s: State, c: Config, now: real): real {
    var elapsed := Max(0.0, now - s.lastRefill);
    var refill := elapsed * TokensPerSecond(c);
    Min(c.Capacity() as real, s.tokens + refill)
  }

  /** The decision once the balance is known. */
  function Spend(tokens: real, c: Config, now: real): Decision<State> {
    var rate := TokensPerSecond(c);
    var burst := c.Capacity() as real;
    var allowed := tokens >= 1.0;
    var after := if allowed then tokens - 1.0 else tokens;
    var retryAfter := if allowed then None else Some(Ceil((1.0 - after) / rate));
    Decision(
      allowed,
      State(after, now),
      Meta(MaxInt(0, after.Floor), now + (burst - after) / rate, MaxInt(0, (burst - after).Floor), retryAfter))
  }

  function Compute(s: State, c: Config, now: real): Decision<State> {
    Spend(Refilled(s, c, now), c, now)
  }
}
