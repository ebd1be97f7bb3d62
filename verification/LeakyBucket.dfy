/** src/rate_limit_patterns/algorithms/leaky_bucket.py */
module LeakyBucket {
  import opened Numbers
  import opened Models

  datatype State = State(queueSize: real, lastLeak: real)

  function InitialState(c: Config): State {
    State(0.0, 0.0)
  }

  /** The queue after lazy draining, never below empty. */
  function Leaked(s: State, c: Config, now: real): real {
    var elapsed := Max(0.0, now - s.lastLeak);
    var drained := elapsed * TokensPerSecond(c);
    Max(0.0, s.queueSize - drained)
  }

  /** The decision once the queue is known. The Python code also guards `rate <= 0`,
      which no constructible config reaches. */
  function Enqueue(afterLeak: real, c: Config, now: real): Decision<State> {
    var rate := TokensPerSecond(c);
    var capacity := c.Capacity() as real;
    var allowed := afterLeak + 1.0 <= capacity;
    var queue := if allowed then afterLeak + 1.0 else afterLeak;
    var retryAfter :=
      if allowed then None else Some(MaxInt(1, Ceil(((afterLeak + 1.0) - capacity) / rate)));
    Decision(
      allowed,
      State(queue, now),
      Meta(MaxInt(0, (capacity - queue).Floor), now + queue / rate, MaxInt(0, queue.Floor), retryAfter))
  }

  function Compute(s: State, c: Config, now: real): Decision<State> {
    Enqueue(Leaked(s, c, now), c, now)
  }
}
