/** Configuration and result records (src/rate_limit_patterns/models.py). */
module Models {
  import opened Numbers

  datatype Option<+T> = None | Some(value: T) {
    function GetOr(default: T): T {
      if Some? then value else default
    }
  }

  datatype Algorithm = Token | Window | Leaky

  datatype RateLimitConfig = RateLimitConfig(
    algorithm: Algorithm,
    limit: int,
    period: int,
    burstSize: Option<int>)
  {
    /** What `__post_init__` insists on; anything else raises ValueError. */
    predicate Constructible() {
      limit > 0 && period > 0
    }

    /** The bucket can hold at least one request; the window ignores `burst_size`. */
    predicate Sound() {
      algorithm.Window? || Capacity() >= 1
    }

    /** `burst_size if burst_size is not None else limit`. */
    function Capacity(): int {
      if burstSize.Some? then burstSize.value else limit
    }
  }

  /** A config object that exists. `burst_size` is not validated. */
  type Config = c: RateLimitConfig | c.Constructible()
    witness RateLimitConfig(Token, 1, 1, None)

  type SoundConfig = c: Config | c.Sound()
    witness RateLimitConfig(Token, 1, 1, None)

  function TokensPerSecond(c: Config): (r: real)
    ensures r > 0.0
  {
    c.limit as real / c.period as real
  }

  /** Algorithm metadata: the dictionary each `compute` returns next to its state. */
  datatype Meta = Meta(remaining: int, resetAt: real, requestCount: int, retryAfter: Option<int>)

  datatype Decision<+S> = Decision(allowed: bool, state: S, meta: Meta)

  datatype RateLimitResult = RateLimitResult(
    allowed: bool,
    remaining: int,
    limit: int,
    retryAfter: Option<int>,
    resetAt: real,
    requestCount: int)

  /** How a check ends for its caller. */
  datatype Outcome =
    | Ok(result: RateLimitResult)
    | ValueError(message: string)
    | KeyError
    | BackendUnavailable

  /** `RateLimitResult.__post_init__`: construction raises on negative counts. */
  function Construct(r: RateLimitResult): (o: Outcome)
    ensures o == Ok(r) <==> 0 <= r.remaining && 0 <= r.requestCount
    ensures o.Ok? || o.ValueError?
  {
    if r.remaining < 0 then ValueError("remaining cannot be negative")
    else if r.requestCount < 0 then ValueError("request_count cannot be negative")
    else Ok(r)
  }
}
