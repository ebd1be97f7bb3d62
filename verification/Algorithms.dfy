/** The three algorithms behind one interface, and what a single decision keeps. */
module Algorithms {
  import opened Numbers
  import opened Models
  import TokenBucket
  import LeakyBucket
  import SlidingWindow

  datatype AlgorithmState =
    | Tokens(bucket: TokenBucket.State)
    | Queue(leaky: LeakyBucket.State)
    | Log(log: SlidingWindow.State)

  /** The state dictionary has the keys the algorithm reads; otherwise `compute` raises KeyError. */
  predicate Fits(c: Config, s: AlgorithmState) {
    match c.algorithm
    case Token => s.Tokens?
    case Leaky => s.Queue?
    case Window => s.Log?
  }

  function InitialState(c: Config): (s: AlgorithmState)
    ensures Fits(c, s)
  {
    match c.algorithm
    case Token => Tokens(TokenBucket.InitialState(c))
    case Leaky => Queue(LeakyBucket.InitialState(c))
    case Window => Log(SlidingWindow.InitialState(c))
  }

  function Compute(s: AlgorithmState, c: Config, now: real): (d: Decision<AlgorithmState>)
    requires Fits(c, s)
    ensures Fits(c, d.state)
  {
    match s
    case Tokens(b) => var d := TokenBucket.Compute(b, c, now); Decision(d.allowed, Tokens(d.state), d.meta)
    case Queue(q) => var d := LeakyBucket.Compute(q, c, now); Decision(d.allowed, Queue(d.state), d.meta)
    case Log(l) => var d := SlidingWindow.Compute(l, c, now); Decision(d.allowed, Log(d.state), d.meta)
  }

  /** `LocalStateCore._ttl_for`. */
  function Ttl(c: Config): (ttl: real)
    ensures ttl >= 1.0
  {
    Max(1.0, if c.algorithm.Window? then c.period as real else c.Capacity() as real / TokensPerSecond(c))
  }

  /** The TTL in the config's own numbers, and never below one second. */
  lemma TtlIsExact(c: Config)
    ensures
      Ttl(c) == Max(1.0, if c.algorithm.Window? then c.period as real
                         else c.Capacity() as real * c.period as real / c.limit as real)
  {
    RatioRules(c.limit as real, c.period as real, c.Capacity() as real);
  }

  /** Tokens regained in `elapsed` seconds: `limit` for each `period`. */
  function Regained(c: Config, elapsed: real): real {
    c.limit as real * elapsed / c.period as real
  }

  lemma RegainedAtRate(c: Config, elapsed: real)
    ensures elapsed * TokensPerSecond(c) == Regained(c, elapsed)
  {
    RatioRules(c.limit as real, c.period as real, elapsed);
  }

  lemma RegainedOverPeriods(c: Config, elapsed: real)
    ensures Regained(c, elapsed) >= 1.0 <==> elapsed * c.limit as real >= c.period as real
    ensures Regained(c, c.period as real) == c.limit as real
    ensures elapsed < c.period as real ==> Regained(c, elapsed) < c.limit as real
  {
    var limit, period := c.limit as real, c.period as real;
    var gained, full := limit * elapsed, limit * period;
    ScaleOrder(elapsed, period, limit);
    assert gained == elapsed * limit && full == period * limit;
    QuotientOrder(gained, 1.0, period);
    QuotientOrder(gained, limit, period);
    QuotientOrder(full, limit, period);
  }

  /** Refill and drain in the config's own numbers. */
  lemma RefillIsExact(c: Config, b: TokenBucket.State, q: LeakyBucket.State, now: real)
    ensures
      b.lastRefill <= now ==>
      TokenBucket.Refilled(b, c, now) == Min(c.Capacity() as real, b.tokens + Regained(c, now - b.lastRefill))
    ensures
      q.lastLeak <= now ==>
      LeakyBucket.Leaked(q, c, now) == Max(0.0, q.queueSize - Regained(c, now - q.lastLeak))
  {
    hide TokensPerSecond;
    hide Regained;
    RegainedAtRate(c, now - b.lastRefill);
    RegainedAtRate(c, now - q.lastLeak);
  }

  // ----- Token and leaky bucket are one limiter -----

  function Mirror(b: TokenBucket.State, c: Config): LeakyBucket.State {
    LeakyBucket.State(c.Capacity() as real - b.tokens, b.lastRefill)
  }

  /** For mirrored states the two algorithms answer alike and stay mirrored, at any
      clock reading, earlier ones included; the leaky `max(1, ...)` never matters. */
  lemma TokenIsLeaky(b: TokenBucket.State, c: Config, now: real)
    ensures
      var t, l := TokenBucket.Compute(b, c, now), LeakyBucket.Compute(Mirror(b, c), c, now);
      && l.allowed == t.allowed
      && l.meta == t.meta
      && l.state == Mirror(t.state, c)
      && (!t.allowed ==> t.meta.retryAfter.value >= 1)
    ensures Mirror(TokenBucket.InitialState(c), c) == LeakyBucket.InitialState(c)
  {
    hide TokensPerSecond;
    RefillIsLeak(b, c, now);
    SpendIsEnqueue(TokenBucket.Refilled(b, c, now), c, now);
  }

  lemma RefillIsLeak(b: TokenBucket.State, c: Config, now: real)
    ensures LeakyBucket.Leaked(Mirror(b, c), c, now) == c.Capacity() as real - TokenBucket.Refilled(b, c, now)
  {
  }

  lemma SpendIsEnqueue(tokens: real, c: Config, now: real)
    ensures
      var t, l := TokenBucket.Spend(tokens, c, now), LeakyBucket.Enqueue(c.Capacity() as real - tokens, c, now);
      && l.allowed == t.allowed
      && l.meta == t.meta
      && l.state == Mirror(t.state, c)
      && (!t.allowed ==> t.meta.retryAfter.value >= 1)
  {
    hide TokensPerSecond;
    var burst := c.Capacity() as real;
    if tokens >= 1.0 {
      assert burst - (tokens - 1.0) == burst - tokens + 1.0;
    } else {
      assert 1.0 - tokens == (burst - tokens) + 1.0 - burst;
      DivideOrder(0.0, 1.0 - tokens, TokensPerSecond(c));
    }
  }

  // ----- What holds at any clock -----

  ghost predicate Bounded(c: Config, s: AlgorithmState)
    requires Fits(c, s)
  {
    match s
    case Tokens(b) => 0.0 <= b.tokens <= c.Capacity() as real
    case Queue(q) => 0.0 <= q.queueSize <= c.Capacity() as real
    case Log(l) => |l.requests| == l.count <= c.limit
  }

  /** `remaining` and `request_count` account for the whole capacity, up to one
      fractional token in a bucket. */
  ghost predicate Accounted(c: Config, m: Meta) {
    && m.remaining >= 0
    && m.requestCount >= 0
    && (if c.algorithm.Window?
        then m.remaining + m.requestCount == c.limit
        else c.Capacity() - 1 <= m.remaining + m.requestCount <= c.Capacity())
  }

  lemma InitialIsBounded(c: SoundConfig)
    ensures Bounded(c, InitialState(c))
  {
  }

  lemma ComputeStaysBounded(c: SoundConfig, s: AlgorithmState, now: real)
    requires Fits(c, s) && Bounded(c, s)
    ensures
      var d := Compute(s, c, now);
      && Bounded(c, d.state)
      && Accounted(c, d.meta)
      && (d.allowed <==> d.meta.retryAfter.None?)
      && (!d.allowed ==> d.meta.retryAfter.value >= 1 && d.meta.remaining == 0)
  {
    match s
    case Tokens(b) =>
      TokenIsLeaky(b, c, now);
      LeakStaysBounded(c, Mirror(b, c), now);
    case Queue(q) =>
      LeakStaysBounded(c, q, now);
    case Log(l) =>
  }

  lemma LeakStaysBounded(c: SoundConfig, q: LeakyBucket.State, now: real)
    requires !c.algorithm.Window?
    requires 0.0 <= q.queueSize <= c.Capacity() as real
    ensures
      var d := LeakyBucket.Compute(q, c, now);
      && 0.0 <= d.state.queueSize <= c.Capacity() as real
      && d.meta.remaining == (c.Capacity() as real - d.state.queueSize).Floor
      && d.meta.requestCount == d.state.queueSize.Floor
      && (d.allowed <==> d.meta.retryAfter.None?)
      && (!d.allowed ==> d.meta.retryAfter.value >= 1 && c.Capacity() as real - d.state.queueSize < 1.0)
  {
    hide TokensPerSecond;
    ScaleOrder(0.0, Max(0.0, now - q.lastLeak), TokensPerSecond(c));
    DivideOrder(0.0, LeakyBucket.Leaked(q, c, now) + 1.0 - c.Capacity() as real, TokensPerSecond(c));
  }

  // ----- What holds as long as clocks do not go back -----

  ghost predicate Sorted(ts: seq<real>) {
    forall i, j :: 0 <= i < j < |ts| ==> ts[i] <= ts[j]
  }

  /** `s` is a state written at clock reading `at`. */
  ghost predicate Settled(c: Config, s: AlgorithmState, at: real)
    requires Fits(c, s)
  {
    && Bounded(c, s)
    && match s
       case Tokens(b) => b.lastRefill == at
       case Queue(q) => q.lastLeak == at
       case Log(l) => Sorted(l.requests) && forall t <- l.requests :: at - c.period as real < t <= at
  }

  /** On a sorted list eviction drops a prefix, namely the expired timestamps. */
  lemma LiveIsSuffix(ts: seq<real>, cutoff: real) returns (k: nat)
    requires Sorted(ts)
    ensures k <= |ts| && SlidingWindow.Live(ts, cutoff) == ts[k..]
    ensures forall i :: 0 <= i < k ==> ts[i] <= cutoff
    ensures forall i :: k <= i < |ts| ==> ts[i] > cutoff
  {
    k := LiveStart(ts, cutoff);
  }

  lemma {:induction false} LiveStart(ts: seq<real>, cutoff: real) returns (k: nat)
    requires Sorted(ts)
    ensures k <= |ts| && |SlidingWindow.Live(ts, cutoff)| == |ts| - k
    ensures forall i :: k <= i < |ts| ==> SlidingWindow.Live(ts, cutoff)[i - k] == ts[i]
    ensures forall i :: 0 <= i < k ==> ts[i] <= cutoff
    ensures forall i :: k <= i < |ts| ==> ts[i] > cutoff
  {
    if ts == [] || ts[|ts| - 1] <= cutoff {
      k := |ts|;
      NothingLive(ts, cutoff);
    } else {
      k := LiveStart(ts[..|ts| - 1], cutoff);
    }
  }

  lemma {:induction false} NothingLive(ts: seq<real>, cutoff: real)
    requires forall i :: 0 <= i < |ts| ==> ts[i] <= cutoff
    ensures SlidingWindow.Live(ts, cutoff) == []
  {
    if ts != [] {
      NothingLive(ts[..|ts| - 1], cutoff);
    }
  }

  lemma ComputeSettles(c: SoundConfig, s: AlgorithmState, at: real, now: real)
    requires Fits(c, s) && Settled(c, s, at) && at <= now
    ensures Settled(c, Compute(s, c, now).state, now)
  {
    ComputeStaysBounded(c, s, now);
    if s.Log? {
      LogSettles(c, s.log.requests, at, now);
    }
  }

  lemma LogSettles(c: Config, requests: seq<real>, at: real, now: real)
    requires Sorted(requests) && at <= now
    requires forall t <- requests :: t <= at
    ensures
      var live := SlidingWindow.Live(requests, now - c.period as real);
      && Sorted(live) && Sorted(live + [now])
      && forall t <- live :: now - c.period as real < t <= now
  {
    var k := LiveIsSuffix(requests, now - c.period as real);
    var live := requests[k..];
    assert forall i :: 0 <= i < |live| ==> live[i] == requests[k + i] && live[i] in requests;
  }

  lemma InitialSettles(c: SoundConfig, now: real)
    ensures Settled(c, Compute(InitialState(c), c, now).state, now)
  {
    ComputeStaysBounded(c, InitialState(c), now);
  }

  /** A state whose TTL has run out decides exactly as a fresh one: this is why the
      store may forget it. */
  lemma ExpiredIsFresh(c: SoundConfig, s: AlgorithmState, at: real, now: real)
    requires Fits(c, s) && Settled(c, s, at)
    requires at + Ttl(c) <= now
    ensures Compute(s, c, now) == Compute(InitialState(c), c, now)
  {
    match s {
      case Log(l) =>
        assert forall i :: 0 <= i < |l.requests| ==> l.requests[i] in l.requests;
        NothingLive(l.requests, now - c.period as real);
      case Tokens(b) =>
        ExpiredIsFull(c, b, LeakyBucket.State(0.0, at), now);
        FreshIsFull(c, now);
      case Queue(q) =>
        ExpiredIsFull(c, TokenBucket.State(0.0, at), q, now);
        FreshIsFull(c, now);
    }
  }

  lemma ExpiredIsFull(c: SoundConfig, b: TokenBucket.State, q: LeakyBucket.State, now: real)
    requires !c.algorithm.Window?
    requires b.lastRefill + Ttl(c) <= now && 0.0 <= b.tokens
    requires q.lastLeak + Ttl(c) <= now && q.queueSize <= c.Capacity() as real
    ensures TokenBucket.Refilled(b, c, now) == c.Capacity() as real
    ensures LeakyBucket.Leaked(q, c, now) == 0.0
  {
    hide TokensPerSecond;
    FilledAfter(c.Capacity() as real, TokensPerSecond(c), now - b.lastRefill);
    FilledAfter(c.Capacity() as real, TokensPerSecond(c), now - q.lastLeak);
  }

  lemma FreshIsFull(c: SoundConfig, now: real)
    ensures TokenBucket.Refilled(TokenBucket.InitialState(c), c, now) == c.Capacity() as real
    ensures LeakyBucket.Leaked(LeakyBucket.InitialState(c), c, now) == 0.0
  {
    hide TokensPerSecond;
    ScaleOrder(0.0, Max(0.0, now), TokensPerSecond(c));
  }

  // ----- Clock shifts -----

  function ShiftTimes(ts: seq<real>, offset: real): (r: seq<real>)
    ensures |r| == |ts|
    ensures forall i :: 0 <= i < |ts| ==> r[i] == ts[i] + offset
  {
    seq(|ts|, i requires 0 <= i < |ts| => ts[i] + offset)
  }

  function Shift(s: AlgorithmState, offset: real): AlgorithmState {
    match s
    case Tokens(b) => Tokens(b.(lastRefill := b.lastRefill + offset))
    case Queue(q) => Queue(q.(lastLeak := q.lastLeak + offset))
    case Log(l) => Log(l.(requests := ShiftTimes(l.requests, offset)))
  }

  function ShiftDecision(d: Decision<AlgorithmState>, offset: real): Decision<AlgorithmState> {
    d.(state := Shift(d.state, offset), meta := d.meta.(resetAt := d.meta.resetAt + offset))
  }

  lemma {:induction false} LiveShifts(ts: seq<real>, cutoff: real, offset: real)
    ensures SlidingWindow.Live(ShiftTimes(ts, offset), cutoff + offset)
      == ShiftTimes(SlidingWindow.Live(ts, cutoff), offset)
  {
    if ts != [] {
      var n := |ts| - 1;
      LiveShifts(ts[..n], cutoff, offset);
      assert ShiftTimes(ts, offset)[..n] == ShiftTimes(ts[..n], offset);
    }
  }

  lemma ComputeShifts(c: Config, s: AlgorithmState, now: real, offset: real)
    requires Fits(c, s)
    ensures Compute(Shift(s, offset), c, now + offset) == ShiftDecision(Compute(s, c, now), offset)
  {
    match s
    case Tokens(b) =>
      LevelShifts(c, b, LeakyBucket.InitialState(c), now, offset);
      VerdictShifts(c, TokenBucket.Refilled(b, c, now), now, offset);
    case Queue(q) =>
      LevelShifts(c, TokenBucket.InitialState(c), q, now, offset);
      VerdictShifts(c, LeakyBucket.Leaked(q, c, now), now, offset);
    case Log(l) =>
      LogShifts(c, l, now, offset);
  }

  lemma LevelShifts(c: Config, b: TokenBucket.State, q: LeakyBucket.State, now: real, offset: real)
    ensures
      TokenBucket.Refilled(b.(lastRefill := b.lastRefill + offset), c, now + offset) == TokenBucket.Refilled(b, c, now)
    ensures
      LeakyBucket.Leaked(q.(lastLeak := q.lastLeak + offset), c, now + offset) == LeakyBucket.Leaked(q, c, now)
  {
    assert now + offset - (b.lastRefill + offset) == now - b.lastRefill;
    assert now + offset - (q.lastLeak + offset) == now - q.lastLeak;
  }

  lemma VerdictShifts(c: Config, level: real, now: real, offset: real)
    ensures
      var d := TokenBucket.Spend(level, c, now);
      TokenBucket.Spend(level, c, now + offset) ==
      Decision(d.allowed, TokenBucket.State(d.state.tokens, now + offset), d.meta.(resetAt := d.meta.resetAt + offset))
    ensures
      var d := LeakyBucket.Enqueue(level, c, now);
      LeakyBucket.Enqueue(level, c, now + offset) ==
      Decision(d.allowed, LeakyBucket.State(d.state.queueSize, now + offset),
        d.meta.(resetAt := d.meta.resetAt + offset))
  {
  }

  lemma LogShifts(c: Config, l: SlidingWindow.State, now: real, offset: real)
    ensures
      var d := SlidingWindow.Compute(l, c, now);
      SlidingWindow.Compute(l.(requests := ShiftTimes(l.requests, offset)), c, now + offset) ==
      Decision(
        d.allowed,
        d.state.(requests := ShiftTimes(d.state.requests, offset)),
        d.meta.(resetAt := d.meta.resetAt + offset))
  {
    var period := c.period as real;
    var live := SlidingWindow.Live(l.requests, now - period);
    LiveShifts(l.requests, now - period, offset);
    assert now + offset - period == now - period + offset;
    assert ShiftTimes(live, offset) + [now + offset] == ShiftTimes(live + [now], offset);
  }

  /** The fixed 0.0 stamp of a fresh state is invisible, whatever the clock reads. */
  lemma FreshIgnoresClock(c: SoundConfig, now: real, offset: real)
    ensures Compute(InitialState(c), c, now + offset) == ShiftDecision(Compute(InitialState(c), c, now), offset)
  {
    match c.algorithm
    case Window =>
      LogShifts(c, SlidingWindow.InitialState(c), now, offset);
      assert ShiftTimes([], offset) == [];
    case _ =>
      FreshIsFull(c, now);
      FreshIsFull(c, now + offset);
      VerdictShifts(c, c.Capacity() as real, now, offset);
      VerdictShifts(c, 0.0, now, offset);
  }
}
