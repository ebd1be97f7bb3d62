/** What the numbers in an answer promise about the requests that follow it:
    `retry_after`, `remaining` and `reset_at`, for all three algorithms. */
module Promises {
  import opened Numbers
  import opened Models
  import opened Algorithms
  import opened Histories
  import opened BucketHistories
  import TokenBucket
  import LeakyBucket
  import SlidingWindow

  // ----- retry_after -----

  /** The state of a limiter that has just denied at clock reading `at`. */
  ghost predicate Exhausted(c: SoundConfig, s: AlgorithmState, at: real)
    requires Fits(c, s)
  {
    && Settled(c, s, at)
    && (s.Log? ==> |s.log.requests| == c.limit)
    && at < ReadyAt(c, s)
  }

  /** The instant from which an exhausted limiter admits again. */
  function ReadyAt(c: SoundConfig, s: AlgorithmState): real
    requires Fits(c, s) && (s.Log? ==> |s.log.requests| > 0)
  {
    if s.Log? then s.log.requests[0] + c.period as real
    else AsQueue(c, s).lastLeak + Debt(c, s) + Spacing(c) - Depth(c)
  }

  lemma DenialExhausts(c: SoundConfig, s: AlgorithmState, at: real, now: real)
    requires Fits(c, s) && Settled(c, s, at) && at <= now
    requires !Compute(s, c, now).allowed
    ensures
      var d := Compute(s, c, now);
      && Exhausted(c, d.state, now)
      && d.meta.retryAfter == Some(Ceil(ReadyAt(c, d.state) - now))
  {
    ComputeSettles(c, s, at, now);
    if s.Log? {
      LogDenialExhausts(c, s, now);
    } else {
      hide Compute;
      hide Spacing;
      hide Depth;
      hide Debt;
      DecisionInSeconds(c, s, now);
    }
  }

  lemma LogDenialExhausts(c: SoundConfig, s: AlgorithmState, now: real)
    requires Fits(c, s) && s.Log? && Bounded(c, s)
    requires !Compute(s, c, now).allowed
    ensures
      var d := Compute(s, c, now);
      && |d.state.log.requests| == c.limit
      && now < d.state.log.requests[0] + c.period as real
      && d.meta.retryAfter == Some(Ceil(d.state.log.requests[0] + c.period as real - now))
  {
    LiveIsLater(s.log.requests, now - c.period as real);
  }

  lemma {:induction false} LiveIsLater(ts: seq<real>, cutoff: real)
    ensures forall i :: 0 <= i < |SlidingWindow.Live(ts, cutoff)| ==> SlidingWindow.Live(ts, cutoff)[i] > cutoff
  {
    if ts != [] {
      LiveIsLater(ts[..|ts| - 1], cutoff);
    }
  }

  /** An exhausted limiter admits at `now` just when `now` has reached `ReadyAt`, and
      a poll that comes too early does not move that instant. */
  lemma PollWhileExhausted(c: SoundConfig, s: AlgorithmState, at: real, now: real)
    requires Fits(c, s) && Exhausted(c, s, at) && at <= now
    ensures
      var d := Compute(s, c, now);
      && (d.allowed <==> ReadyAt(c, s) <= now)
      && (!d.allowed ==> Exhausted(c, d.state, now) && ReadyAt(c, d.state) == ReadyAt(c, s))
  {
    if s.Log? {
      LogPollWhileExhausted(c, s, now);
    } else {
      hide Compute;
      hide Spacing;
      hide Depth;
      hide Debt;
      DepthHoldsOne(c);
      DecisionInSeconds(c, s, now);
    }
    if !Compute(s, c, now).allowed {
      DenialExhausts(c, s, at, now);
    }
  }

  lemma LogPollWhileExhausted(c: SoundConfig, s: AlgorithmState, now: real)
    requires Fits(c, s) && s.Log? && Sorted(s.log.requests) && |s.log.requests| == c.limit
    ensures
      var d := Compute(s, c, now);
      && (d.allowed <==> s.log.requests[0] + c.period as real <= now)
      && (!d.allowed ==> d.state.log.requests == s.log.requests)
  {
    var k := LiveIsSuffix(s.log.requests, now - c.period as real);
  }

  /** After a denial at request `i`, and until something is admitted, request `j` is
      admitted just when it comes at or after the ready instant. */
  lemma {:induction false} DeniedUntilReady(c: SoundConfig, times: seq<real>, i: nat, j: nat)
    requires i < j < |times| && Sorted(times)
    requires forall m :: i <= m < j ==> !DecisionAt(c, times, m).allowed
    ensures
      && Exhausted(c, StateAt(c, times, i + 1), times[i])
      && DecisionAt(c, times, i).meta.retryAfter == Some(Ceil(ReadyAt(c, StateAt(c, times, i + 1)) - times[i]))
      && Exhausted(c, StateAt(c, times, j), times[j - 1])
      && ReadyAt(c, StateAt(c, times, j)) == ReadyAt(c, StateAt(c, times, i + 1))
      && (DecisionAt(c, times, j).allowed <==> ReadyAt(c, StateAt(c, times, i + 1)) <= times[j])
  {
    hide Compute;
    hide Exhausted;
    hide ReadyAt;
    hide Settled;
    if j == i + 1 {
      FirstIsAdmitted(c, times);
      assert !DecisionAt(c, times, i).allowed;
      RunSettles(c, times, i);
      DenialExhausts(c, StateAt(c, times, i), times[i - 1], times[i]);
    } else {
      DeniedUntilReady(c, times, i, j - 1);
      PollWhileExhausted(c, StateAt(c, times, j - 1), times[j - 2], times[j - 1]);
    }
    PollWhileExhausted(c, StateAt(c, times, j), times[j - 1], times[j]);
  }

  lemma FirstIsAdmitted(c: SoundConfig, times: seq<real>)
    requires |times| > 0
    ensures DecisionAt(c, times, 0).allowed
  {
    if !c.algorithm.Window? {
      FirstResetAt(c, times[0]);
    }
  }

  /** `retry_after = k` is honest: nothing is admitted up to and including `k - 1`
      whole seconds later, however often the caller polls. */
  lemma {:induction false} RetryAfterIsHonest(c: SoundConfig, times: seq<real>, i: nat, j: nat)
    requires i < j < |times| && Sorted(times)
    requires !DecisionAt(c, times, i).allowed
    ensures
      var retry := DecisionAt(c, times, i).meta.retryAfter;
      && retry.Some? && retry.value >= 1
      && (times[j] <= times[i] + (retry.value - 1) as real ==> !DecisionAt(c, times, j).allowed)
  {
    hide Compute;
    hide Exhausted;
    hide ReadyAt;
    hide Ceil;
    DeniedUntilReady(c, times, i, i + 1);
    ReadyIsLater(c, StateAt(c, times, i + 1), times[i]);
    var k := DecisionAt(c, times, i).meta.retryAfter.value;
    if times[j] <= times[i] + (k - 1) as real {
      forall m | i < m < j
        ensures !DecisionAt(c, times, m).allowed
      {
        RetryAfterIsHonest(c, times, i, m);
      }
      DeniedUntilReady(c, times, i, j);
    }
  }

  lemma ReadyIsLater(c: SoundConfig, s: AlgorithmState, at: real)
    requires Fits(c, s) && Exhausted(c, s, at)
    ensures at < ReadyAt(c, s)
  {
  }

  /** `retry_after = k` is tight: the first poll at least `k` seconds later is
      admitted, unless one was admitted before it. */
  lemma RetryAfterIsTight(c: SoundConfig, times: seq<real>, i: nat, j: nat)
    requires i < j < |times| && Sorted(times)
    requires !DecisionAt(c, times, i).allowed
    requires times[j] >= times[i] + DecisionAt(c, times, i).meta.retryAfter.GetOr(0) as real
    ensures exists m :: i < m <= j && DecisionAt(c, times, m).allowed
  {
    hide Compute;
    hide Exhausted;
    hide ReadyAt;
    hide Ceil;
    if forall m :: i < m < j ==> !DecisionAt(c, times, m).allowed {
      DeniedUntilReady(c, times, i, j);
    }
  }

  // ----- remaining -----

  lemma {:induction false} AllLive(ts: seq<real>, cutoff: real)
    requires forall i :: 0 <= i < |ts| ==> ts[i] > cutoff
    ensures SlidingWindow.Live(ts, cutoff) == ts
  {
    if ts != [] {
      AllLive(ts[..|ts| - 1], cutoff);
      assert ts == ts[..|ts| - 1] + [ts[|ts| - 1]];
    }
  }

  /** A second request at the same instant spends one of what the first left. */
  lemma SameInstant(c: SoundConfig, s: AlgorithmState, now: real)
    requires Fits(c, s) && Bounded(c, s)
    ensures
      var first := Compute(s, c, now);
      var second := Compute(first.state, c, now);
      && (second.allowed <==> first.meta.remaining >= 1)
      && second.meta.remaining == MaxInt(0, first.meta.remaining - 1)
  {
    ComputeStaysBounded(c, s, now);
    var first := Compute(s, c, now);
    match first.state {
      case Log(l) =>
        LiveIsLater(s.log.requests, now - c.period as real);
        AllLive(l.requests, now - c.period as real);
      case Tokens(b) =>
        NoTimeNoRefill(c, b.tokens, now);
        hide TokensPerSecond;
      case Queue(q) =>
        NoTimeNoRefill(c, c.Capacity() as real - q.queueSize, now);
        hide TokensPerSecond;
    }
  }

  lemma NoTimeNoRefill(c: Config, tokens: real, now: real)
    requires 0.0 <= tokens <= c.Capacity() as real
    ensures TokenBucket.Refilled(TokenBucket.State(tokens, now), c, now) == tokens
    ensures LeakyBucket.Leaked(LeakyBucket.State(c.Capacity() as real - tokens, now), c, now)
            == c.Capacity() as real - tokens
  {
    hide TokensPerSecond;
    Distribute(0.0, 0.0, TokensPerSecond(c));
  }

  /** `remaining = n` is exact: of the checks that follow at the same instant, the
      first `n` are admitted and every later one is denied. Earlier times are free. */
  lemma {:induction false} RemainingIsExact(c: SoundConfig, times: seq<real>, j: nat, m: nat)
    requires 0 < m && j + m < |times|
    requires forall i :: j < i <= j + m ==> times[i] == times[j]
    ensures
      var n := DecisionAt(c, times, j).meta.remaining;
      && (DecisionAt(c, times, j + m).allowed <==> m <= n)
      && DecisionAt(c, times, j + m).meta.remaining == MaxInt(0, n - m)
  {
    hide Compute;
    hide Bounded;
    RunStaysBounded(c, times, j + m - 1);
    SameInstant(c, StateAt(c, times, j + m - 1), times[j]);
    if m > 1 {
      RemainingIsExact(c, times, j, m - 1);
    }
  }

  // ----- reset_at -----

  /** `reset_at` lies between now and the end of the entry's life, and never moves
      back while clocks do not. */
  lemma ResetAtOnlyAdvances(c: SoundConfig, times: seq<real>, j: nat)
    requires j < |times| && Sorted(times)
    ensures times[j] <= DecisionAt(c, times, j).meta.resetAt <= times[j] + Ttl(c)
    ensures j > 0 ==> DecisionAt(c, times, j - 1).meta.resetAt <= DecisionAt(c, times, j).meta.resetAt
  {
    if c.algorithm.Window? {
      LogResetAtAdvances(c, times, j);
    } else {
      hide Compute;
      hide TokensPerSecond;
      RunSettles(c, times, j + 1);
      DebtWithinDepth(c, StateAt(c, times, j + 1), times[j]);
      DecisionInSeconds(c, StateAt(c, times, j), times[j]);
      if j > 0 {
        ResetAtIsTheState(c, times, j);
        DepthHoldsOne(c);
      }
    }
  }

  lemma DebtWithinDepth(c: SoundConfig, s: AlgorithmState, at: real)
    requires Fits(c, s) && !s.Log? && Settled(c, s, at)
    ensures 0.0 <= Debt(c, s) <= Ttl(c)
  {
    DivideOrder(AsQueue(c, s).queueSize, c.Capacity() as real, TokensPerSecond(c));
    DivideOrder(0.0, AsQueue(c, s).queueSize, TokensPerSecond(c));
  }

  lemma LogResetAtAdvances(c: SoundConfig, times: seq<real>, j: nat)
    requires j < |times| && Sorted(times) && c.algorithm.Window?
    ensures times[j] <= DecisionAt(c, times, j).meta.resetAt <= times[j] + Ttl(c)
    ensures j > 0 ==> DecisionAt(c, times, j - 1).meta.resetAt <= DecisionAt(c, times, j).meta.resetAt
  {
    hide StateAt;
    hide DecisionAt;
    LogResetAtIsOldest(c, times, j);
    OldestIsRecent(c, times, j + 1);
    if j > 0 {
      OldestIsRecent(c, times, j);
      LogResetAtIsOldest(c, times, j - 1);
      OldestAdvances(c, times, j);
    }
  }

  lemma OldestIsRecent(c: SoundConfig, times: seq<real>, n: nat)
    requires 0 < n <= |times| && Sorted(times) && c.algorithm.Window?
    ensures
      var requests := StateAt(c, times, n).log.requests;
      && Sorted(requests)
      && forall t <- requests :: times[n - 1] - c.period as real < t <= times[n - 1]
  {
    hide StateAt;
    RunSettles(c, times, n);
  }

  lemma LogResetAtIsOldest(c: SoundConfig, times: seq<real>, j: nat)
    requires j < |times| && c.algorithm.Window?
    ensures
      var kept := StateAt(c, times, j + 1).log.requests;
      && |kept| > 0
      && kept[0] in kept
      && DecisionAt(c, times, j).meta.resetAt == kept[0] + c.period as real
  {
  }

  lemma OldestAdvances(c: SoundConfig, times: seq<real>, j: nat)
    requires 0 < j < |times| && c.algorithm.Window?
    requires
      var before := StateAt(c, times, j).log.requests;
      && 0 < |before| && Sorted(before)
      && before[0] <= times[j]
    ensures
      var after := StateAt(c, times, j + 1).log.requests;
      |after| > 0 && StateAt(c, times, j).log.requests[0] <= after[0]
  {
    var k := LiveIsSuffix(StateAt(c, times, j).log.requests, times[j] - c.period as real);
  }
}
