/** Runs of one limiter over a full request history. Nothing is ever forgotten
    here: this replay is what the expiring stores are measured against. */
module Histories {
  import opened Numbers
  import opened Models
  import opened Algorithms
  import TokenBucket
  import LeakyBucket

  function StateAt(c: Config, times: seq<real>, n: nat): (s: AlgorithmState)
    requires n <= |times|
    ensures Fits(c, s)
  {
    if n == 0 then InitialState(c) else Compute(StateAt(c, times, n - 1), c, times[n - 1]).state
  }

  function DecisionAt(c: Config, times: seq<real>, j: nat): Decision<AlgorithmState>
    requires j < |times|
  {
    Compute(StateAt(c, times, j), c, times[j])
  }

  /** The answer to a request at `now` after the history `times`. */
  function Answer(c: Config, times: seq<real>, now: real): Decision<AlgorithmState> {
    Compute(StateAt(c, times, |times|), c, now)
  }

  function Admissions(c: Config, times: seq<real>): (bs: seq<bool>)
    ensures |bs| == |times|
    ensures forall j :: 0 <= j < |times| ==> bs[j] == DecisionAt(c, times, j).allowed
  {
    seq(|times|, j requires 0 <= j < |times| => DecisionAt(c, times, j).allowed)
  }

  /** Requests admitted by the schedule `bs` among those numbered `i` to `j - 1`. */
  function Count(bs: seq<bool>, i: nat, j: nat): nat
    requires i <= j <= |bs|
  {
    if i == j then 0 else Count(bs, i, j - 1) + if bs[j - 1] then 1 else 0
  }

  lemma {:induction false} CountSplits(bs: seq<bool>, i: nat, m: nat, j: nat)
    requires i <= m <= j <= |bs|
    ensures Count(bs, i, j) == Count(bs, i, m) + Count(bs, m, j)
  {
    if m < j {
      CountSplits(bs, i, m, j - 1);
    }
  }

  /** How far the clock moved forward between requests `i` and `j`, backward moves ignored. */
  function Forward(times: seq<real>, i: nat, j: nat): (f: real)
    requires i <= j < |times|
    ensures f >= 0.0
  {
    if i == j then 0.0 else Forward(times, i, j - 1) + Max(0.0, times[j] - times[j - 1])
  }

  lemma {:induction false} ForwardIsElapsed(times: seq<real>, i: nat, j: nat)
    requires i <= j < |times| && Sorted(times)
    ensures Forward(times, i, j) == times[j] - times[i]
  {
    if i < j {
      ForwardIsElapsed(times, i, j - 1);
    }
  }

  // ----- Invariants of whole runs -----

  lemma {:induction false} SameHistorySameState(c: Config, a: seq<real>, b: seq<real>, n: nat)
    requires n <= |a| && n <= |b|
    requires forall i :: 0 <= i < n ==> a[i] == b[i]
    ensures StateAt(c, a, n) == StateAt(c, b, n)
  {
    if n > 0 {
      SameHistorySameState(c, a, b, n - 1);
    }
  }

  /** Whatever the clock does, levels stay within the capacity, the log within the
      limit, and the reported numbers add up to the capacity. */
  lemma {:induction false} RunStaysBounded(c: SoundConfig, times: seq<real>, n: nat)
    requires n <= |times|
    ensures Bounded(c, StateAt(c, times, n))
    ensures n < |times| ==> Accounted(c, DecisionAt(c, times, n).meta)
  {
    if n > 0 {
      RunStaysBounded(c, times, n - 1);
      ComputeStaysBounded(c, StateAt(c, times, n - 1), times[n - 1]);
    } else {
      InitialIsBounded(c);
    }
    if n < |times| {
      ComputeStaysBounded(c, StateAt(c, times, n), times[n]);
    }
  }

  lemma {:induction false} RunSettles(c: SoundConfig, times: seq<real>, n: nat)
    requires 0 < n <= |times| && Sorted(times)
    ensures Settled(c, StateAt(c, times, n), times[n - 1])
  {
    if n == 1 {
      InitialSettles(c, times[0]);
    } else {
      RunSettles(c, times, n - 1);
      ComputeSettles(c, StateAt(c, times, n - 1), times[n - 2], times[n - 1]);
    }
  }

  /** A token bucket and a leaky bucket with the same numbers answer every run alike,
      even one whose timestamps are out of order, and their entries live equally long. */
  lemma {:induction false} TokenRunIsLeakyRun(c: Config, times: seq<real>, n: nat)
    requires n <= |times| && c.algorithm.Token?
    ensures
      var l := c.(algorithm := Leaky);
      && StateAt(l, times, n).leaky == Mirror(StateAt(c, times, n).bucket, c)
      && Ttl(l) == Ttl(c)
      && (n < |times| ==>
            && DecisionAt(l, times, n).allowed == DecisionAt(c, times, n).allowed
            && DecisionAt(l, times, n).meta == DecisionAt(c, times, n).meta)
  {
    var l := c.(algorithm := Leaky);
    if n == 0 {
      TokenIsLeaky(StateAt(c, times, 0).bucket, c, 0.0);
    } else {
      TokenRunIsLeakyRun(c, times, n - 1);
      TokenIsLeaky(StateAt(c, times, n - 1).bucket, c, times[n - 1]);
      TwinConfigs(StateAt(l, times, n - 1).leaky, c, times[n - 1]);
    }
    if n < |times| {
      TokenIsLeaky(StateAt(c, times, n).bucket, c, times[n]);
      TwinConfigs(StateAt(l, times, n).leaky, c, times[n]);
    }
  }

  lemma TwinConfigs(q: LeakyBucket.State, c: Config, now: real)
    ensures LeakyBucket.Compute(q, c.(algorithm := Leaky), now) == LeakyBucket.Compute(q, c, now)
  {
    var l := c.(algorithm := Leaky);
    assert TokensPerSecond(l) == TokensPerSecond(c) && l.Capacity() == c.Capacity();
    hide TokensPerSecond;
    assert LeakyBucket.Leaked(q, l, now) == LeakyBucket.Leaked(q, c, now);
    assert LeakyBucket.Enqueue(LeakyBucket.Leaked(q, l, now), l, now)
           == LeakyBucket.Enqueue(LeakyBucket.Leaked(q, c, now), c, now);
  }

  /** Running on a shifted clock (monotonic instead of wall time, say) changes no
      answer; `reset_at` shifts along. Any times, any offset. */
  lemma {:induction false} RunIgnoresClockOffset(c: SoundConfig, times: seq<real>, offset: real, j: nat)
    requires j < |times|
    ensures DecisionAt(c, ShiftTimes(times, offset), j) == ShiftDecision(DecisionAt(c, times, j), offset)
  {
    hide Compute;
    hide InitialState;
    if j == 0 {
      FreshIgnoresClock(c, times[0], offset);
    } else {
      RunIgnoresClockOffset(c, times, offset, j - 1);
      ComputeShifts(c, StateAt(c, times, j), times[j], offset);
    }
  }
}
