/** What the two buckets promise about whole histories. A bucket is read as a debt
    in seconds: its missing tokens, or its queue, divided by the rate. In that unit
    refilling is subtraction and every promise is linear. */
module BucketHistories {
  import opened Numbers
  import opened Models
  import opened Algorithms
  import opened Histories
  import TokenBucket
  import LeakyBucket

  type BucketConfig = c: SoundConfig | !c.algorithm.Window?
    witness RateLimitConfig(Token, 1, 1, None)

  /** Seconds one request costs. */
  function Spacing(c: Config): (e: real)
    ensures e > 0.0
  {
    1.0 / TokensPerSecond(c)
  }

  /** Seconds a whole bucket is worth. */
  function Depth(c: Config): real {
    c.Capacity() as real / TokensPerSecond(c)
  }

  function AsQueue(c: Config, s: AlgorithmState): LeakyBucket.State
    requires Fits(c, s) && !c.algorithm.Window?
  {
    match s
    case Tokens(b) => Mirror(b, c)
    case Queue(q) => q
  }

  function Debt(c: Config, s: AlgorithmState): real
    requires Fits(c, s) && !c.algorithm.Window?
  {
    AsQueue(c, s).queueSize / TokensPerSecond(c)
  }

  /** Tokens in the bucket, or free places in the queue, when a request is decided. */
  function OnHand(c: Config, s: AlgorithmState, now: real): real
    requires Fits(c, s) && !c.algorithm.Window?
  {
    match s
    case Tokens(b) => TokenBucket.Refilled(b, c, now)
    case Queue(q) => c.Capacity() as real - LeakyBucket.Leaked(q, c, now)
  }

  /** The tokens left when the debt is `seconds`. */
  function TokensLeft(c: Config, seconds: real): real {
    c.Capacity() as real - seconds * TokensPerSecond(c)
  }

  // ----- One decision -----

  /** The debt left at `now`, before the request is decided. */
  function Drained(c: Config, s: AlgorithmState, now: real): real
    requires Fits(c, s) && !c.algorithm.Window?
  {
    Max(0.0, Debt(c, s) - Max(0.0, now - AsQueue(c, s).lastLeak))
  }

  lemma AsQueueDecides(c: Config, s: AlgorithmState, now: real)
    requires Fits(c, s) && !c.algorithm.Window?
    ensures
      var d, l := Compute(s, c, now), LeakyBucket.Compute(AsQueue(c, s), c, now);
      && l.allowed == d.allowed
      && l.meta == d.meta
      && l.state == AsQueue(c, d.state)
      && OnHand(c, s, now) == c.Capacity() as real - LeakyBucket.Leaked(AsQueue(c, s), c, now)
  {
    if s.Tokens? {
      TokenIsLeaky(s.bucket, c, now);
      RefillIsLeak(s.bucket, c, now);
    }
  }

  lemma LeakInSeconds(c: Config, q: LeakyBucket.State, now: real)
    ensures
      LeakyBucket.Leaked(q, c, now) / TokensPerSecond(c) ==
      Max(0.0, q.queueSize / TokensPerSecond(c) - Max(0.0, now - q.lastLeak))
  {
    hide TokensPerSecond;
    var rate := TokensPerSecond(c);
    var e := Max(0.0, now - q.lastLeak);
    DivideOrder(q.queueSize, e * rate, rate);
    MultiplyDivide(e, rate);
  }

  lemma EnqueueInSeconds(c: Config, leaked: real, now: real)
    ensures
      var rate := TokensPerSecond(c);
      var d := LeakyBucket.Enqueue(leaked, c, now);
      && (d.allowed <==> leaked / rate + Spacing(c) <= Depth(c))
      && d.state.queueSize / rate == leaked / rate + (if d.allowed then Spacing(c) else 0.0)
      && d.state.lastLeak == now
      && d.meta.resetAt == now + d.state.queueSize / rate
      && (!d.allowed ==> d.meta.retryAfter == Some(MaxInt(1, Ceil(leaked / rate + Spacing(c) - Depth(c)))))
  {
    hide TokensPerSecond;
    var rate := TokensPerSecond(c);
    var capacity := c.Capacity() as real;
    DivideOrder(leaked, 1.0, rate);
    DivideOrder(leaked + 1.0, capacity, rate);
  }

  /** A bucket decision in seconds: drain, compare with the depth, add one spacing. */
  lemma DecisionInSeconds(c: Config, s: AlgorithmState, now: real)
    requires Fits(c, s) && !c.algorithm.Window?
    ensures
      var d := Compute(s, c, now);
      && (d.allowed <==> Drained(c, s, now) + Spacing(c) <= Depth(c))
      && Debt(c, d.state) == Drained(c, s, now) + (if d.allowed then Spacing(c) else 0.0)
      && AsQueue(c, d.state).lastLeak == now
      && d.meta.resetAt == now + Debt(c, d.state)
      && (!d.allowed ==> d.meta.retryAfter == Some(MaxInt(1, Ceil(Drained(c, s, now) + Spacing(c) - Depth(c)))))
      && OnHand(c, s, now) == TokensLeft(c, Drained(c, s, now))
  {
    hide Spacing;
    hide Depth;
    hide TokensPerSecond;
    hide Compute;
    hide AsQueue;
    hide OnHand;
    hide LeakyBucket.Leaked;
    hide LeakyBucket.Enqueue;
    var q := AsQueue(c, s);
    var leaked := LeakyBucket.Leaked(q, c, now);
    AsQueueDecides(c, s, now);
    LeakInSeconds(c, q, now);
    EnqueueInSeconds(c, leaked, now);
    DivideOrder(leaked, 0.0, TokensPerSecond(c));
  }

  lemma DepthHoldsOne(c: BucketConfig)
    ensures 0.0 < Spacing(c) <= Depth(c) <= Ttl(c)
    ensures Depth(c) - Spacing(c) == (c.Capacity() as real - 1.0) / TokensPerSecond(c)
  {
    hide TokensPerSecond;
    DivideOrder(1.0, c.Capacity() as real, TokensPerSecond(c));
    DivideOrder(c.Capacity() as real, 1.0, TokensPerSecond(c));
  }

  // ----- Any schedule of admissions, and the debt it builds up -----

  /** Seconds that `n` requests cost. */
  function Owed(c: Config, n: nat): (s: real)
    ensures s >= 0.0 && (n > 0 ==> s >= Spacing(c))
  {
    if n == 0 then 0.0 else Owed(c, n - 1) + Spacing(c)
  }

  /** The debt standing before request `j` when requests are admitted by `bs`. */
  function Backlog(c: Config, times: seq<real>, bs: seq<bool>, j: nat): real
    requires j < |times| == |bs|
  {
    if j == 0 then 0.0
    else Max(0.0, Backlog(c, times, bs, j - 1) + (if bs[j - 1] then Spacing(c) else 0.0)
                  - Max(0.0, times[j] - times[j - 1]))
  }

  /** Net debt of the stretch from `i` to `j`: admissions in it, less the time it took. */
  function Stretch(c: Config, times: seq<real>, bs: seq<bool>, i: nat, j: nat): real
    requires i <= j < |times| == |bs|
  {
    Owed(c, Count(bs, i, j)) - Forward(times, i, j)
  }

  lemma {:induction false} BacklogCoversStretch(c: Config, times: seq<real>, bs: seq<bool>, i: nat, j: nat)
    requires i <= j < |times| == |bs|
    ensures Stretch(c, times, bs, i, j) <= Backlog(c, times, bs, j)
  {
    hide Spacing;
    if i < j {
      BacklogCoversStretch(c, times, bs, i, j - 1);
    }
  }

  lemma {:induction false} BacklogIsSomeStretch(c: Config, times: seq<real>, bs: seq<bool>, j: nat) returns (i: nat)
    requires j < |times| == |bs|
    ensures i <= j && Backlog(c, times, bs, j) == Stretch(c, times, bs, i, j)
  {
    hide Spacing;
    i := j;
    if Backlog(c, times, bs, j) != 0.0 {
      i := BacklogIsSomeStretch(c, times, bs, j - 1);
    }
  }

  // ----- The code's own schedule -----

  lemma {:induction false} RunIsBacklog(c: BucketConfig, times: seq<real>, j: nat)
    requires j < |times|
    ensures Drained(c, StateAt(c, times, j), times[j]) == Backlog(c, times, Admissions(c, times), j)
  {
    hide Spacing;
    hide Depth;
    hide TokensPerSecond;
    if j == 0 {
      FreshHasNoDebt(c, times[0]);
    } else {
      RunIsBacklog(c, times, j - 1);
      DecisionInSeconds(c, StateAt(c, times, j - 1), times[j - 1]);
    }
  }

  lemma FreshHasNoDebt(c: BucketConfig, now: real)
    ensures Drained(c, InitialState(c), now) == 0.0
  {
    assert Debt(c, InitialState(c)) == 0.0;
  }

  /** Capacity plus refill over the stretch from `i` to `j`: `limit` tokens each `period`. */
  function Allowance(c: Config, times: seq<real>, i: nat, j: nat): real
    requires i <= j < |times|
  {
    c.Capacity() as real + Regained(c, Forward(times, i, j))
  }

  lemma AllowanceInTokens(c: Config, times: seq<real>, i: nat, j: nat)
    requires i <= j < |times|
    ensures Allowance(c, times, i, j) == c.Capacity() as real + Forward(times, i, j) * TokensPerSecond(c)
  {
    RegainedAtRate(c, Forward(times, i, j));
  }

  /** Room for request `j` in the stretch from `i`: the allowance less the admissions. */
  function Room(c: Config, times: seq<real>, bs: seq<bool>, i: nat, j: nat): real
    requires i <= j < |times| == |bs|
  {
    Allowance(c, times, i, j) - Count(bs, i, j) as real
  }

  lemma TokensLeftOrder(c: Config, x: real, y: real)
    ensures x <= y <==> TokensLeft(c, y) <= TokensLeft(c, x)
    ensures x + Spacing(c) <= Depth(c) <==> TokensLeft(c, x) >= 1.0
  {
    hide TokensPerSecond;
    var rate := TokensPerSecond(c);
    UnitsInTokens(c);
    hide Spacing;
    hide Depth;
    ScaleOrder(x, y, rate);
    ScaleOrder(x + Spacing(c), Depth(c), rate);
    Distribute(x, Spacing(c), rate);
  }

  lemma UnitsInTokens(c: Config)
    ensures Spacing(c) * TokensPerSecond(c) == 1.0
    ensures Depth(c) * TokensPerSecond(c) == c.Capacity() as real
  {
    hide TokensPerSecond;
    DivideOrder(1.0, 0.0, TokensPerSecond(c));
    DivideOrder(c.Capacity() as real, 0.0, TokensPerSecond(c));
  }

  lemma {:induction false} OwedInTokens(c: Config, n: nat)
    ensures Owed(c, n) * TokensPerSecond(c) == n as real
  {
    hide TokensPerSecond;
    hide Spacing;
    var rate := TokensPerSecond(c);
    UnitsInTokens(c);
    Distribute(0.0, 0.0, rate);
    if n > 0 {
      OwedInTokens(c, n - 1);
      Distribute(Owed(c, n - 1), Spacing(c), rate);
    }
  }

  lemma RoomInSeconds(c: Config, times: seq<real>, bs: seq<bool>, i: nat, j: nat)
    requires i <= j < |times| == |bs|
    ensures Room(c, times, bs, i, j) == TokensLeft(c, Stretch(c, times, bs, i, j))
  {
    hide Forward;
    hide Count;
    hide Owed;
    hide Allowance;
    OwedInTokens(c, Count(bs, i, j));
    AllowanceInTokens(c, times, i, j);
    var rate, owed, f := TokensPerSecond(c), Owed(c, Count(bs, i, j)), Forward(times, i, j);
    hide TokensPerSecond;
    Distribute(owed, f, rate);
  }

  lemma RoomBoundsBalance(c: BucketConfig, times: seq<real>, i: nat, j: nat)
    requires i <= j < |times|
    ensures
      var bs := Admissions(c, times);
      && OnHand(c, StateAt(c, times, j), times[j]) == TokensLeft(c, Backlog(c, times, bs, j))
      && OnHand(c, StateAt(c, times, j), times[j]) <= Room(c, times, bs, i, j)
      && (bs[j] <==> OnHand(c, StateAt(c, times, j), times[j]) >= 1.0)
  {
    hide *;
    var bs := Admissions(c, times);
    var s := StateAt(c, times, j);
    RunIsBacklog(c, times, j);
    DecisionInSeconds(c, s, times[j]);
    DecidesAt(c, times, j);
    BacklogCoversStretch(c, times, bs, i, j);
    RoomInSeconds(c, times, bs, i, j);
    TokensLeftOrder(c, Stretch(c, times, bs, i, j), Backlog(c, times, bs, j));
    TokensLeftOrder(c, Backlog(c, times, bs, j), 0.0);
  }

  lemma DecidesAt(c: Config, times: seq<real>, j: nat)
    requires j < |times|
    ensures Admissions(c, times)[j] == Compute(StateAt(c, times, j), c, times[j]).allowed
  {
  }

  /** The exact history form: the balance is the least room over all stretches ending
      at `j`, so `j` is admitted just when every stretch, counting `j`, stays within
      capacity plus refill. Times may be in any order. */
  lemma BalanceIsLeastRoom(c: BucketConfig, times: seq<real>, j: nat)
    requires j < |times|
    ensures
      var bs := Admissions(c, times);
      var balance := OnHand(c, StateAt(c, times, j), times[j]);
      && (forall i :: 0 <= i <= j ==> balance <= Room(c, times, bs, i, j))
      && (exists i :: 0 <= i <= j && balance == Room(c, times, bs, i, j))
      && (bs[j] <==> forall i :: 0 <= i <= j ==> Room(c, times, bs, i, j) >= 1.0)
  {
    hide *;
    var bs := Admissions(c, times);
    var k := BacklogIsSomeStretch(c, times, bs, j);
    RoomInSeconds(c, times, bs, k, j);
    forall i | 0 <= i <= j
      ensures OnHand(c, StateAt(c, times, j), times[j]) <= Room(c, times, bs, i, j)
    {
      RoomBoundsBalance(c, times, i, j);
    }
    RoomBoundsBalance(c, times, k, j);
  }

  /** A schedule that never exceeds capacity plus refill over any stretch ending in an admission. */
  ghost predicate Conforms(c: Config, times: seq<real>, bs: seq<bool>)
    requires |times| == |bs|
  {
    forall i, j :: 0 <= i <= j < |times| && bs[j] ==> Room(c, times, bs, i, j) >= 1.0
  }

  lemma CodeConforms(c: BucketConfig, times: seq<real>)
    ensures Conforms(c, times, Admissions(c, times))
  {
    hide Room;
    hide OnHand;
    hide StateAt;
    forall i, j | 0 <= i <= j < |times| && Admissions(c, times)[j]
      ensures Room(c, times, Admissions(c, times), i, j) >= 1.0
    {
      BalanceIsLeastRoom(c, times, j);
    }
  }

  /** Greedy optimality: no conforming schedule has admitted more requests than the
      code after any prefix, whatever the request times. */
  lemma NoScheduleAdmitsMore(c: BucketConfig, times: seq<real>, other: seq<bool>, n: nat)
    requires n <= |times| == |other|
    requires Conforms(c, times, other)
    ensures Count(other, 0, n) <= Count(Admissions(c, times), 0, n)
  {
    hide Conforms;
    hide Leads;
    hide StateAt;
    if n > 0 {
      LeadCoversDebt(c, times, other, n - 1);
      OneMoreRequest(c, times, other, n - 1);
    }
  }

  /** The code's lead in admissions always pays for its lead in debt. */
  ghost predicate Leads(c: BucketConfig, times: seq<real>, other: seq<bool>, j: nat)
    requires j < |times| == |other|
  {
    var bs := Admissions(c, times);
    && Count(other, 0, j) <= Count(bs, 0, j)
    && Backlog(c, times, bs, j) - Backlog(c, times, other, j) <= Owed(c, Count(bs, 0, j) - Count(other, 0, j))
  }

  lemma OneMoreRequest(c: BucketConfig, times: seq<real>, other: seq<bool>, j: nat)
    requires j < |times| == |other|
    requires Conforms(c, times, other) && Leads(c, times, other, j)
    ensures
      var bs := Admissions(c, times);
      && Count(other, 0, j + 1) <= Count(bs, 0, j + 1)
      && Backlog(c, times, bs, j) + (if bs[j] then Spacing(c) else 0.0)
         - Backlog(c, times, other, j) - (if other[j] then Spacing(c) else 0.0)
         <= Owed(c, Count(bs, 0, j + 1) - Count(other, 0, j + 1))
  {
    hide Spacing;
    hide Depth;
    hide Backlog;
    hide Conforms;
    hide DecisionAt;
    hide StateAt;
    CodeAdmitsWithinDepth(c, times, j);
    if other[j] {
      ConformingWithinDepth(c, times, other, j);
    }
  }

  lemma CodeAdmitsWithinDepth(c: BucketConfig, times: seq<real>, j: nat)
    requires j < |times|
    ensures
      Admissions(c, times)[j] <==> Backlog(c, times, Admissions(c, times), j) + Spacing(c) <= Depth(c)
  {
    hide *;
    RunIsBacklog(c, times, j);
    DecisionInSeconds(c, StateAt(c, times, j), times[j]);
    DecidesAt(c, times, j);
  }

  lemma ConformingWithinDepth(c: Config, times: seq<real>, bs: seq<bool>, j: nat)
    requires j < |times| == |bs| && bs[j]
    requires Conforms(c, times, bs)
    ensures Backlog(c, times, bs, j) + Spacing(c) <= Depth(c)
  {
    hide Room;
    hide Spacing;
    hide Depth;
    hide TokensLeft;
    hide Backlog;
    hide Stretch;
    var k := BacklogIsSomeStretch(c, times, bs, j);
    RoomInSeconds(c, times, bs, k, j);
    TokensLeftOrder(c, Stretch(c, times, bs, k, j), 0.0);
  }

  lemma {:induction false} LeadCoversDebt(c: BucketConfig, times: seq<real>, other: seq<bool>, j: nat)
    requires j < |times| == |other|
    requires Conforms(c, times, other)
    ensures Leads(c, times, other, j)
  {
    hide Spacing;
    hide Conforms;
    hide StateAt;
    if j > 0 {
      LeadCoversDebt(c, times, other, j - 1);
      OneMoreRequest(c, times, other, j - 1);
    }
  }

  /** No stretch admits more than capacity plus refill, at any clock. */
  lemma {:induction false} StretchIsCapped(c: BucketConfig, times: seq<real>, i: nat, j: nat)
    requires i <= j < |times|
    ensures Count(Admissions(c, times), i, j + 1) as real <= Allowance(c, times, i, j)
  {
    hide Allowance;
    hide DecisionAt;
    hide OnHand;
    var bs := Admissions(c, times);
    AllowanceGrows(c, times, i, j);
    if bs[j] {
      BalanceIsLeastRoom(c, times, j);
      assert Room(c, times, bs, i, j) >= 1.0;
    } else if i < j {
      StretchIsCapped(c, times, i, j - 1);
    }
  }

  lemma AllowanceGrows(c: BucketConfig, times: seq<real>, i: nat, j: nat)
    requires i <= j < |times|
    ensures Allowance(c, times, i, j) >= 1.0
    ensures i < j ==> Allowance(c, times, i, j - 1) <= Allowance(c, times, i, j)
  {
    hide TokensPerSecond;
    hide Allowance;
    AllowanceInTokens(c, times, i, j);
    ScaleOrder(0.0, Forward(times, i, j), TokensPerSecond(c));
    if i < j {
      AllowanceInTokens(c, times, i, j - 1);
      ScaleOrder(Forward(times, i, j - 1), Forward(times, i, j), TokensPerSecond(c));
    }
  }

  /** With clocks that do not go back and a bucket as large as the limit, less than a
      period admits less than twice the limit. */
  lemma PeriodIsCapped(c: BucketConfig, times: seq<real>, i: nat, j: nat)
    requires i <= j < |times| && Sorted(times)
    requires c.Capacity() == c.limit && times[j] - times[i] < c.period as real
    ensures Count(Admissions(c, times), i, j + 1) < 2 * c.limit
  {
    hide StateAt;
    hide Count;
    hide Forward;
    StretchIsCapped(c, times, i, j);
    ForwardIsElapsed(times, i, j);
    hide Regained;
    RegainedOverPeriods(c, times[j] - times[i]);
  }

  // ----- reset_at as the whole state -----

  /** The arrival-time recurrence: with clocks that do not go back, `reset_at` alone
      decides the next request and determines the next `reset_at`. */
  lemma ResetAtIsTheState(c: BucketConfig, times: seq<real>, j: nat)
    requires 0 < j < |times| && Sorted(times)
    ensures
      var prev, d := DecisionAt(c, times, j - 1).meta.resetAt, DecisionAt(c, times, j);
      && (d.allowed <==>
            Max(0.0, prev - times[j]) <= (c.Capacity() as real - 1.0) * c.period as real / c.limit as real)
      && d.meta.resetAt == Max(times[j], prev) + (if d.allowed then c.period as real / c.limit as real else 0.0)
  {
    hide Compute;
    hide Spacing;
    hide Depth;
    hide Debt;
    UnitsInLimits(c);
    DecisionInSeconds(c, StateAt(c, times, j - 1), times[j - 1]);
    DecisionInSeconds(c, StateAt(c, times, j), times[j]);
    DepthHoldsOne(c);
  }

  /** The seconds of one request, and of all but one, in the config's own numbers. */
  lemma UnitsInLimits(c: Config)
    ensures Spacing(c) == c.period as real / c.limit as real
    ensures Depth(c) - Spacing(c) == (c.Capacity() as real - 1.0) * c.period as real / c.limit as real
  {
    RatioRules(c.limit as real, c.period as real, 1.0);
    RatioRules(c.limit as real, c.period as real, c.Capacity() as real - 1.0);
    var rate := TokensPerSecond(c);
    assert Spacing(c) == c.period as real / c.limit as real;
    assert (c.Capacity() as real - 1.0) / rate == (c.Capacity() as real - 1.0) * c.period as real / c.limit as real;
    hide TokensPerSecond;
    DivideOrder(c.Capacity() as real, 1.0, rate);
  }

  lemma FirstResetAt(c: BucketConfig, now: real)
    ensures
      var d := Compute(InitialState(c), c, now);
      d.allowed && d.meta.resetAt == now + c.period as real / c.limit as real
  {
    hide Compute;
    hide Spacing;
    hide Depth;
    UnitsInLimits(c);
    FreshHasNoDebt(c, now);
    DecisionInSeconds(c, InitialState(c), now);
    DepthHoldsOne(c);
  }

  /** A request that finds the bucket drained by the one before it: the bucket has
      regained `limit` tokens for each `period` since, up to its capacity, so the
      request is admitted iff elapsed * limit >= period, and after exactly one period
      a bucket that can hold them offers `limit` admissions. */
  lemma DrainedBucketRefills(c: BucketConfig, times: seq<real>, j: nat)
    requires 0 < j < |times| && Sorted(times)
    requires AsQueue(c, StateAt(c, times, j)).queueSize == c.Capacity() as real
    ensures
      var elapsed, d := times[j] - times[j - 1], DecisionAt(c, times, j);
      && OnHand(c, StateAt(c, times, j), times[j])
         == Min(c.Capacity() as real, Regained(c, elapsed))
      && (d.allowed <==> elapsed * c.limit as real >= c.period as real)
      && (elapsed == c.period as real && c.limit <= c.Capacity() ==> d.allowed && d.meta.remaining == c.limit - 1)
  {
    hide *;
    var s, elapsed := StateAt(c, times, j), times[j] - times[j - 1];
    StampIsLast(c, times, j);
    DrainedOnHand(c, s, times[j]);
    OnHandDecides(c, s, times[j]);
    RegainedOverPeriods(c, elapsed);
    DecidesFromState(c, times, j);
    ExactRemainder(c, OnHand(c, s, times[j]), Regained(c, elapsed));
  }

  lemma DecidesFromState(c: Config, times: seq<real>, j: nat)
    requires j < |times|
    ensures DecisionAt(c, times, j) == Compute(StateAt(c, times, j), c, times[j])
  {
  }

  lemma DrainedOnHand(c: BucketConfig, s: AlgorithmState, now: real)
    requires Fits(c, s) && AsQueue(c, s).queueSize == c.Capacity() as real && AsQueue(c, s).lastLeak <= now
    ensures OnHand(c, s, now) == Min(c.Capacity() as real, Regained(c, now - AsQueue(c, s).lastLeak))
  {
    RefillIsExact(c, TokenBucket.State(0.0, AsQueue(c, s).lastLeak), AsQueue(c, s), now);
    hide Regained;
    hide TokensPerSecond;
  }

  lemma ExactRemainder(c: BucketConfig, balance: real, regained: real)
    requires balance == Min(c.Capacity() as real, regained)
    ensures balance >= 1.0 <==> regained >= 1.0
    ensures
      regained == c.limit as real && c.limit <= c.Capacity() ==>
      MaxInt(0, (balance - 1.0).Floor) == c.limit - 1 && regained >= 1.0
  {
  }

  lemma StampIsLast(c: Config, times: seq<real>, j: nat)
    requires 0 < j < |times| && Sorted(times) && !c.algorithm.Window?
    ensures AsQueue(c, StateAt(c, times, j)).lastLeak == times[j - 1] <= times[j]
  {
  }

  /** The balance decides: a whole token admits, and what is left over is `remaining`. */
  lemma OnHandDecides(c: BucketConfig, s: AlgorithmState, now: real)
    requires Fits(c, s)
    ensures
      var d, balance := Compute(s, c, now), OnHand(c, s, now);
      && (d.allowed <==> balance >= 1.0)
      && d.meta.remaining == MaxInt(0, (if d.allowed then balance - 1.0 else balance).Floor)
  {
  }
}
