/** Where the two backends part, and exactly when: clashing keys, `burst_size` of zero
    or less, and clock readings that Redis takes itself. */
module RedisDifferences {
  import opened Numbers
  import opened Models
  import opened Algorithms
  import opened Histories
  import opened RedisScripts
  import opened RedisSteps
  import opened RedisRuns
  import opened StoreRuns
  import L = LocalStore
  import TokenBucket
  import LeakyBucket

  // ----- Keys -----

  function TwoChecks(a: string, c: Config, b: string, c': Config, t: real): seq<L.Event> {
    [L.Event(a, L.Check(c, t)), L.Event(b, L.Check(c', t))]
  }

  /** A check after a first check of another key gets a result just when neither of the
      two is a window whose counter key is the other. Otherwise a script meets a value
      of the wrong type and the caller sees the backend as unavailable. */
  lemma SecondKeyWorksIff(env: Env, prefix: string, src: TimeSource, a: string, c: SoundConfig,
        b: string, c': SoundConfig, t: real)
    requires a != b && t >= 0.0
    ensures
      OutcomeAt(env, prefix, src, TwoChecks(a, c, b, c', t), 1).Ok?
      <==> !(c.algorithm.Window? && b == SeqKey(a)) && !(c'.algorithm.Window? && a == SeqKey(b))
    ensures
      OutcomeAt(env, prefix, src, TwoChecks(a, c, b, c', t), 1).Ok?
      || OutcomeAt(env, prefix, src, TwoChecks(a, c, b, c', t), 1).BackendUnavailable?
  {
    hide RedisCheck;
    hide Alive;
    var events := TwoChecks(a, c, b, c', t);
    var db := DbAfter(env, prefix, src, events, 1);
    AfterFirst(env, prefix, src, a, c, b, c', t);
    KeysDiffer(prefix, a, b);
    KeysDiffer(prefix, SeqKey(a), b);
    KeysDiffer(prefix, a, SeqKey(b));
    KeysDiffer(prefix, SeqKey(a), SeqKey(b));
    if c.algorithm.Window? && b == SeqKey(a) {
      CounterStopsCheck(env, db, prefix, b, c', SuppliedTime(src, t), t);
    } else if c'.algorithm.Window? && a == SeqKey(b) {
      FirstKeyStopsCounter(env, db, prefix, b, c', SuppliedTime(src, t), t);
    } else {
      UnrelatedKeyWorks(env, prefix, src, events, b, c', 1);
    }
  }

  lemma UnrelatedKeyWorks(env: Env, prefix: string, src: TimeSource, events: seq<L.Event>, key: string,
        c: SoundConfig, j: nat)
    requires j < |events| && IsCheck(events[j], key)
    requires OneConfig(events, key, c) && Ordered(events, key) && NonNegative(events, key) && NoClash(events, key, c)
    ensures OutcomeAt(env, prefix, src, events, j).Ok?
  {
    hide OutcomeAt;
    hide L.ReplyAt;
    hide L.ToOutcome;
    RedisRefinesLocal(env, prefix, src, events, key, c, j, 0.0);
  }

  /** What the first check leaves behind. */
  lemma AfterFirst(env: Env, prefix: string, src: TimeSource, a: string, c: SoundConfig, b: string, c': SoundConfig,
        t: real)
    requires t >= 0.0
    ensures
      var db := DbAfter(env, prefix, src, TwoChecks(a, c, b, c', t), 1);
      var full, seqKey := prefix + a, prefix + SeqKey(a);
      && Alive(env, db, full, t)
      && !db[full].value.Counter?
      && (c.algorithm.Window? ==> Alive(env, db, seqKey, t) && db[seqKey].value.Counter?)
      && forall k :: k in db ==> k == full || (c.algorithm.Window? && k == seqKey)
  {
    hide RedisCheck;
    hide WindowSaved;
    hide Compute;
    hide StateAt;
    NothingRemembered(prefix, a, c, src);
    FreshCheck(env, prefix, src, a, c, t);
    var db := RedisCheck(env, map[], prefix, a, c, SuppliedTime(src, t), t).0;
    forall k | k in db
      ensures k == prefix + a || (c.algorithm.Window? && k == prefix + SeqKey(a))
    {
      if k != prefix + a && (c.algorithm.Window? ==> k != prefix + SeqKey(a)) {
        OthersTouchNothing(env, map[], prefix, a, c, SuppliedTime(src, t), t, k);
      }
    }
  }

  lemma FreshCheck(env: Env, prefix: string, src: TimeSource, a: string, c: SoundConfig, t: real)
    requires t >= 0.0 && Remembered(map[], prefix, a, c, src, [])
    ensures
      var db := RedisCheck(env, map[], prefix, a, c, SuppliedTime(src, t), t).0;
      var full, seqKey := prefix + a, prefix + SeqKey(a);
      && Alive(env, db, full, t) && !db[full].value.Counter?
      && (c.algorithm.Window? ==> Alive(env, db, seqKey, t) && db[seqKey].value.Counter?)
  {
    hide RedisCheck;
    hide Compute;
    hide Remembered;
    hide Bounded;
    TtlIsPositive(c);
    if c.algorithm.Window? {
      WindowCheckAgrees(env, map[], prefix, a, c, src, [], t);
    } else {
      BucketCheckAgrees(env, map[], prefix, a, c, src, [], t);
    }
  }

  lemma TtlIsPositive(c: SoundConfig)
    ensures RedisTtl(c) >= 1
  {
  }

  lemma CounterStopsCheck(env: Env, db: Db, prefix: string, b: string, c: Config, time: Option<real>, t: real)
    requires Alive(env, db, prefix + b, t) && db[prefix + b].value.Counter?
    ensures RedisCheck(env, db, prefix, b, c, time, t).1 == BackendUnavailable
  {
    hide TokenReply;
    hide LeakyReply;
    hide WindowReply;
    hide TokensPerSecond;
  }

  lemma FirstKeyStopsCounter(env: Env, db: Db, prefix: string, b: string, c: Config, time: Option<real>, t: real)
    requires c.algorithm.Window? && prefix + b !in db
    requires Alive(env, db, prefix + SeqKey(b), t) && !db[prefix + SeqKey(b)].value.Counter?
    ensures RedisCheck(env, db, prefix, b, c, time, t).1 == BackendUnavailable
  {
    hide WindowReply;
    KeysDiffer(prefix, b, SeqKey(b));
    KeysDiffer(prefix, b, b);
    assert forall hi :: OutsideRange(map[], 0.0, hi) == map[];
    assert db - {prefix + b} == db;
  }

  // ----- burst_size -----

  /** The local first check of a key and its Redis counterpart agree just when
      `burst_size` is not 0 (Redis falls back to the limit) and, for the token bucket,
      not negative (Redis then reports a negative `remaining` and no result is built). */
  lemma FirstChecksAgreeIff(env: Env, prefix: string, key: string, c: Config, now: real)
    requires !c.algorithm.Window? && now >= 0.0
    ensures
      var d := Compute(InitialState(c), c, now);
      RedisCheck(env, map[], prefix, key, c, Some(now), now).1
        == Floored(L.ToOutcome(c, L.Decided(d.allowed, d.meta), now, now))
      <==> c.burstSize.None? || c.burstSize.value > 0 || (c.burstSize.value < 0 && c.algorithm.Leaky?)
  {
    if c.Capacity() >= 1 {
      hide RedisCheck;
      hide Compute;
      hide Floored;
      hide L.ToOutcome;
      NothingRemembered(prefix, key, c, Supplied);
      CheckAgrees(env, map[], prefix, key, c, Supplied, [], now);
    } else {
      FirstLocalVerdict(c, now);
      FirstRedisVerdict(env, prefix, key, c, now);
      hide RedisCheck;
      hide Compute;
    }
  }

  lemma FirstLocalVerdict(c: Config, now: real)
    requires !c.algorithm.Window? && c.Capacity() <= 0 && now >= 0.0
    ensures
      var d := Compute(InitialState(c), c, now);
      && !d.allowed
      && d.meta.remaining == 0
      && (c.algorithm.Leaky? ==>
            d.meta == Meta(0, now, 0, Some(MaxInt(1, Ceil((1.0 - c.Capacity() as real) / TokensPerSecond(c))))))
  {
    FreshFor(c, now);
    DivideOrder(0.0, 1.0, TokensPerSecond(c));
  }

  lemma FreshFor(c: Config, now: real)
    ensures TokenBucket.Refilled(TokenBucket.InitialState(c), c, now) == c.Capacity() as real
    ensures LeakyBucket.Leaked(LeakyBucket.InitialState(c), c, now) == 0.0
  {
    ScaleOrder(0.0, Max(0.0, now), TokensPerSecond(c));
  }

  lemma FirstRedisVerdict(env: Env, prefix: string, key: string, c: Config, now: real)
    requires !c.algorithm.Window? && c.Capacity() <= 0 && now >= 0.0
    ensures
      var o := RedisCheck(env, map[], prefix, key, c, Some(now), now).1;
      && (c.Capacity() == 0 ==> o.Ok? && o.result.allowed)
      && (c.Capacity() < 0 && c.algorithm.Token? ==> o.ValueError?)
      && (c.Capacity() < 0 && c.algorithm.Leaky? ==>
            o == Ok(RateLimitResult(false, 0, c.limit, Some(MaxInt(1,
              Ceil((1.0 - c.Capacity() as real) / TokensPerSecond(c)))),
                                    now.Floor as real, 0)))
  {
    var capacity, rate := RedisCapacity(c) as real, TokensPerSecond(c);
    assert Times(0.0, rate) == 0.0;
    assert RefilledTokens(map[], capacity, rate, now) == capacity;
    assert LeakedQueue(map[], rate, now) == 0.0;
    assert Over(0.0, rate) == 0.0;
    hide RefilledTokens;
    hide LeakedQueue;
    hide TokensPerSecond;
    hide HmSet;
    hide Expire;
    hide BucketTtl;
    hide Ceil;
  }

  // ----- Whose clock -----

  /** Without a supplied time, or with a negative one, a script runs as if the caller
      had supplied the server's clock; the window script cuts it to whole milliseconds. */
  lemma NoTimeMeansServerTime(env: Env, db: Db, prefix: string, key: string, c: Config, now: Option<real>, clock: real)
    requires clock >= 0.0 && (now.Some? ==> now.value < 0.0)
    ensures
      var reading := if c.algorithm.Window? then (clock * 1000.0).Floor as real / 1000.0 else clock;
      RedisCheck(env, db, prefix, key, c, now, clock) == RedisCheck(env, db, prefix, key, c, Some(reading), clock)
  {
    hide TokenScript;
    hide LeakyScript;
    hide WindowScript;
    hide ParseScriptResult;
    hide TokensPerSecond;
    var supplied := now.GetOr(TIME_SENTINEL);
    if c.algorithm.Window? {
      WindowTakesServerTime(env, db, prefix + key, prefix + SeqKey(key), c.limit as real, c.period as real,
        supplied, clock);
    } else {
      BucketTakesServerTime(env, db, prefix + key, RedisCapacity(c) as real, TokensPerSecond(c), supplied, clock);
    }
  }

  lemma BucketTakesServerTime(env: Env, db: Db, key: string, capacity: real, rate: real, supplied: real, clock: real)
    requires rate > 0.0 && supplied < 0.0 <= clock
    ensures TokenScript(env, db, key, capacity, rate, supplied, clock)
      == TokenScript(env, db, key, capacity, rate, clock, clock)
    ensures LeakyScript(env, db, key, capacity, rate, supplied, clock)
      == LeakyScript(env, db, key, capacity, rate, clock, clock)
  {
    assert Seconds(supplied, clock) == Seconds(clock, clock);
    hide *;
  }

  lemma WindowTakesServerTime(env: Env, db: Db, key: string, seqKey: string, limit: real, period: real,
        supplied: real, clock: real)
    requires supplied < 0.0 <= clock
    ensures
      WindowScript(env, db, key, seqKey, limit, period, supplied, clock)
      == WindowScript(env, db, key, seqKey, limit, period, (clock * 1000.0).Floor as real / 1000.0, clock)
  {
    hide Milliseconds;
    hide ZRemRangeByScore;
    hide AddMember;
    hide WindowReply;
    hide Scores;
    hide Peek;
    CutTimeInMilliseconds(supplied, clock);
  }

  lemma CutTimeInMilliseconds(supplied: real, clock: real)
    requires supplied < 0.0 <= clock
    ensures Milliseconds(supplied, clock) == Milliseconds((clock * 1000.0).Floor as real / 1000.0, clock)
  {
  }
}
