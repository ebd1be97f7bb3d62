/** One Lua script call against one decision of the algorithm: same answer, same state,
    saved under the script's own TTL. */
module RedisSteps {
  import opened Numbers
  import opened Models
  import opened Algorithms
  import opened RedisScripts
  import L = LocalStore
  import TokenBucket
  import LeakyBucket
  import SlidingWindow

  // ----- Replies -----

  /** What Redis reports for a local outcome: the same, with `reset_at` cut to whole seconds. */
  function Floored(o: Outcome): Outcome {
    match o
    case Ok(r) => Ok(r.(resetAt := r.resetAt.Floor as real))
    case _ => o
  }

  function ToIntegers(d: Decision<AlgorithmState>): ScriptReply {
    Integers(
      if d.allowed then 1 else 0,
      d.meta.remaining,
      d.meta.retryAfter.GetOr(0),
      Truncate(d.meta.resetAt),
      d.meta.requestCount)
  }

  /** Parsing the integers of a decision builds the local result, with `reset_at` floored. */
  lemma ParseAgrees(c: SoundConfig, d: Decision<AlgorithmState>, now: real)
    requires Accounted(c, d.meta) && d.meta.resetAt >= 0.0
    requires if d.allowed then d.meta.retryAfter.None? else d.meta.retryAfter.Some? && d.meta.retryAfter.value >= 1
    ensures
      ParseScriptResult(ToIntegers(d), c) == Floored(L.ToOutcome(c, L.Decided(d.allowed, d.meta), now, now))
    ensures ParseScriptResult(ToIntegers(d), c).Ok?
  {
  }

  // ----- Buckets -----

  function RedisTtl(c: SoundConfig): int {
    if c.algorithm.Window? then MaxInt(1, Ceil(c.period as real))
    else BucketTtl(c.Capacity() as real, TokensPerSecond(c))
  }

  /** Redis rounds the local TTL up to whole seconds, and no further. */
  lemma RedisTtlIsExact(c: SoundConfig)
    ensures
      var exact := Max(1.0, if c.algorithm.Window? then c.period as real
                            else c.Capacity() as real * c.period as real / c.limit as real);
      exact <= RedisTtl(c) as real < exact + 1.0 && exact == Ttl(c)
  {
    TtlIsExact(c);
    var ttl := Ttl(c);
    hide TokensPerSecond;
  }

  function BucketFields(s: AlgorithmState): map<string, real>
    requires !s.Log?
  {
    match s
    case Tokens(b) => map["tokens" := b.tokens, "last_refill" := b.lastRefill]
    case Queue(q) => map["queue_size" := q.queueSize, "last_leak" := q.lastLeak]
  }

  /** What a live bucket key holds is the state `s`; a dead key stands for a fresh bucket. */
  ghost predicate BucketHeld(env: Env, db: Db, key: string, c: SoundConfig, s: AlgorithmState, clock: real)
    requires Fits(c, s) && !s.Log?
  {
    Alive(env, db, key, clock) ==> db[key].value == Hash(BucketFields(s))
  }

  lemma SaveBucket(env: Env, db: Db, key: string, fields: map<string, real>, ttl: int, clock: real)
    requires IsHash(Peek(env, db, key, clock))
    requires Fields(env, db, key, clock).Keys <= fields.Keys
    ensures
      Expire(env, HmSet(env, db, key, fields, clock), key, ttl, clock)
      == db[key := Slot(Hash(fields), Some(clock + ttl as real))]
  {
    assert Fields(env, db, key, clock) + fields == fields;
  }

  lemma TokenRepliesAgree(tokens: real, c: Config, now: real)
    requires 0.0 <= tokens <= c.Capacity() as real
    ensures
      var d := TokenBucket.Spend(tokens, c, now);
      TokenReply(tokens, c.Capacity() as real, TokensPerSecond(c), now)
      == (d.state.tokens, ToIntegers(Decision(d.allowed, Tokens(d.state), d.meta)))
  {
    hide TokensPerSecond;
  }

  lemma LeakyRepliesAgree(leaked: real, c: Config, now: real)
    requires 0.0 <= leaked
    ensures
      var d := LeakyBucket.Enqueue(leaked, c, now);
      LeakyReply(leaked, c.Capacity() as real, TokensPerSecond(c), now)
      == (d.state.queueSize, ToIntegers(Decision(d.allowed, Queue(d.state), d.meta)))
  {
    hide TokensPerSecond;
  }

  /** The level a script finds is the one the algorithm computes; a dead key reads as fresh. */
  lemma LevelsAgree(env: Env, db: Db, key: string, c: SoundConfig, s: AlgorithmState, now: real)
    requires Fits(c, s) && !s.Log? && BucketHeld(env, db, key, c, s, now)
    ensures
      var before := if Alive(env, db, key, now) then s else InitialState(c);
      var fields := Fields(env, db, key, now);
      && IsHash(Peek(env, db, key, now))
      && fields.Keys <= BucketFields(s).Keys
      && (s.Tokens? ==> RefilledTokens(fields, c.Capacity() as real, TokensPerSecond(c), now)
                        == TokenBucket.Refilled(before.bucket, c, now))
      && (s.Queue? ==> LeakedQueue(fields, TokensPerSecond(c), now) == LeakyBucket.Leaked(before.leaky, c, now))
  {
    FreshIsFull(c, now);
    assert Times(0.0, TokensPerSecond(c)) == 0.0;
    hide TokensPerSecond;
    hide Times;
  }

  /** A bucket script is one decision of the algorithm, saved with the script's own TTL,
      whether the time is supplied or the server's. */
  lemma BucketScriptAgrees(env: Env, db: Db, key: string, c: SoundConfig, s: AlgorithmState, supplied: real, now: real)
    requires Fits(c, s) && !s.Log? && Bounded(c, s) && Seconds(supplied, now) == now
    requires BucketHeld(env, db, key, c, s, now)
    ensures
      var d := Compute(if Alive(env, db, key, now) then s else InitialState(c), c, now);
      var rate, capacity := TokensPerSecond(c), c.Capacity() as real;
      (if c.algorithm.Token? then TokenScript(env, db, key, capacity, rate, supplied, now)
       else LeakyScript(env, db, key, capacity, rate, supplied, now))
      == (db[key := Slot(Hash(BucketFields(d.state)), Some(now + RedisTtl(c) as real))], ToIntegers(d))
  {
    var before := if Alive(env, db, key, now) then s else InitialState(c);
    InitialIsBounded(c);
    LevelsAreBounded(c, before, now);
    LevelsAgree(env, db, key, c, s, now);
    SaveBucket(env, db, key, BucketFields(Compute(before, c, now).state), RedisTtl(c), now);
    if s.Tokens? {
      TokenRepliesAgree(TokenBucket.Refilled(before.bucket, c, now), c, now);
    } else {
      LeakyRepliesAgree(LeakyBucket.Leaked(before.leaky, c, now), c, now);
    }
    hide Seconds;
    hide TokensPerSecond;
    hide TokenBucket.Refilled;
    hide TokenBucket.Spend;
    hide LeakyBucket.Leaked;
    hide LeakyBucket.Enqueue;
    hide TokenReply;
    hide LeakyReply;
    hide RefilledTokens;
    hide LeakedQueue;
    hide HmSet;
    hide Expire;
  }

  lemma LevelsAreBounded(c: SoundConfig, s: AlgorithmState, now: real)
    requires Fits(c, s) && !s.Log? && Bounded(c, s)
    ensures s.Tokens? ==> 0.0 <= TokenBucket.Refilled(s.bucket, c, now) <= c.Capacity() as real
    ensures s.Queue? ==> 0.0 <= LeakyBucket.Leaked(s.leaky, c, now)
  {
    if s.Tokens? {
      ScaleOrder(0.0, Max(0.0, now - s.bucket.lastRefill), TokensPerSecond(c));
    }
  }

  // ----- Window members -----

  /** Sequence numbers grow along `order` and none is above `top`. */
  predicate Rising(order: seq<Member>, top: int) {
    order == [] ||
    (order[|order| - 1].seqNo <= top && Rising(order[..|order| - 1], order[|order| - 1].seqNo - 1))
  }

  /** The sorted set in which member `order[i]` scores `times[i]`, in milliseconds. */
  function Zip(order: seq<Member>, times: seq<real>): map<Member, real>
    requires |order| == |times|
  {
    if order == [] then map[]
    else
      var n := |order| - 1;
      Zip(order[..n], times[..n])[order[n] := times[n] * 1000.0]
  }

  /** The set holds one member for each local timestamp, in order of admission. */
  ghost predicate Holds(scores: map<Member, real>, requests: seq<real>, top: int) {
    exists order :: |order| == |requests| && Rising(order, top) && scores == Zip(order, requests)
  }

  lemma {:induction false} OlderMembers(order: seq<Member>, times: seq<real>, top: int, m: Member)
    requires |order| == |times| && Rising(order, top) && m in Zip(order, times)
    ensures m.seqNo <= top
  {
    var n := |order| - 1;
    if m != order[n] {
      OlderMembers(order[..n], times[..n], order[n].seqNo - 1, m);
    }
  }

  /** A member with a number above `top` cannot collide with one already there. */
  lemma NewMemberIsNew(scores: map<Member, real>, requests: seq<real>, top: int, m: Member)
    requires Holds(scores, requests, top) && m.seqNo > top
    ensures m !in scores
  {
    if m in scores {
      var order :| |order| == |requests| && Rising(order, top) && scores == Zip(order, requests);
      OlderMembers(order, requests, top, m);
    }
  }

  /** ZCARD is the length of the local list. */
  lemma {:induction false} ZipSize(order: seq<Member>, times: seq<real>, top: int)
    requires |order| == |times| && Rising(order, top)
    ensures |Zip(order, times)| == |times|
  {
    if order != [] {
      var n := |order| - 1;
      var front, last := Zip(order[..n], times[..n]), order[n];
      ZipSize(order[..n], times[..n], last.seqNo - 1);
      if last in front {
        OlderMembers(order[..n], times[..n], last.seqNo - 1, last);
      }
      assert Zip(order, times).Keys == front.Keys + {last};
    }
  }

  lemma HoldsSize(scores: map<Member, real>, requests: seq<real>, top: int)
    requires Holds(scores, requests, top)
    ensures |scores| == |requests|
  {
    var order :| |order| == |requests| && Rising(order, top) && scores == Zip(order, requests);
    ZipSize(order, requests, top);
  }

  lemma {:induction false} ZipLowest(order: seq<Member>, times: seq<real>, m: Member)
    requires |order| == |times| > 0 && Sorted(times)
    ensures m in Zip(order, times) ==> times[0] * 1000.0 <= Zip(order, times)[m] <= times[|times| - 1] * 1000.0
  {
    var n := |order| - 1;
    if n > 0 && m != order[n] {
      ZipLowest(order[..n], times[..n], m);
    }
  }

  lemma {:induction false} ZipHasFirst(order: seq<Member>, times: seq<real>, top: int)
    requires |order| == |times| > 0 && Rising(order, top)
    ensures order[0] in Zip(order, times) && Zip(order, times)[order[0]] == times[0] * 1000.0
  {
    var n := |order| - 1;
    if n > 0 {
      var last := order[n].seqNo - 1;
      ZipHasFirst(order[..n], times[..n], last);
      OlderMembers(order[..n], times[..n], last, order[0]);
    }
  }

  lemma LowestIsOldest(scores: map<Member, real>, requests: seq<real>, top: int)
    requires Holds(scores, requests, top) && Sorted(requests) && requests != []
    ensures scores != map[] && LowestScore(scores) == requests[0] * 1000.0
  {
    var order :| |order| == |requests| && Rising(order, top) && scores == Zip(order, requests);
    hide Zip;
    hide Rising;
    hide Sorted;
    ZipHasFirst(order, requests, top);
    var low := LowestScore(scores);
    var m :| m in scores && scores[m] == low;
    ZipLowest(order, requests, m);
  }

  /** ZREMRANGEBYSCORE evicts what the local filter evicts. */
  lemma {:induction false} ZipEvicts(order: seq<Member>, times: seq<real>, top: int, cutoff: real)
    returns (kept: seq<Member>)
    requires |order| == |times| && Rising(order, top)
    requires forall t <- times :: t >= 0.0
    ensures |kept| == |SlidingWindow.Live(times, cutoff)| && Rising(kept, top)
    ensures OutsideRange(Zip(order, times), 0.0, cutoff * 1000.0) == Zip(kept, SlidingWindow.Live(times, cutoff))
  {
    if order == [] {
      kept := [];
    } else {
      var n := |order| - 1;
      var last, t := order[n], times[n];
      var live := SlidingWindow.Live(times[..n], cutoff);
      assert t in times && forall x <- times[..n] :: x in times;
      kept := ZipEvicts(order[..n], times[..n], last.seqNo - 1, cutoff);
      hide OutsideRange;
      var front := Zip(order[..n], times[..n]);
      assert Zip(order, times) == front[last := t * 1000.0];
      assert last !in front by {
        if last in front {
          OlderMembers(order[..n], times[..n], last.seqNo - 1, last);
        }
      }
      UnexpiredUpdate(front, last, t, cutoff);
      hide Zip;
      if t > cutoff {
        ZipAppends(kept, live, last, t);
        RisingAppends(kept, last.seqNo - 1, last, top);
        kept := kept + [last];
      } else {
        RisingWidens(kept, last.seqNo - 1, top);
      }
    }
  }

  lemma UnexpiredUpdate(scores: map<Member, real>, m: Member, t: real, cutoff: real)
    requires m !in scores && t >= 0.0
    ensures
      var kept := OutsideRange(scores, 0.0, cutoff * 1000.0);
      OutsideRange(scores[m := t * 1000.0], 0.0, cutoff * 1000.0) == if t > cutoff then kept[m := t * 1000.0] else kept
  {
  }

  lemma ZipAppends(order: seq<Member>, times: seq<real>, m: Member, t: real)
    requires |order| == |times|
    ensures Zip(order + [m], times + [t]) == Zip(order, times)[m := t * 1000.0]
  {
    assert (order + [m])[..|order|] == order && (times + [t])[..|times|] == times;
  }

  lemma RisingAppends(order: seq<Member>, below: int, m: Member, top: int)
    requires Rising(order, below) && below < m.seqNo <= top
    ensures Rising(order + [m], top)
  {
    RisingWidens(order, below, m.seqNo - 1);
    assert (order + [m])[..|order|] == order;
  }

  lemma RisingWidens(order: seq<Member>, below: int, top: int)
    requires Rising(order, below) && below <= top
    ensures Rising(order, top)
  {
  }

  lemma EvictionAgrees(scores: map<Member, real>, requests: seq<real>, top: int, cutoff: real)
    requires Holds(scores, requests, top)
    requires forall t <- requests :: t >= 0.0
    ensures Holds(OutsideRange(scores, 0.0, cutoff * 1000.0), SlidingWindow.Live(requests, cutoff), top)
  {
    var order :| |order| == |requests| && Rising(order, top) && scores == Zip(order, requests);
    var kept := ZipEvicts(order, requests, top, cutoff);
  }

  lemma AdmissionAgrees(scores: map<Member, real>, requests: seq<real>, top: int, now: real, m: Member)
    requires Holds(scores, requests, top) && m.seqNo == top + 1
    ensures Holds(scores[m := now * 1000.0], requests + [now], top + 1)
  {
    var order :| |order| == |requests| && Rising(order, top) && scores == Zip(order, requests);
    ZipAppends(order, requests, m, now);
    RisingAppends(order, top, m, top + 1);
  }

  // ----- The window script -----

  /** The local list that the two keys of a window stand for at `clock`. */
  ghost predicate WindowHeld(env: Env, db: Db, key: string, seqKey: string, requests: seq<real>, clock: real) {
    && IsZSet(Peek(env, db, key, clock))
    && IsCounter(Peek(env, db, seqKey, clock))
    && Holds(Scores(env, db, key, clock), requests, RedisScripts.Count(env, db, seqKey, clock))
    && (requests != [] ==> Alive(env, db, seqKey, clock))
  }

  lemma EvictStep(env: Env, db: Db, key: string, seqKey: string, requests: seq<real>, cutoff: real, now: real)
    requires key != seqKey && WindowHeld(env, db, key, seqKey, requests, now)
    requires forall t <- requests :: t >= 0.0
    ensures
      var db' := ZRemRangeByScore(env, db, key, 0.0, cutoff * 1000.0, now);
      var live := SlidingWindow.Live(requests, cutoff);
      && WindowHeld(env, db', key, seqKey, live, now)
      && |Scores(env, db', key, now)| == |live|
      && (live != [] ==> Alive(env, db', key, now))
  {
    hide Holds;
    hide OutsideRange;
    hide SlidingWindow.Live;
    hide ZRemRangeByScore;
    hide Scores;
    var live := SlidingWindow.Live(requests, cutoff);
    var top := RedisScripts.Count(env, db, seqKey, now);
    var kept := OutsideRange(Scores(env, db, key, now), 0.0, cutoff * 1000.0);
    EvictionAgrees(Scores(env, db, key, now), requests, top, cutoff);
    HoldsSize(kept, live, top);
    EvictionEffect(env, db, key, seqKey, cutoff * 1000.0, now);
    NothingLives(cutoff);
  }

  lemma EvictionEffect(env: Env, db: Db, key: string, other: string, hi: real, now: real)
    requires key != other && IsZSet(Peek(env, db, key, now))
    ensures
      var db' := ZRemRangeByScore(env, db, key, 0.0, hi, now);
      var kept := OutsideRange(Scores(env, db, key, now), 0.0, hi);
      && IsZSet(Peek(env, db', key, now))
      && Scores(env, db', key, now) == kept
      && (|kept| > 0 ==> Alive(env, db', key, now))
      && Peek(env, db', other, now) == Peek(env, db, other, now)
      && Alive(env, db', other, now) == Alive(env, db, other, now)
  {
    hide OutsideRange;
  }

  lemma NothingLives(cutoff: real)
    ensures SlidingWindow.Live([], cutoff) == []
  {
  }

  /** The new member scores the script's reading, however the clock of the TTLs stands. */
  lemma AddStep(env: Env, db: Db, key: string, seqKey: string, live: seq<real>, reading: real, clock: real)
    requires key != seqKey && WindowHeld(env, db, key, seqKey, live, clock)
    ensures
      var db' := AddMember(env, db, key, seqKey, reading * 1000.0, clock);
      && WindowHeld(env, db', key, seqKey, live + [reading], clock)
      && Alive(env, db', key, clock)
      && |Scores(env, db', key, clock)| == |Scores(env, db, key, clock)| + 1
  {
    var top := RedisScripts.Count(env, db, seqKey, clock);
    var m := Member(env.text(reading * 1000.0), top + 1);
    AdmissionAgrees(Scores(env, db, key, clock), live, top, reading, m);
    NewMemberIsNew(Scores(env, db, key, clock), live, top, m);
    hide Holds;
  }

  /** Both keys after a check at `clock`: their contents, and one deadline for both. */
  ghost predicate WindowSaved(db: Db, key: string, seqKey: string, c: SoundConfig, requests: seq<real>, clock: real) {
    && key in db && db[key].deadline == Some(clock + RedisTtl(c) as real) && db[key].value.ZSet?
    && seqKey in db && db[seqKey].deadline == db[key].deadline && db[seqKey].value.Counter?
    && Holds(db[key].value.scores, requests, db[seqKey].value.n)
    && |db[key].value.scores| == |requests|
  }

  lemma ExpireStep(env: Env, db: Db, key: string, seqKey: string, c: SoundConfig, requests: seq<real>, now: real)
    requires key != seqKey && c.algorithm.Window? && requests != []
    requires WindowHeld(env, db, key, seqKey, requests, now) && Alive(env, db, key, now)
    ensures
      var db' := Expire(env, Expire(env, db, key, RedisTtl(c), now), seqKey, RedisTtl(c), now);
      && WindowSaved(db', key, seqKey, c, requests, now)
      && Scores(env, db', key, now) == db'[key].value.scores
  {
    HoldsSize(Scores(env, db, key, now), requests, RedisScripts.Count(env, db, seqKey, now));
    hide Holds;
  }

  lemma ReplyStep(env: Env, db: Db, key: string, seqKey: string, c: SoundConfig,
        d: Decision<SlidingWindow.State>, reading: real, clock: real)
    requires key != seqKey && c.algorithm.Window?
    requires WindowHeld(env, db, key, seqKey, d.state.requests, clock) && Alive(env, db, key, clock)
    requires
      var kept, period := d.state.requests, c.period as real;
      && kept != [] && Sorted(kept) && kept[0] > reading - period
      && d.meta == Meta(if d.allowed then c.limit - |kept| else 0, kept[0] + period, |kept|,
                        if d.allowed then None else Some(MaxInt(1, Ceil(kept[0] + period - reading))))
    ensures
      var (db', reply) := WindowReply(env, db, key, seqKey, c.limit as real, c.period as real,
                                      d.allowed, |d.state.requests|, reading * 1000.0, clock);
      && WindowSaved(db', key, seqKey, c, d.state.requests, clock)
      && reply == ToIntegers(Decision(d.allowed, Log(d.state), d.meta))
  {
    var kept, period := d.state.requests, c.period as real;
    ExpireStep(env, db, key, seqKey, c, kept, clock);
    var db' := Expire(env, Expire(env, db, key, RedisTtl(c), clock), seqKey, RedisTtl(c), clock);
    LowestIsOldest(db'[key].value.scores, kept, db'[seqKey].value.n);
    assert (kept[0] * 1000.0 + period * 1000.0) / 1000.0 == kept[0] + period;
    assert Max(0.0, kept[0] * 1000.0 + period * 1000.0 - reading * 1000.0) / 1000.0 == kept[0] + period - reading;
    hide Expire;
    hide WindowSaved;
    hide Scores;
    hide WindowHeld;
    hide Ceil;
  }

  /** The window script is one decision of the local algorithm, made at the script's own
      `reading` (the supplied time, or the server's cut to milliseconds) on the list its
      keys stand for; the deadlines follow the server's clock. */
  lemma WindowScriptAgrees(env: Env, db: Db, key: string, seqKey: string, c: SoundConfig,
        l: SlidingWindow.State, reading: real, supplied: real, clock: real)
    requires key != seqKey && c.algorithm.Window? && Milliseconds(supplied, clock) == reading * 1000.0
    requires WindowHeld(env, db, key, seqKey, l.requests, clock)
    requires Sorted(l.requests) && forall t <- l.requests :: 0.0 <= t <= reading
    ensures
      var d := SlidingWindow.Compute(l, c, reading);
      var (db', reply) := WindowScript(env, db, key, seqKey, c.limit as real, c.period as real, supplied, clock);
      && WindowSaved(db', key, seqKey, c, d.state.requests, clock)
      && reply == ToIntegers(Decision(d.allowed, Log(d.state), d.meta))
  {
    hide Milliseconds;
    hide WindowHeld;
    hide WindowSaved;
    hide WindowReply;
    hide AddMember;
    hide ZRemRangeByScore;
    hide Scores;
    hide Peek;
    hide ToIntegers;
    hide SlidingWindow.Live;
    hide Ceil;
    var cutoff := reading - c.period as real;
    var d := SlidingWindow.Compute(l, c, reading);
    var live := SlidingWindow.Live(l.requests, cutoff);
    assert cutoff * 1000.0 == reading * 1000.0 - c.period as real * 1000.0;
    var evicted := ZRemRangeByScore(env, db, key, 0.0, cutoff * 1000.0, clock);
    HeldKinds(env, db, key, seqKey, l.requests, clock);
    EvictStep(env, db, key, seqKey, l.requests, cutoff, clock);
    HeldKinds(env, evicted, key, seqKey, live, clock);
    LogSettles(c, l.requests, reading, reading);
    OldestIsLive(live, cutoff, reading, c);
    if |live| < c.limit {
      AddStep(env, evicted, key, seqKey, live, reading, clock);
      ReplyStep(env, AddMember(env, evicted, key, seqKey, reading * 1000.0, clock), key, seqKey, c, d, reading, clock);
    } else {
      ReplyStep(env, evicted, key, seqKey, c, d, reading, clock);
    }
  }

  lemma HeldKinds(env: Env, db: Db, key: string, seqKey: string, requests: seq<real>, clock: real)
    requires WindowHeld(env, db, key, seqKey, requests, clock)
    ensures IsZSet(Peek(env, db, key, clock)) && IsCounter(Peek(env, db, seqKey, clock))
  {
  }

  lemma OldestIsLive(live: seq<real>, cutoff: real, now: real, c: Config)
    requires cutoff == now - c.period as real
    requires forall t <- live :: cutoff < t <= now
    ensures live != [] ==> live[0] > cutoff
    ensures (live + [now])[0] > cutoff
  {
    if live != [] {
      assert live[0] in live;
    }
  }
}
