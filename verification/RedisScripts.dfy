/** The Redis side: the commands the Lua scripts use, the three scripts
    (backend/lua/), and the wire format around them (backend/_redis_shared.py).
    One script call is one atomic step. */
module RedisScripts {
  import opened Numbers
  import opened Models

  /** A window member: `tostring(now_ms) .. ':' .. tostring(seq)`. */
  datatype Member = Member(stamp: string, seqNo: int)

  datatype Value =
    | Hash(fields: map<string, real>)
    | ZSet(scores: map<Member, real>)
    | Counter(n: int)

  datatype Slot = Slot(value: Value, deadline: Option<real>)

  type Db = map<string, Slot>

  /** What the repository leaves to Redis and Lua: whether a key still lives at its very
      deadline, and how Lua prints a number. */
  datatype Env = Env(livesAtDeadline: bool, text: real -> string)

  // ----- Commands -----

  predicate Alive(env: Env, db: Db, key: string, clock: real) {
    key in db &&
    match db[key].deadline
    case None => true
    case Some(d) => clock < d || (clock == d && env.livesAtDeadline)
  }

  function Peek(env: Env, db: Db, key: string, clock: real): Option<Value> {
    if Alive(env, db, key, clock) then Some(db[key].value) else None
  }

  /** Writes a value, keeping the TTL of a live key. */
  function Store(env: Env, db: Db, key: string, value: Value, clock: real): Db {
    db[key := Slot(value, if Alive(env, db, key, clock) then db[key].deadline else None)]
  }

  predicate IsHash(v: Option<Value>) {
    v.None? || v.value.Hash?
  }

  predicate IsZSet(v: Option<Value>) {
    v.None? || v.value.ZSet?
  }

  predicate IsCounter(v: Option<Value>) {
    v.None? || v.value.Counter?
  }

  function Fields(env: Env, db: Db, key: string, clock: real): map<string, real> {
    match Peek(env, db, key, clock)
    case Some(Hash(fields)) => fields
    case _ => map[]
  }

  function Scores(env: Env, db: Db, key: string, clock: real): map<Member, real> {
    match Peek(env, db, key, clock)
    case Some(ZSet(scores)) => scores
    case _ => map[]
  }

  function Count(env: Env, db: Db, key: string, clock: real): int {
    match Peek(env, db, key, clock)
    case Some(Counter(n)) => n
    case _ => 0
  }

  function HmGet(fields: map<string, real>, field: string, default: real): real {
    if field in fields then fields[field] else default
  }

  function HmSet(env: Env, db: Db, key: string, fields: map<string, real>, clock: real): Db {
    Store(env, db, key, Hash(Fields(env, db, key, clock) + fields), clock)
  }

  function Expire(env: Env, db: Db, key: string, seconds: int, clock: real): Db {
    if Alive(env, db, key, clock) then db[key := db[key].(deadline := Some(clock + seconds as real))] else db
  }

  function OutsideRange(scores: map<Member, real>, lo: real, hi: real): map<Member, real> {
    map m | m in scores && !(lo <= scores[m] <= hi) :: scores[m]
  }

  function ZRemRangeByScore(env: Env, db: Db, key: string, lo: real, hi: real, clock: real): Db {
    var kept := OutsideRange(Scores(env, db, key, clock), lo, hi);
    if kept == map[] then db - {key} else Store(env, db, key, ZSet(kept), clock)
  }

  function Incr(env: Env, db: Db, key: string, clock: real): Db {
    Store(env, db, key, Counter(Count(env, db, key, clock) + 1), clock)
  }

  function ZAdd(env: Env, db: Db, key: string, score: real, member: Member, clock: real): Db {
    Store(env, db, key, ZSet(Scores(env, db, key, clock)[member := score]), clock)
  }

  /** The score that `ZRANGE key 0 0 WITHSCORES` returns. */
  function LowestScore(scores: map<Member, real>): (low: real)
    requires scores != map[]
    ensures low in scores.Values && forall m :: m in scores ==> low <= scores[m]
  {
    LowestExists(scores.Values, scores);
    var low :| low in scores.Values && forall m :: m in scores ==> low <= scores[m];
    low
  }

  lemma {:induction false} LowestExists(values: set<real>, scores: map<Member, real>)
    requires scores != map[] && values == scores.Values
    ensures exists low :: low in values && forall m :: m in scores ==> low <= scores[m]
    decreases |scores|
  {
    assert scores.Keys != {};
    var m :| m in scores;
    var rest := scores - {m};
    var low := scores[m];
    if rest != map[] {
      LowestExists(rest.Values, rest);
      var least :| least in rest.Values && forall k :: k in rest ==> least <= rest[k];
      if least < low {
        low := least;
      }
    }
    assert forall k :: k in scores ==> k == m || k in rest;
    assert low in values && forall k :: k in scores ==> low <= scores[k];
  }

  // ----- Scripts -----

  datatype ScriptReply =
    | Integers(allowed: int, remaining: int, retryAfter: int, resetAt: int, requestCount: int)
    | WrongType

  /** A Lua number in a reply is cut to an integer, toward zero. */
  function Truncate(x: real): (n: int)
    ensures if x >= 0.0 then n as real <= x < n as real + 1.0 else n as real - 1.0 < x <= n as real <= 0.0
  {
    if x >= 0.0 then x.Floor else -((-x).Floor)
  }

  /** The script's `now` in seconds: the supplied time, or Redis TIME when negative. */
  function Seconds(supplied: real, clock: real): real {
    if supplied >= 0.0 then supplied else clock
  }

  /** The window script's `now` in milliseconds; Redis TIME is cut to whole ones. */
  function Milliseconds(supplied: real, clock: real): real {
    if supplied >= 0.0 then supplied * 1000.0 else (clock * 1000.0).Floor as real
  }

  /** Lua's `*` and `/`, named so that step-by-step proofs can treat them as opaque. */
  function Times(x: real, y: real): real {
    x * y
  }

  function Over(x: real, y: real): real
    requires y != 0.0
  {
    x / y
  }

  function BucketTtl(capacity: real, rate: real): int
    requires rate > 0.0
  {
    MaxInt(1, Ceil(Over(capacity, rate)))
  }

  /** token_bucket.lua, lines 22-31: the refilled balance; an absent key is full as of now. */
  function RefilledTokens(fields: map<string, real>, burst: real, rate: real, now: real): real {
    var elapsed := Max(0.0, now - HmGet(fields, "last_refill", now));
    Min(HmGet(fields, "tokens", burst) + Times(elapsed, rate), burst)
  }

  /** Lines 33-43 and 54-59: the balance left, and the reply. */
  function TokenReply(tokens: real, burst: real, rate: real, now: real): (real, ScriptReply)
    requires rate > 0.0
  {
    var allowed := tokens >= 1.0;
    var after := if allowed then tokens - 1.0 else tokens;
    (after,
     Integers(
       if allowed then 1 else 0,
       after.Floor,
       if allowed then 0 else Ceil(Over(1.0 - after, rate)),
       Truncate(now + Over(burst - after, rate)),
       (burst - after).Floor))
  }

  /** token_bucket.lua */
  function TokenScript(env: Env, db: Db, key: string, burst: real, rate: real, supplied: real, clock: real):
    (Db, ScriptReply)
    requires rate > 0.0
  {
    var now := Seconds(supplied, clock);
    if !IsHash(Peek(env, db, key, clock)) then (db, WrongType)
    else
      var (after, reply) := TokenReply(RefilledTokens(Fields(env, db, key, clock), burst, rate, now), burst, rate, now);
      var saved := HmSet(env, db, key, map["tokens" := after, "last_refill" := now], clock);
      (Expire(env, saved, key, BucketTtl(burst, rate), clock), reply)
  }

  /** leaky_bucket.lua, lines 22-34: the drained queue; an absent key is empty. */
  function LeakedQueue(fields: map<string, real>, rate: real, now: real): real {
    var elapsed := Max(0.0, now - HmGet(fields, "last_leak", now));
    Max(0.0, HmGet(fields, "queue_size", 0.0) - Times(elapsed, rate))
  }

  /** Lines 36-57 and 70-77: the queue left, and the reply. The `leak_rate <= 0`
      branches have no constructible config. */
  function LeakyReply(leaked: real, capacity: real, rate: real, now: real): (real, ScriptReply)
    requires rate > 0.0
  {
    var allowed := leaked + 1.0 <= capacity;
    var queue := if allowed then leaked + 1.0 else leaked;
    (queue,
     Integers(
       if allowed then 1 else 0,
       MaxInt(0, (capacity - queue).Floor),
       if allowed then 0 else MaxInt(1, Ceil(Over((leaked + 1.0) - capacity, rate))),
       Truncate(now + Over(queue, rate)),
       queue.Floor))
  }

  /** leaky_bucket.lua */
  function LeakyScript(env: Env, db: Db, key: string, capacity: real, rate: real, supplied: real, clock: real):
    (Db, ScriptReply)
    requires rate > 0.0
  {
    var now := Seconds(supplied, clock);
    if !IsHash(Peek(env, db, key, clock)) then (db, WrongType)
    else
      var (queue, reply) := LeakyReply(LeakedQueue(Fields(env, db, key, clock), rate, now), capacity, rate, now);
      var saved := HmSet(env, db, key, map["queue_size" := queue, "last_leak" := now], clock);
      (Expire(env, saved, key, BucketTtl(capacity, rate), clock), reply)
  }

  /** The admission half of sliding_window.lua: INCR the counter, ZADD a fresh member. */
  function AddMember(env: Env, db: Db, key: string, seqKey: string, nowMs: real, clock: real): Db {
    var counted := Incr(env, db, seqKey, clock);
    ZAdd(env, counted, key, nowMs, Member(env.text(nowMs), Count(env, counted, seqKey, clock)), clock)
  }

  /** The two EXPIRE calls and the reply of sliding_window.lua. */
  function WindowReply(env: Env, db: Db, key: string, seqKey: string, limit: real, period: real,
                       allowed: bool, count: nat, nowMs: real, clock: real): (Db, ScriptReply)
  {
    var windowMs := period * 1000.0;
    var ttl := MaxInt(1, Ceil(period));
    var kept := Expire(env, Expire(env, db, key, ttl, clock), seqKey, ttl, clock);
    var scores := Scores(env, kept, key, clock);
    var oldestMs := if scores != map[] then LowestScore(scores) else nowMs;
    (kept,
     Integers(
       if allowed then 1 else 0,
       if allowed then Truncate(limit - count as real) else 0,
       if allowed || scores == map[] then 0 else Ceil(Max(0.0, oldestMs + windowMs - nowMs) / 1000.0),
       Truncate((oldestMs + windowMs) / 1000.0),
       count))
  }

  /** sliding_window.lua */
  function WindowScript(env: Env, db: Db, key: string, seqKey: string, limit: real, period: real,
                        supplied: real, clock: real): (Db, ScriptReply)
  {
    var nowMs := Milliseconds(supplied, clock);
    if !IsZSet(Peek(env, db, key, clock)) then (db, WrongType)
    else
      var evicted := ZRemRangeByScore(env, db, key, 0.0, nowMs - period * 1000.0, clock);
      var count := |Scores(env, evicted, key, clock)|;
      if count as real < limit then
        if !IsCounter(Peek(env, evicted, seqKey, clock)) then (evicted, WrongType)
        else
          WindowReply(env, AddMember(env, evicted, key, seqKey, nowMs, clock), key, seqKey, limit, period,
                      true, count + 1, nowMs, clock)
      else WindowReply(env, evicted, key, seqKey, limit, period, false, count, nowMs, clock)
  }

  // ----- Wire format -----

  const TIME_SENTINEL := -1.0

  datatype ScriptCall = ScriptCall(keys: seq<string>, args: seq<real>, multiKey: bool)

  /** `config.burst_size or config.limit`: an explicit 0 counts as absent here. */
  function RedisCapacity(c: Config): int {
    if c.burstSize.Some? && c.burstSize.value != 0 then c.burstSize.value else c.limit
  }

  function BuildScriptCall(key: string, c: Config, now: Option<real>, prefix: string): (call: ScriptCall)
    ensures call.multiKey <==> |call.keys| > 1
    ensures |call.args| == 3 && |call.keys| == (if c.algorithm.Window? then 2 else 1)
    ensures !c.algorithm.Window? ==> call.args[1] > 0.0
  {
    var current := now.GetOr(TIME_SENTINEL);
    match c.algorithm
    case Window =>
      ScriptCall([prefix + key, prefix + (key + ":seq")], [c.limit as real, c.period as real, current], true)
    case _ =>
      ScriptCall([prefix + key], [RedisCapacity(c) as real, TokensPerSecond(c), current], false)
  }

  function ParseScriptResult(reply: ScriptReply, c: Config): (o: Outcome)
    ensures reply.WrongType? <==> o.BackendUnavailable?
    ensures o.Ok? <==> reply.Integers? && reply.remaining >= 0 && reply.requestCount >= 0
    ensures o.Ok? && o.result.retryAfter.Some? ==> !o.result.allowed && o.result.retryAfter.value != 0
  {
    match reply
    case WrongType => BackendUnavailable
    case Integers(allowed, remaining, retryAfter, resetAt, requestCount) =>
      Construct(RateLimitResult(
        allowed != 0,
        remaining,
        c.limit,
        if allowed == 0 && retryAfter != 0 then Some(retryAfter) else None,
        resetAt as real,
        requestCount))
  }

  function Evaluate(env: Env, db: Db, c: Config, call: ScriptCall, clock: real): (Db, ScriptReply)
    requires |call.args| == 3 && |call.keys| == (if c.algorithm.Window? then 2 else 1)
    requires !c.algorithm.Window? ==> call.args[1] > 0.0
  {
    match c.algorithm
    case Token => TokenScript(env, db, call.keys[0], call.args[0], call.args[1], call.args[2], clock)
    case Leaky => LeakyScript(env, db, call.keys[0], call.args[0], call.args[1], call.args[2], clock)
    case Window => WindowScript(env, db, call.keys[0], call.keys[1], call.args[0], call.args[1], call.args[2], clock)
  }

  /** `check_and_increment` of a Redis backend at server time `clock`. */
  function RedisCheck(env: Env, db: Db, prefix: string, key: string, c: Config, now: Option<real>, clock: real):
    (Db, Outcome)
  {
    var (after, reply) := Evaluate(env, db, c, BuildScriptCall(key, c, now, prefix), clock);
    (after, ParseScriptResult(reply, c))
  }

  // ----- The server as an object -----

  /** The scripts in their own step-by-step form, over one mutable database. */
  class RedisServer {
    var db: Db
    const env: Env

    constructor (env: Env)
      ensures db == map[] && this.env == env
    {
      db := map[];
      this.env := env;
    }

    method EvalTokenBucket(key: string, burst: real, rate: real, supplied: real, clock: real)
      returns (reply: ScriptReply)
      requires rate > 0.0
      modifies this`db
      ensures (db, reply) == TokenScript(env, old(db), key, burst, rate, supplied, clock)
    {
      hide Times;
      hide Over;
      hide HmSet;
      hide Expire;
      hide Fields;
      hide Peek;
      hide Ceil;
      hide Truncate;
      var now := supplied;
      if supplied < 0.0 {
        now := clock;
      }
      if !IsHash(Peek(env, db, key, clock)) {
        return WrongType;
      }
      var state := Fields(env, db, key, clock);
      var tokens := HmGet(state, "tokens", burst);
      var lastRefill := HmGet(state, "last_refill", now);
      var elapsed := now - lastRefill;
      if elapsed < 0.0 {
        elapsed := 0.0;
      }
      assert elapsed == Max(0.0, now - lastRefill);
      tokens := Min(tokens + Times(elapsed, rate), burst);
      var allowed, retryAfter := 0, 0;
      if tokens >= 1.0 {
        tokens := tokens - 1.0;
        allowed := 1;
      } else {
        retryAfter := Ceil(Over(1.0 - tokens, rate));
      }
      db := HmSet(env, db, key, map["tokens" := tokens, "last_refill" := now], clock);
      var ttl := Ceil(Over(burst, rate));
      if ttl < 1 {
        ttl := 1;
      }
      db := Expire(env, db, key, ttl, clock);
      reply := Integers(allowed, tokens.Floor, retryAfter, Truncate(now + Over(burst - tokens, rate)),
        (burst - tokens).Floor);
    }

    method EvalLeakyBucket(key: string, capacity: real, rate: real, supplied: real, clock: real)
      returns (reply: ScriptReply)
      requires rate > 0.0
      modifies this`db
      ensures (db, reply) == LeakyScript(env, old(db), key, capacity, rate, supplied, clock)
    {
      hide Times;
      hide Over;
      hide HmSet;
      hide Expire;
      hide Fields;
      hide Peek;
      hide Ceil;
      hide Truncate;
      hide HmGet;
      hide IsHash;
      var now := supplied;
      if supplied < 0.0 {
        now := clock;
      }
      if !IsHash(Peek(env, db, key, clock)) {
        return WrongType;
      }
      var state := Fields(env, db, key, clock);
      var lastLeak := HmGet(state, "last_leak", now);
      var elapsed := now - lastLeak;
      if elapsed < 0.0 {
        elapsed := 0.0;
      }
      assert elapsed == Max(0.0, now - lastLeak);
      var queue := HmGet(state, "queue_size", 0.0) - Times(elapsed, rate);
      if queue < 0.0 {
        queue := 0.0;
      }
      assert queue == LeakedQueue(state, rate, now);
      hide LeakedQueue;
      var allowed, retryAfter := 0, 0;
      if queue + 1.0 <= capacity {
        allowed := 1;
        queue := queue + 1.0;
      } else {
        retryAfter := Ceil(Over((queue + 1.0) - capacity, rate));
        if retryAfter < 1 {
          retryAfter := 1;
        }
      }
      var remaining := (capacity - queue).Floor;
      if remaining < 0 {
        remaining := 0;
      }
      var resetAt := Truncate(now + Over(queue, rate));
      assert LeakyReply(LeakedQueue(state, rate, now), capacity, rate, now)
          == (queue, Integers(allowed, remaining, retryAfter, resetAt, queue.Floor));
      hide LeakyReply;
      db := HmSet(env, db, key, map["queue_size" := queue, "last_leak" := now], clock);
      var ttl := Ceil(Over(capacity, rate));
      if ttl < 1 {
        ttl := 1;
      }
      db := Expire(env, db, key, ttl, clock);
      reply := Integers(allowed, remaining, retryAfter, resetAt, queue.Floor);
    }

    method EvalSlidingWindow(key: string, seqKey: string, limit: real, period: real, supplied: real, clock: real)
      returns (reply: ScriptReply)
      modifies this`db
      ensures (db, reply) == WindowScript(env, old(db), key, seqKey, limit, period, supplied, clock)
    {
      hide ZRemRangeByScore;
      hide ZAdd;
      hide Incr;
      hide Expire;
      hide Scores;
      hide Peek;
      hide Ceil;
      hide Truncate;
      hide Milliseconds;
      var nowMs := Milliseconds(supplied, clock);
      var windowMs := period * 1000.0;
      if !IsZSet(Peek(env, db, key, clock)) {
        return WrongType;
      }
      db := ZRemRangeByScore(env, db, key, 0.0, nowMs - windowMs, clock);
      var count := |Scores(env, db, key, clock)|;
      var allowed, remaining, retryAfter := 0, 0, 0;
      if count as real < limit {
        if !IsCounter(Peek(env, db, seqKey, clock)) {
          return WrongType;
        }
        allowed := 1;
        db := Incr(env, db, seqKey, clock);
        var seqNo := Count(env, db, seqKey, clock);
        db := ZAdd(env, db, key, nowMs, Member(env.text(nowMs), seqNo), clock);
        count := count + 1;
        remaining := Truncate(limit - count as real);
      }
      var ttl := Ceil(period);
      if ttl < 1 {
        ttl := 1;
      }
      db := Expire(env, db, key, ttl, clock);
      db := Expire(env, db, seqKey, ttl, clock);
      var scores := Scores(env, db, key, clock);
      var resetAt := (nowMs + windowMs) / 1000.0;
      if scores != map[] {
        var oldestMs := LowestScore(scores);
        resetAt := (oldestMs + windowMs) / 1000.0;
        if allowed == 0 {
          var waitMs := oldestMs + windowMs - nowMs;
          if waitMs < 0.0 {
            waitMs := 0.0;
          }
          retryAfter := Ceil(waitMs / 1000.0);
        }
      }
      reply := Integers(allowed, remaining, retryAfter, Truncate(resetAt), count);
    }

    method Delete(key: string)
      modifies this`db
      ensures db == old(db) - {key}
    {
      db := db - {key};
    }
  }
}
