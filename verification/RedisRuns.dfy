/** The Redis backend measured against the same never-forgetting histories, and so
    against the local store. */
module RedisRuns {
  import opened Numbers
  import opened Models
  import opened Algorithms
  import opened Histories
  import opened RedisScripts
  import opened RedisSteps
  import opened StoreRuns
  import L = LocalStore
  import B = BucketHistories
  import Promises
  import SlidingWindow

  // ----- Runs -----

  /** Where the scripts of a run get the time: from the caller, whose clock is then the
      server's, or from Redis TIME because the caller supplies none. */
  datatype TimeSource = Supplied | ServerTime

  function SuppliedTime(src: TimeSource, clock: real): Option<real> {
    if src.Supplied? then Some(clock) else None
  }

  /** The time a check decides by: the window script cuts Redis TIME to whole milliseconds. */
  function Reading(src: TimeSource, c: Config, clock: real): real {
    if src.ServerTime? && c.algorithm.Window? then (clock * 1000.0).Floor as real / 1000.0 else clock
  }

  function Readings(src: TimeSource, c: Config, clocks: seq<real>): (r: seq<real>)
    ensures |r| == |clocks|
    ensures forall i :: 0 <= i < |clocks| ==> r[i] == Reading(src, c, clocks[i])
  {
    seq(|clocks|, i requires 0 <= i < |clocks| => Reading(src, c, clocks[i]))
  }

  /** The database after `n` events at server times; sweeps belong to the local store and
      do nothing here. A reset deletes the main key only, so a counter may outlive it. */
  function DbAfter(env: Env, prefix: string, src: TimeSource, events: seq<L.Event>, n: nat): Db
    requires n <= |events|
  {
    if n == 0 then map[]
    else
      var db, e := DbAfter(env, prefix, src, events, n - 1), events[n - 1];
      match e.op
      case Check(c, now) => RedisCheck(env, db, prefix, e.key, c, SuppliedTime(src, now), now).0
      case Reset => db - {prefix + e.key}
      case DropIfExpired(_) => db
  }

  function OutcomeAt(env: Env, prefix: string, src: TimeSource, events: seq<L.Event>, j: nat): Outcome
    requires j < |events| && events[j].op.Check?
  {
    var e := events[j];
    var db := DbAfter(env, prefix, src, events, j);
    RedisCheck(env, db, prefix, e.key, e.op.config, SuppliedTime(src, e.op.now), e.op.now).1
  }

  function SeqKey(key: string): string {
    key + ":seq"
  }

  /** No other key in play is the counter key of this window, and this key is not the
      counter key of another window. */
  ghost predicate NoClash(events: seq<L.Event>, key: string, c: Config) {
    forall i :: 0 <= i < |events| ==>
      && (c.algorithm.Window? ==> events[i].key != SeqKey(key))
      && (events[i].op.Check? && events[i].op.config.algorithm.Window? ==> SeqKey(events[i].key) != key)
  }

  ghost predicate NonNegative(events: seq<L.Event>, key: string) {
    forall i :: 0 <= i < |events| && IsCheck(events[i], key) ==> events[i].op.now >= 0.0
  }

  // ----- Whole runs -----

  /** The database holds the key's full history, given the server times of its checks:
      nothing before the first, then exactly the state of the replay of the readings, kept
      for the script's TTL after the last. */
  ghost predicate Remembered(db: Db, prefix: string, key: string, c: SoundConfig, src: TimeSource, clocks: seq<real>) {
    var full, seqKey := prefix + key, prefix + SeqKey(key);
    && (|clocks| == 0 ==> full !in db)
    && (c.algorithm.Window? && seqKey in db ==> db[seqKey].value.Counter?)
    && (|clocks| > 0 ==>
          var s, at := StateAt(c, Readings(src, c, clocks), |clocks|), clocks[|clocks| - 1];
          if s.Log? then WindowSaved(db, full, seqKey, c, s.log.requests, at)
          else full in db && db[full] == Slot(Hash(BucketFields(s)), Some(at + RedisTtl(c) as real)))
  }

  /** Cutting keeps order, and whole periods. */
  lemma ReadingOrder(src: TimeSource, c: SoundConfig, a: real, b: real)
    ensures a <= b ==> Reading(src, c, a) <= Reading(src, c, b)
    ensures 0.0 <= a ==> 0.0 <= Reading(src, c, a)
    ensures a + RedisTtl(c) as real <= b ==> Reading(src, c, a) + Ttl(c) <= Reading(src, c, b)
  {
    RedisTtlIsExact(c);
    hide RedisTtl;
    hide Ttl;
    if c.algorithm.Window? {
      WindowTtls(c);
      CutOrder(a, b, c.period);
    }
  }

  lemma WindowTtls(c: SoundConfig)
    requires c.algorithm.Window?
    ensures RedisTtl(c) == c.period && Ttl(c) == c.period as real
  {
  }

  lemma CutOrder(a: real, b: real, period: int)
    ensures a <= b ==> (a * 1000.0).Floor <= (b * 1000.0).Floor
    ensures 0.0 <= a ==> 0 <= (a * 1000.0).Floor
    ensures
      a + period as real <= b ==>
      (a * 1000.0).Floor as real / 1000.0 + period as real <= (b * 1000.0).Floor as real / 1000.0
  {
    if a + period as real <= b {
      assert (a * 1000.0).Floor + 1000 * period <= (b * 1000.0).Floor;
    }
  }

  lemma ReadingsFit(src: TimeSource, c: SoundConfig, clocks: seq<real>, now: real)
    requires Sorted(clocks) && now >= 0.0 && forall t <- clocks :: 0.0 <= t <= now
    ensures
      var h, reading := Readings(src, c, clocks), Reading(src, c, now);
      && Sorted(h) && reading >= 0.0
      && (forall t <- h :: 0.0 <= t <= reading)
      && Readings(src, c, clocks + [now]) == h + [reading]
  {
    hide Reading;
    var h := Readings(src, c, clocks);
    ReadingOrder(src, c, now, now);
    forall i, j | 0 <= i < j < |h|
      ensures h[i] <= h[j]
    {
      ReadingOrder(src, c, clocks[i], clocks[j]);
    }
    forall t | t in h
      ensures 0.0 <= t <= Reading(src, c, now)
    {
      var i :| 0 <= i < |h| && h[i] == t;
      assert clocks[i] in clocks;
      ReadingOrder(src, c, clocks[i], now);
    }
  }

  lemma KeysDiffer(prefix: string, a: string, b: string)
    ensures prefix + a == prefix + b <==> a == b
    ensures SeqKey(a) == SeqKey(b) <==> a == b
    ensures a != SeqKey(a)
  {
    assert (prefix + a)[|prefix|..] == a && (prefix + b)[|prefix|..] == b;
    assert SeqKey(a)[..|SeqKey(a)| - 4] == a && SeqKey(b)[..|SeqKey(b)| - 4] == b;
    assert |SeqKey(a)| == |a| + 4;
  }

  /** A dead key decides like the full history, whose state has expired just as well. */
  lemma DeadIsFresh(c: SoundConfig, src: TimeSource, clocks: seq<real>, now: real)
    requires Sorted(Readings(src, c, clocks))
    requires |clocks| > 0 ==> clocks[|clocks| - 1] + RedisTtl(c) as real <= now
    ensures
      Answer(c, Readings(src, c, clocks), Reading(src, c, now)) == Compute(InitialState(c), c, Reading(src, c, now))
  {
    hide Compute;
    hide InitialState;
    hide RedisTtl;
    hide Settled;
    hide Reading;
    if |clocks| > 0 {
      var h, n := Readings(src, c, clocks), |clocks|;
      RunSettles(c, h, n);
      ReadingOrder(src, c, clocks[n - 1], now);
      ExpiredIsFresh(c, StateAt(c, h, n), h[n - 1], Reading(src, c, now));
    }
  }

  lemma BucketCheckAgrees(env: Env, db: Db, prefix: string, key: string, c: B.BucketConfig, src: TimeSource,
        clocks: seq<real>, now: real)
    requires Remembered(db, prefix, key, c, src, clocks) && Sorted(Readings(src, c, clocks)) && now >= 0.0
    ensures
      var d := Answer(c, Readings(src, c, clocks), now);
      RedisCheck(env, db, prefix, key, c, SuppliedTime(src, now), now)
      == (db[prefix + key := Slot(Hash(BucketFields(d.state)), Some(now + RedisTtl(c) as real))],
          ParseScriptResult(ToIntegers(d), c))
  {
    hide Compute;
    hide BucketFields;
    hide ToIntegers;
    hide ParseScriptResult;
    hide RedisTtl;
    hide TokenScript;
    hide LeakyScript;
    hide InitialState;
    hide Bounded;
    hide Sorted;
    var h := Readings(src, c, clocks);
    var s := StateAt(c, h, |h|);
    RunStaysBounded(c, h, |h|);
    assert RedisCapacity(c) == c.Capacity();
    BucketScriptAgrees(env, db, prefix + key, c, s, SuppliedTime(src, now).GetOr(TIME_SENTINEL), now);
    if !Alive(env, db, prefix + key, now) {
      DeadIsFresh(c, src, clocks, now);
    }
  }

  lemma WindowCheckAgrees(env: Env, db: Db, prefix: string, key: string, c: SoundConfig, src: TimeSource,
        clocks: seq<real>, now: real)
    requires c.algorithm.Window? && Remembered(db, prefix, key, c, src, clocks)
    requires Sorted(clocks) && now >= 0.0 && forall t <- clocks :: 0.0 <= t <= now
    ensures
      var d := Answer(c, Readings(src, c, clocks), Reading(src, c, now));
      var (db', o) := RedisCheck(env, db, prefix, key, c, SuppliedTime(src, now), now);
      && WindowSaved(db', prefix + key, prefix + SeqKey(key), c, d.state.log.requests, now)
      && o == ParseScriptResult(ToIntegers(d), c)
  {
    FreshLog(c);
    hide InitialState;
    hide Compute;
    hide Fits;
    hide RedisCheck;
    hide WindowSaved;
    hide WindowHeld;
    hide Remembered;
    hide ToIntegers;
    hide ParseScriptResult;
    hide WindowScript;
    hide StateAt;
    hide SlidingWindow.Compute;
    hide Sorted;
    hide RedisTtl;
    hide Reading;
    hide SuppliedTime;
    hide Milliseconds;
    hide Alive;
    hide SeqKey;
    var full, seqKey, h, reading := prefix + key, prefix + SeqKey(key), Readings(src, c, clocks), Reading(src, c, now);
    KeysDiffer(prefix, key, SeqKey(key));
    ReadingsFit(src, c, clocks, now);
    LogMakesSense(c, h, reading);
    WindowIsHeld(env, db, prefix, key, c, src, clocks, now);
    WindowCall(env, db, prefix, key, c, src, now);
    var s := if Alive(env, db, full, now) then StateAt(c, h, |h|) else InitialState(c);
    LogComputes(c, s, reading);
    WindowScriptAgrees(env, db, full, seqKey, c, s.log, reading, SuppliedTime(src, now).GetOr(TIME_SENTINEL), now);
    if !Alive(env, db, full, now) {
      DeadWindow(env, db, prefix, key, c, src, clocks, now);
      DeadIsFresh(c, src, clocks, now);
    }
  }

  lemma FreshLog(c: SoundConfig)
    requires c.algorithm.Window?
    ensures InitialState(c).Log? && InitialState(c).log.requests == [] && Sorted(InitialState(c).log.requests)
  {
  }

  lemma LogComputes(c: SoundConfig, s: AlgorithmState, now: real)
    requires c.algorithm.Window? && Fits(c, s)
    ensures s.Log?
    ensures
      var d := SlidingWindow.Compute(s.log, c, now);
      Compute(s, c, now) == Decision(d.allowed, Log(d.state), d.meta)
  {
  }

  lemma WindowCall(env: Env, db: Db, prefix: string, key: string, c: SoundConfig, src: TimeSource, now: real)
    requires c.algorithm.Window? && now >= 0.0
    ensures
      var supplied := SuppliedTime(src, now).GetOr(TIME_SENTINEL);
      var (db', reply) := WindowScript(env, db, prefix + key, prefix + SeqKey(key), c.limit as real, c.period as real,
                                       supplied, now);
      && RedisCheck(env, db, prefix, key, c, SuppliedTime(src, now), now) == (db', ParseScriptResult(reply, c))
      && Milliseconds(supplied, now) == Reading(src, c, now) * 1000.0
  {
    hide WindowScript;
    hide ParseScriptResult;
  }

  /** The two keys stand for the log of the full history, or for nothing once dead. */
  lemma WindowIsHeld(env: Env, db: Db, prefix: string, key: string, c: SoundConfig, src: TimeSource,
        clocks: seq<real>, now: real)
    requires c.algorithm.Window? && Remembered(db, prefix, key, c, src, clocks)
    ensures
      var full, seqKey := prefix + key, prefix + SeqKey(key);
      var requests := StateAt(c, Readings(src, c, clocks), |clocks|).log.requests;
      WindowHeld(env, db, full, seqKey, if Alive(env, db, full, now) then requests else [], now)
  {
    hide StateAt;
    hide Holds;
    NothingHeld(RedisScripts.Count(env, db, prefix + SeqKey(key), now));
  }

  lemma DeadWindow(env: Env, db: Db, prefix: string, key: string, c: SoundConfig, src: TimeSource,
        clocks: seq<real>, now: real)
    requires c.algorithm.Window? && Remembered(db, prefix, key, c, src, clocks) && !Alive(env, db, prefix + key, now)
    ensures |clocks| > 0 ==> clocks[|clocks| - 1] + RedisTtl(c) as real <= now
  {
    hide StateAt;
    hide RedisTtl;
    hide Holds;
  }

  lemma NothingHeld(top: int)
    ensures Holds(map[], [], top)
  {
    var none: seq<Member> := [];
    assert Rising(none, top) && map[] == Zip(none, []);
  }

  lemma LogMakesSense(c: SoundConfig, h: seq<real>, now: real)
    requires c.algorithm.Window? && Sorted(h) && forall t <- h :: 0.0 <= t <= now
    ensures
      var requests := StateAt(c, h, |h|).log.requests;
      Sorted(requests) && forall t <- requests :: 0.0 <= t <= now
  {
    if |h| > 0 {
      RunSettles(c, h, |h|);
      LogComesFromHistory(c, h, |h|);
      assert h[|h| - 1] in h;
    }
  }

  lemma {:induction false} LogComesFromHistory(c: SoundConfig, h: seq<real>, n: nat)
    requires c.algorithm.Window? && n <= |h|
    ensures forall t <- StateAt(c, h, n).log.requests :: t in h
  {
    if n > 0 {
      LogComesFromHistory(c, h, n - 1);
      LiveIsPart(StateAt(c, h, n - 1).log.requests, h[n - 1] - c.period as real);
    }
  }

  lemma {:induction false} LiveIsPart(ts: seq<real>, cutoff: real)
    ensures forall t <- SlidingWindow.Live(ts, cutoff) :: t in ts
  {
    if ts != [] {
      LiveIsPart(ts[..|ts| - 1], cutoff);
    }
  }

  /** One check: the reply is that of the full history, which stays remembered. */
  lemma CheckAgrees(env: Env, db: Db, prefix: string, key: string, c: SoundConfig, src: TimeSource,
        clocks: seq<real>, now: real)
    requires Remembered(db, prefix, key, c, src, clocks) && Sorted(clocks)
    requires now >= 0.0 && forall t <- clocks :: 0.0 <= t <= now
    ensures
      var reading := Reading(src, c, now);
      var d := Answer(c, Readings(src, c, clocks), reading);
      var (db', o) := RedisCheck(env, db, prefix, key, c, SuppliedTime(src, now), now);
      && Remembered(db', prefix, key, c, src, clocks + [now])
      && o == Floored(L.ToOutcome(c, L.Decided(d.allowed, d.meta), reading, reading))
  {
    hide Compute;
    hide RedisCheck;
    hide WindowSaved;
    hide Bounded;
    hide Floored;
    hide L.ToOutcome;
    hide ParseScriptResult;
    hide ToIntegers;
    hide Sorted;
    var h, reading := Readings(src, c, clocks), Reading(src, c, now);
    ReadingsFit(src, c, clocks, now);
    HistoryAppends(c, h, reading);
    RunStaysBounded(c, h, |h|);
    AnswerResetsLater(c, h, reading);
    ComputeStaysBounded(c, StateAt(c, h, |h|), reading);
    ParseAgrees(c, Answer(c, h, reading), reading);
    if c.algorithm.Window? {
      hide Reading;
      WindowCheckAgrees(env, db, prefix, key, c, src, clocks, now);
      WindowSavedIsCounter(RedisCheck(env, db, prefix, key, c, SuppliedTime(src, now), now).0,
                           prefix + key, prefix + SeqKey(key), c, Answer(c, h, reading).state.log.requests, now);
    } else {
      BucketCheckAgrees(env, db, prefix, key, c, src, clocks, now);
    }
  }

  lemma WindowSavedIsCounter(db: Db, key: string, seqKey: string, c: SoundConfig, requests: seq<real>, now: real)
    requires WindowSaved(db, key, seqKey, c, requests, now)
    ensures seqKey in db && db[seqKey].value.Counter?
  {
  }

  lemma AnswerResetsLater(c: SoundConfig, h: seq<real>, now: real)
    requires Sorted(h) && forall t <- h :: t <= now
    ensures Answer(c, h, now).meta.resetAt >= now
  {
    hide Compute;
    var times := h + [now];
    assert forall i :: 0 <= i < |h| ==> h[i] in h;
    SameHistorySameState(c, times, h, |h|);
    Promises.ResetAtOnlyAdvances(c, times, |h|);
  }

  predicate SameSlot(a: Db, b: Db, k: string) {
    (k in a <==> k in b) && (k in a ==> a[k] == b[k])
  }

  lemma ExpireIsLocal(env: Env, db: Db, key: string, ttl: int, clock: real, k: string)
    requires k != key
    ensures SameSlot(Expire(env, db, key, ttl, clock), db, k)
  {
  }

  lemma BucketScriptsAreLocal(env: Env, db: Db, key: string, capacity: real, rate: real, now: real,
        clock: real, k: string)
    requires k != key && rate > 0.0
    ensures SameSlot(TokenScript(env, db, key, capacity, rate, now, clock).0, db, k)
    ensures SameSlot(LeakyScript(env, db, key, capacity, rate, now, clock).0, db, k)
  {
    hide TokenReply;
    hide LeakyReply;
    hide RefilledTokens;
    hide LeakedQueue;
    hide Fields;
    hide Peek;
    hide Alive;
    hide BucketTtl;
  }

  lemma EvictionIsLocal(env: Env, db: Db, key: string, hi: real, clock: real, k: string)
    requires k != key
    ensures SameSlot(ZRemRangeByScore(env, db, key, 0.0, hi, clock), db, k)
  {
    hide OutsideRange;
    hide Scores;
    hide Alive;
  }

  lemma AddMemberIsLocal(env: Env, db: Db, key: string, seqKey: string, nowMs: real, clock: real, k: string)
    requires k != key && k != seqKey
    ensures SameSlot(AddMember(env, db, key, seqKey, nowMs, clock), db, k)
  {
    hide Scores;
    hide RedisScripts.Count;
    hide Alive;
  }

  lemma WindowScriptIsLocal(env: Env, db: Db, key: string, seqKey: string, limit: real, period: real,
        now: real, clock: real, k: string)
    requires k != key && k != seqKey
    ensures SameSlot(WindowScript(env, db, key, seqKey, limit, period, now, clock).0, db, k)
  {
    hide Scores;
    hide Peek;
    hide Ceil;
    hide Truncate;
    hide Expire;
    hide AddMember;
    hide ZRemRangeByScore;
    hide Milliseconds;
    var nowMs, ttl := Milliseconds(now, clock), MaxInt(1, Ceil(period));
    var evicted := ZRemRangeByScore(env, db, key, 0.0, nowMs - period * 1000.0, clock);
    var added := AddMember(env, evicted, key, seqKey, nowMs, clock);
    EvictionIsLocal(env, db, key, nowMs - period * 1000.0, clock, k);
    AddMemberIsLocal(env, evicted, key, seqKey, nowMs, clock, k);
    ExpireIsLocal(env, evicted, key, ttl, clock, k);
    ExpireIsLocal(env, added, key, ttl, clock, k);
    ExpireIsLocal(env, Expire(env, evicted, key, ttl, clock), seqKey, ttl, clock, k);
    ExpireIsLocal(env, Expire(env, added, key, ttl, clock), seqKey, ttl, clock, k);
  }

  /** Events on other keys touch neither key of this one. */
  lemma OthersTouchNothing(env: Env, db: Db, prefix: string, key: string, c: Config, time: Option<real>, now: real,
        k: string)
    requires k != prefix + key && (c.algorithm.Window? ==> k != prefix + SeqKey(key))
    ensures SameSlot(RedisCheck(env, db, prefix, key, c, time, now).0, db, k)
  {
    var t := time.GetOr(TIME_SENTINEL);
    hide TokenScript;
    hide LeakyScript;
    hide WindowScript;
    hide SameSlot;
    if c.algorithm.Window? {
      WindowScriptIsLocal(env, db, prefix + key, prefix + SeqKey(key), c.limit as real, c.period as real, t, now, k);
    } else {
      BucketScriptsAreLocal(env, db, prefix + key, RedisCapacity(c) as real, TokensPerSecond(c), t, now, k);
    }
  }

  lemma {:induction false} RunIsRemembered(env: Env, prefix: string, src: TimeSource,
        events: seq<L.Event>, key: string, c: SoundConfig, n: nat)
    requires n <= |events|
    requires OneConfig(events, key, c) && Ordered(events, key) && NonNegative(events, key) && NoClash(events, key, c)
    ensures Remembered(DbAfter(env, prefix, src, events, n), prefix, key, c, src, History(events, key, n))
  {
    hide Remembered;
    hide RedisCheck;
    hide OneConfig;
    hide NoClash;
    if n == 0 {
      NothingRemembered(prefix, key, c, src);
    } else {
      var e := events[n - 1];
      RunIsRemembered(env, prefix, src, events, key, c, n - 1);
      if IsCheck(e, key) {
        TheConfig(events, key, c, n - 1);
        HistoryFits(events, key, n - 1);
        CheckAgrees(env, DbAfter(env, prefix, src, events, n - 1), prefix, key, c, src, History(events, key, n - 1),
                    e.op.now);
      } else if e.key == key {
        ResetForgets(DbAfter(env, prefix, src, events, n - 1), prefix, key, c, src, History(events, key, n - 1));
      } else {
        OtherKeyKeeps(env, prefix, src, events, key, c, n - 1);
      }
    }
  }

  lemma NothingRemembered(prefix: string, key: string, c: SoundConfig, src: TimeSource)
    ensures Remembered(map[], prefix, key, c, src, [])
  {
  }

  lemma TheConfig(events: seq<L.Event>, key: string, c: Config, j: nat)
    requires j < |events| && OneConfig(events, key, c) && IsCheck(events[j], key)
    ensures events[j].op.Check? && events[j].op.config == c
  {
  }

  lemma HistoryFits(events: seq<L.Event>, key: string, j: nat)
    requires j < |events| && IsCheck(events[j], key) && Ordered(events, key) && NonNegative(events, key)
    ensures
      var h, now := History(events, key, j), events[j].op.now;
      Sorted(h) && now >= 0.0 && forall t <- h :: 0.0 <= t <= now
  {
    HistoryFromEvents(events, key, j, 0.0);
    forall t | t in History(events, key, j)
      ensures 0.0 <= t <= events[j].op.now
    {
      HistoryFromEvents(events, key, j, t);
    }
  }

  lemma ResetForgets(db: Db, prefix: string, key: string, c: SoundConfig, src: TimeSource, clocks: seq<real>)
    requires Remembered(db, prefix, key, c, src, clocks)
    ensures Remembered(db - {prefix + key}, prefix, key, c, src, [])
  {
  }

  lemma OtherKeyKeeps(env: Env, prefix: string, src: TimeSource, events: seq<L.Event>, key: string, c: SoundConfig,
        j: nat)
    requires j < |events| && events[j].key != key && NoClash(events, key, c)
    requires Remembered(DbAfter(env, prefix, src, events, j), prefix, key, c, src, History(events, key, j))
    ensures Remembered(DbAfter(env, prefix, src, events, j + 1), prefix, key, c, src, History(events, key, j + 1))
  {
    hide RedisCheck;
    hide Remembered;
    hide History;
    hide SeqKey;
    var db, db', e := DbAfter(env, prefix, src, events, j), DbAfter(env, prefix, src, events, j + 1), events[j];
    KeysDiffer(prefix, e.key, key);
    KeysDiffer(prefix, SeqKey(e.key), key);
    KeysDiffer(prefix, e.key, SeqKey(key));
    KeysDiffer(prefix, SeqKey(e.key), SeqKey(key));
    if e.op.Check? {
      OthersTouchNothing(env, db, prefix, e.key, e.op.config, SuppliedTime(src, e.op.now), e.op.now, prefix + key);
      if c.algorithm.Window? {
        OthersTouchNothing(env, db, prefix, e.key, e.op.config, SuppliedTime(src, e.op.now), e.op.now,
                           prefix + SeqKey(key));
      }
    }
    OtherHistory(events, key, j);
    SameSlotsRemember(db, db', prefix, key, c, src, History(events, key, j));
  }

  lemma OtherHistory(events: seq<L.Event>, key: string, j: nat)
    requires j < |events| && events[j].key != key
    ensures History(events, key, j + 1) == History(events, key, j)
  {
  }

  lemma SameSlotsRemember(db: Db, db': Db, prefix: string, key: string, c: SoundConfig, src: TimeSource,
        clocks: seq<real>)
    requires Remembered(db, prefix, key, c, src, clocks)
    requires SameSlot(db', db, prefix + key) && (c.algorithm.Window? ==> SameSlot(db', db, prefix + SeqKey(key)))
    ensures Remembered(db', prefix, key, c, src, clocks)
  {
    hide StateAt;
    hide Holds;
    hide SeqKey;
  }

  /** Every check gets from Redis the answer of the key's full history since its last
      reset, at the readings the scripts decide by, whatever other keys do, with `reset_at`
      cut to whole seconds. Times may be supplied or the server's own. */
  lemma RedisForgetsInvisibly(env: Env, prefix: string, src: TimeSource, events: seq<L.Event>, key: string,
        c: SoundConfig, j: nat)
    requires j < |events| && IsCheck(events[j], key)
    requires OneConfig(events, key, c) && Ordered(events, key) && NonNegative(events, key) && NoClash(events, key, c)
    ensures
      var reading := Reading(src, c, events[j].op.now);
      var d := Answer(c, Readings(src, c, History(events, key, j)), reading);
      OutcomeAt(env, prefix, src, events, j)
      == Floored(L.ToOutcome(c, L.Decided(d.allowed, d.meta), reading, reading))
  {
    hide Remembered;
    hide RedisCheck;
    hide NoClash;
    hide Ordered;
    hide L.ToOutcome;
    hide Floored;
    hide Answer;
    RunIsRemembered(env, prefix, src, events, key, c, j);
    TheConfig(events, key, c, j);
    HistoryFits(events, key, j);
    CheckAgrees(env, DbAfter(env, prefix, src, events, j), prefix, key, c, src, History(events, key, j),
                events[j].op.now);
  }

  lemma SoundConfigIsSound(events: seq<L.Event>, key: string, c: SoundConfig)
    requires OneConfig(events, key, c)
    ensures SoundChecks(events, key)
  {
  }

  function ReadOp(src: TimeSource, c: Config, op: L.Op): L.Op {
    match op
    case Check(config, now) => L.Check(config, Reading(src, c, now))
    case Reset => L.Reset
    case DropIfExpired(now) => L.DropIfExpired(Reading(src, c, now))
  }

  /** The same events for a local store that is given the readings as its times. With
      supplied times these are the events themselves. */
  function ReadEvents(src: TimeSource, c: Config, events: seq<L.Event>): (r: seq<L.Event>)
    ensures |r| == |events|
    ensures forall i :: 0 <= i < |events| ==> r[i] == L.Event(events[i].key, ReadOp(src, c, events[i].op))
    ensures src.Supplied? ==> r == events
  {
    seq(|events|, i requires 0 <= i < |events| => L.Event(events[i].key, ReadOp(src, c, events[i].op)))
  }

  lemma {:induction false} HistoryIsRead(src: TimeSource, c: Config, events: seq<L.Event>, key: string, n: nat)
    requires n <= |events|
    ensures History(ReadEvents(src, c, events), key, n) == Readings(src, c, History(events, key, n))
  {
    hide Reading;
    if n > 0 {
      HistoryIsRead(src, c, events, key, n - 1);
    }
  }

  lemma ReadEventsFit(src: TimeSource, c: SoundConfig, events: seq<L.Event>, key: string)
    requires OneConfig(events, key, c) && Ordered(events, key)
    ensures OneConfig(ReadEvents(src, c, events), key, c) && Ordered(ReadEvents(src, c, events), key)
  {
    hide Reading;
    var read := ReadEvents(src, c, events);
    forall i, j | 0 <= i < j < |read| && read[i].key == key && !read[i].op.Reset?
                  && read[j].key == key && read[j].op.Check?
      ensures read[i].op.now <= read[j].op.now
    {
      ReadingOrder(src, c, events[i].op.now, events[j].op.now);
    }
  }

  /** The dual implementations are equivalent: over any run of checks and resets with
      clock readings that do not go back, the Lua scripts and the local store (its own
      TTLs, its sweeps, its clock at any offset from wall time) return the same
      `allowed`, `remaining`, `retry_after` and `request_count`, and Redis reports the
      floor of the local `reset_at`. When Redis takes its own time, the local store is
      given the readings of the scripts. */
  lemma RedisRefinesLocal(env: Env, prefix: string, src: TimeSource, events: seq<L.Event>, key: string,
        c: SoundConfig, j: nat, offset: real)
    requires j < |events| && IsCheck(events[j], key)
    requires OneConfig(events, key, c) && Ordered(events, key) && NonNegative(events, key) && NoClash(events, key, c)
    ensures
      var reading := Reading(src, c, events[j].op.now);
      var heard := ShiftEvents(ReadEvents(src, c, events), -offset);
      var local := L.ToOutcome(c, L.ReplyAt(heard, j), reading - offset, reading);
      && local.Ok?
      && OutcomeAt(env, prefix, src, events, j) == Floored(local)
  {
    hide Remembered;
    hide RedisCheck;
    hide NoClash;
    hide Ordered;
    hide Floored;
    hide Answer;
    hide Reading;
    hide OutcomeAt;
    hide L.ReplyAt;
    hide L.Section;
    var read := ReadEvents(src, c, events);
    TheConfig(events, key, c, j);
    ReadEventsFit(src, c, events, key);
    HistoryIsRead(src, c, events, key, j);
    SoundConfigIsSound(read, key, c);
    ClockOffsetIsInvisible(read, offset, j);
    ResultsAreValid(read, key, c, j, read[j].op.now);
    ForgettingIsInvisible(read, key, c, j);
    RedisForgetsInvisibly(env, prefix, src, events, key, c, j);
  }

  /** After every check of a window key: the set holds one member per reported request,
      scored with the readings of the admissions still in the window, so each admission
      added exactly one; the counter expires with the set, at the server's clock, and is
      at least as large as every number in it, so the next member is new as well. */
  lemma WindowMembersNeverCollide(env: Env, prefix: string, src: TimeSource, events: seq<L.Event>, key: string,
        c: SoundConfig, j: nat)
    requires j < |events| && IsCheck(events[j], key) && c.algorithm.Window?
    requires OneConfig(events, key, c) && Ordered(events, key) && NonNegative(events, key) && NoClash(events, key, c)
    ensures
      var db, o := DbAfter(env, prefix, src, events, j + 1), OutcomeAt(env, prefix, src, events, j);
      var full, seqKey, now := prefix + key, prefix + SeqKey(key), events[j].op.now;
      var d := Answer(c, Readings(src, c, History(events, key, j)), Reading(src, c, now));
      && o.Ok?
      && full in db && db[full].value.ZSet? && |db[full].value.scores| == o.result.requestCount
      && seqKey in db && db[seqKey].value.Counter?
      && Holds(db[full].value.scores, d.state.log.requests, db[seqKey].value.n)
      && db[full].deadline == db[seqKey].deadline == Some(now + c.period as real)
      && (forall m <- db[full].value.scores :: m.seqNo <= db[seqKey].value.n)
      && (!o.result.allowed ==> o.result.retryAfter.Some? && o.result.retryAfter.value >= 1)
  {
    hide *;
    TheConfig(events, key, c, j);
    var now, clocks := events[j].op.now, History(events, key, j);
    AnswerIsCounted(c, Readings(src, c, clocks), Reading(src, c, now));
    var h, reading := Readings(src, c, clocks), Reading(src, c, now);
    HistoryFits(events, key, j);
    NextHistory(events, key, j);
    ReadingsFit(src, c, clocks, now);
    RunIsRemembered(env, prefix, src, events, key, c, j + 1);
    RedisForgetsInvisibly(env, prefix, src, events, key, c, j);
    HistoryAppends(c, h, reading);
    var db, d := DbAfter(env, prefix, src, events, j + 1), Answer(c, h, reading);
    RememberedWindow(db, prefix, key, c, src, clocks + [now], d.state);
    SavedMembers(db, prefix + key, prefix + SeqKey(key), c, d.state.log.requests, now);
  }

  /** After a check at server time t the key's deadline lies less than a second after
      t + max(1, capacity * period / limit), for a window t + period, and never before. */
  lemma DeadlineIsExact(env: Env, prefix: string, src: TimeSource, events: seq<L.Event>, key: string,
        c: SoundConfig, j: nat)
    requires j < |events| && IsCheck(events[j], key)
    requires OneConfig(events, key, c) && Ordered(events, key) && NonNegative(events, key) && NoClash(events, key, c)
    ensures
      var db, full := DbAfter(env, prefix, src, events, j + 1), prefix + key;
      var life := if c.algorithm.Window? then c.period as real
                  else c.Capacity() as real * c.period as real / c.limit as real;
      && full in db && db[full].deadline.Some?
      && events[j].op.now + Max(1.0, life) <= db[full].deadline.value < events[j].op.now + Max(1.0, life) + 1.0
  {
    hide RedisCheck;
    hide NoClash;
    hide Ordered;
    hide OneConfig;
    hide StateAt;
    hide Holds;
    hide DbAfter;
    hide RedisTtl;
    hide Ttl;
    RunIsRemembered(env, prefix, src, events, key, c, j + 1);
    NextHistory(events, key, j);
    RedisTtlIsExact(c);
  }

  lemma NextHistory(events: seq<L.Event>, key: string, j: nat)
    requires j < |events| && IsCheck(events[j], key)
    ensures History(events, key, j + 1) == History(events, key, j) + [events[j].op.now]
  {
  }

  lemma RememberedWindow(db: Db, prefix: string, key: string, c: SoundConfig, src: TimeSource, clocks: seq<real>,
        s: AlgorithmState)
    requires Remembered(db, prefix, key, c, src, clocks) && c.algorithm.Window? && |clocks| > 0
    requires s == StateAt(c, Readings(src, c, clocks), |clocks|)
    ensures WindowSaved(db, prefix + key, prefix + SeqKey(key), c, s.log.requests, clocks[|clocks| - 1])
  {
    hide WindowSaved;
    hide StateAt;
  }

  lemma SavedMembers(db: Db, key: string, seqKey: string, c: SoundConfig, requests: seq<real>, clock: real)
    requires WindowSaved(db, key, seqKey, c, requests, clock) && c.algorithm.Window?
    ensures key in db && db[key].value.ZSet? && |db[key].value.scores| == |requests|
    ensures seqKey in db && db[seqKey].value.Counter?
    ensures Holds(db[key].value.scores, requests, db[seqKey].value.n)
    ensures db[key].deadline == db[seqKey].deadline == Some(clock + c.period as real)
    ensures forall m <- db[key].value.scores :: m.seqNo <= db[seqKey].value.n
  {
    hide Holds;
    WindowTtls(c);
    forall m | m in db[key].value.scores
      ensures m.seqNo <= db[seqKey].value.n
    {
      if m.seqNo > db[seqKey].value.n {
        NewMemberIsNew(db[key].value.scores, requests, db[seqKey].value.n, m);
      }
    }
  }

  /** The outcome of an answer is a result whose count is the length of the log. */
  lemma AnswerIsCounted(c: SoundConfig, h: seq<real>, now: real)
    requires c.algorithm.Window?
    ensures
      var d := Answer(c, h, now);
      var o := Floored(L.ToOutcome(c, L.Decided(d.allowed, d.meta), now, now));
      && d.state.Log?
      && o.Ok?
      && o.result.requestCount == |d.state.log.requests|
      && (!o.result.allowed ==> o.result.retryAfter.Some? && o.result.retryAfter.value >= 1)
  {
    hide Compute;
    hide StateAt;
    hide Bounded;
    RunStaysBounded(c, h, |h|);
    ComputeStaysBounded(c, StateAt(c, h, |h|), now);
    LogIsCounted(c, StateAt(c, h, |h|), now);
  }

  lemma LogIsCounted(c: SoundConfig, s: AlgorithmState, now: real)
    requires c.algorithm.Window? && Fits(c, s)
    ensures Compute(s, c, now).meta.requestCount == |Compute(s, c, now).state.log.requests|
  {
  }
}
