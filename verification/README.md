# Verification of the rate-limiting engine

A Dafny model of the library's decision engine, with proofs about whole runs of it:

* the three algorithms (token bucket, leaky bucket, sliding-window log),
* the in-memory store that forgets expired state, with its sweeper,
* the striped-lock backends, as threads whose reads and writes interleave freely,
* the Redis Lua scripts with their own TTLs, sorted sets and sequence counters,
* the Redis Cluster key helpers.

The reference for all of them is `Histories`: one limiter that replays the full list of
request times of a key and never forgets anything. The store, the concurrent backends and
the Lua scripts are each proved to answer as this replay does, so every theorem about a
history is a theorem about all three.

| module | content |
|---|---|
| `Models`, `TokenBucket`, `LeakyBucket`, `SlidingWindow` | configs, results and the three `compute` functions, branch by branch |
| `Algorithms` | the common interface; what one decision keeps; rates and TTLs in limit and period; expiry, duality, clock shifts |
| `Histories` | the never-forgetting replay and its invariants |
| `BucketHistories`, `WindowHistories` | history form, greedy optimality, window exactness, the arrival-time recurrence |
| `Promises` | what `retry_after`, `remaining` and `reset_at` promise |
| `LocalStore` | `LocalStateCore` and the backend classes, imperative, against the function `Section` |
| `StoreRuns` | the expiring store against the replay; keys shared by algorithms; bounds at any clock; clock offsets |
| `Concurrency` | threads, locks and sweeper as a step relation; linearizability |
| `ConcurrentCalls` | from a call in the schedule to what its caller gets; what a complete sweep leaves behind |
| `RedisScripts` | Redis commands, the three scripts (also as imperative methods), wire format |
| `RedisSteps`, `RedisRuns` | each script against one decision; whole runs of Redis against the local store |
| `RedisDifferences` | where Redis and the local store part, with exact conditions |
| `Keying` | hash-tag extraction and cluster keys |

## Modelling choices

* Floats are `real`; `math.ceil` and `math.floor` are exact. Configs satisfy what
  `__post_init__` checks (`Config`). `burst_size` is not validated there; `SoundConfig` adds
  that a bucket holds at least one request, and `RedisDifferences.FirstChecksAgreeIff` says
  exactly what happens without it.
* `time.monotonic()`, Redis TIME, `hash(key)` and Lua number printing are parameters about
  which nothing is assumed. So is whether a Redis key still lives at its very deadline.
* Every check carries its own config, as in the API. Reading the state of another algorithm
  raises KeyError, as the dictionaries do. Theorems about a key that say so assume one
  config per key (`OneConfig`).
* `Ordered` says that no check of a key reads an earlier time than an earlier check or sweep
  of that key. The clock is read before the lock is taken, so lock order alone does not give
  this; the results that need it name it. `StoreRuns.AdmissionsAreBoundedAtAnyClock`,
  `StoreRuns.ResultsAreValid`, `StoreRuns.KeyErrorIff`, `StoreRuns.ClockOffsetIsInvisible`,
  `BucketHistories.BalanceIsLeastRoom`, `BucketHistories.NoScheduleAdmitsMore`,
  `Promises.RemainingIsExact` and all of linearizability hold for any readings.
* A window key and its counter key are kept apart by `NoClash`. Key names that violate it
  fail, as `RedisDifferences.SecondKeyWorksIff` proves.
* A Redis run takes its time from one of two sources (`TimeSource`): the caller supplies the
  server's clock, or supplies nothing and the scripts read Redis TIME, which the window script
  cuts to whole milliseconds. Decisions follow the reading (`Reading`), deadlines the uncut
  clock.
* A thread starts a critical section with the step `Call`, or as a sweeper with `NextKey`;
  `NoRelease` says that the thread has not ended that section yet.

The source documentation calls the local and Redis implementations mathematically
equivalent. They are, up to two things the code does: Redis returns `reset_at` cut to whole
seconds (a Lua number in a reply becomes an integer), and `burst_size = 0` means "limit" to
Redis but zero capacity to the local algorithms.

## Model

| member | source | states |
|---|---|---|
| Algorithms.TokenIsLeaky | src/rate_limit_patterns/algorithms/leaky_bucket.py:48-97 | with queue = burst − tokens, token and leaky bucket answer one request identically and stay mirrored, at any clock reading; a token denial always waits at least 1, so the leaky `max(1, ...)` is redundant |
| Histories.TokenRunIsLeakyRun | src/rate_limit_patterns/algorithms/token_bucket.py:49-95 | the same over every run, timestamps in any order: same decisions and metadata, mirrored states, same TTL |
| Algorithms.ComputeStaysBounded | src/rate_limit_patterns/algorithms/token_bucket.py:60-85 | at any clock: levels stay within the capacity and the log within the limit; remaining + request_count is the limit (window) or within one of the capacity (buckets); retry_after is present just on denial, at least 1, with remaining 0 |
| Histories.RunStaysBounded | src/rate_limit_patterns/algorithms/leaky_bucket.py:56-81 | the same in every reachable state |
| Algorithms.ExpiredIsFresh | src/rate_limit_patterns/backend/_local_shared.py:128-136 | once the TTL has run out, the old state and a fresh one give the same answer and the same next state, for all three algorithms |
| Algorithms.FreshIgnoresClock | src/rate_limit_patterns/algorithms/token_bucket.py:27-31 | the fixed 0.0 stamp of a fresh state is invisible whatever the clock reads, negative readings included |
| Histories.RunIgnoresClockOffset | src/rate_limit_patterns/backend/_local_shared.py:138-142 | shifting all readings of a run changes no answer except reset_at, which shifts along |
| Algorithms.RefillIsExact | src/rate_limit_patterns/models.py:52-58 | in elapsed seconds a bucket refills, and a queue drains, by limit·elapsed/period, up to full and down to empty |
| Algorithms.TtlIsExact | src/rate_limit_patterns/backend/_local_shared.py:128-136 | the TTL of a bucket is max(1, capacity·period/limit), of a window max(1, period) |
| BucketHistories.DrainedBucketRefills | src/rate_limit_patterns/algorithms/token_bucket.py:53-63 | a request that finds the bucket drained by the one before finds min(capacity, limit·elapsed/period) tokens, is admitted iff elapsed·limit ≥ period, and, exactly one period later with capacity at least the limit, is admitted with remaining = limit − 1 |
| BucketHistories.BalanceIsLeastRoom | src/rate_limit_patterns/algorithms/token_bucket.py:53-72 | the balance before request j is the minimum over i ≤ j of burst + limit·elapsed(i,j)/period − admitted(i..j−1), attained; j is admitted iff every stretch counting j fits; free places of the leaky queue likewise; any times, elapsed being forward movement |
| BucketHistories.NoScheduleAdmitsMore | src/rate_limit_patterns/algorithms/token_bucket.py:61-81 | no schedule that respects the same curve has admitted more after any prefix, for any request times |
| BucketHistories.CodeConforms | src/rate_limit_patterns/algorithms/leaky_bucket.py:61-65 | the code's own admissions respect that curve |
| BucketHistories.StretchIsCapped | src/rate_limit_patterns/algorithms/token_bucket.py:60-72 | any stretch of requests admits at most capacity + limit·elapsed/period |
| BucketHistories.PeriodIsCapped | src/rate_limit_patterns/models.py:52-58 | with burst = limit, fewer than 2·limit admissions in less than a period; the refill over that period is at most the limit |
| BucketHistories.ResetAtIsTheState | src/rate_limit_patterns/algorithms/token_bucket.py:54-84 | next reset_at = max(now, reset_at) + (period/limit if admitted), and a request is admitted iff max(0, reset_at − now) ≤ (burst − 1)·period/limit |
| BucketHistories.FirstResetAt | src/rate_limit_patterns/algorithms/leaky_bucket.py:57-80 | the recurrence starts with an admission and reset_at = now + period/limit |
| WindowHistories.StoredLogIsLiveSuffix | src/rate_limit_patterns/algorithms/sliding_window.py:49-63 | the stored list is the sorted live suffix of the never-evicted admission history |
| WindowHistories.DeniedIffWindowFull | src/rate_limit_patterns/algorithms/sliding_window.py:53-91 | a request is denied iff exactly `limit` admissions of the full history lie in (now − period, now]; never more do |
| WindowHistories.AdmissionsStayWithinLimit | src/rate_limit_patterns/algorithms/sliding_window.py:57-59 | for every real T at most `limit` admissions lie in (T − period, T] |
| WindowHistories.ResetAtIsOldestLive | src/rate_limit_patterns/algorithms/sliding_window.py:65-72 | reset_at is one period after the oldest admission still in the window and request_count is how many are in it |
| WindowHistories.NoScheduleAdmitsMore | src/rate_limit_patterns/algorithms/sliding_window.py:53-91 | no schedule that keeps every window within the limit has admitted more after any prefix |
| Promises.DeniedUntilReady | src/rate_limit_patterns/algorithms/sliding_window.py:74-79 | after a denial a poll is admitted iff it comes at or after one fixed instant, of which retry_after is the distance rounded up; denied polls do not move it |
| Promises.RetryAfterIsHonest | src/rate_limit_patterns/algorithms/leaky_bucket.py:67-77 | after a denial with value k nothing up to k − 1 whole seconds later is admitted |
| Promises.RetryAfterIsTight | src/rate_limit_patterns/algorithms/token_bucket.py:76-81 | by the first poll k or more seconds later something has been admitted |
| Promises.RemainingIsExact | src/rate_limit_patterns/algorithms/token_bucket.py:70-83 | of the checks that follow at the same instant the first `remaining` are admitted and all later ones denied, from any history |
| Promises.ResetAtOnlyAdvances | src/rate_limit_patterns/algorithms/sliding_window.py:65-67 | now ≤ reset_at ≤ now + TTL, and reset_at never moves back |
| LocalStore.LocalStateCore.Now | src/rate_limit_patterns/backend/_local_shared.py:53-61 | the two readings differ by the offset; an override is the wall reading, otherwise the monotonic clock is read |
| LocalStore.LocalStateCore.Apply | src/rate_limit_patterns/backend/_local_shared.py:63-83 | reply and whole new store are those of the critical-section function on the entry read |
| LocalStore.LocalStateCore.Reset | src/rate_limit_patterns/backend/_local_shared.py:103-105 | the key is gone and every other entry unchanged |
| LocalStore.LocalStateCore.MetricsSnapshot | src/rate_limit_patterns/backend/_local_shared.py:107-116 | returns the live state, or evicts the expired entry and nothing else |
| LocalStore.LocalStateCore.SnapshotKeys | src/rate_limit_patterns/backend/_local_shared.py:118-120 | lists exactly the stored keys |
| LocalStore.LocalStateCore.DropIfExpired | src/rate_limit_patterns/backend/_local_shared.py:122-126 | removes the entry iff it is expired, and nothing else |
| LocalStore.Backend.CheckAndIncrement | src/rate_limit_patterns/backend/sync.py:73-88 | outcome and new store of one call in terms of the critical section, with reset_at in wall time |
| LocalStore.Backend.CleanupExpired | src/rate_limit_patterns/backend/local.py:118-122 | after a sweep at T exactly the entries with expires_at > T remain, unchanged |
| StoreRuns.ForgettingIsInvisible | src/rate_limit_patterns/backend/_local_shared.py:74-83 | with in-place expiry, resets, and sweeps anywhere, every check is answered as by the replay of the key's full history since its last reset, and its state is what is stored |
| StoreRuns.StoreKeepsWindowLimit | src/rate_limit_patterns/backend/_local_shared.py:74-83 | through expiry and sweeps, no window of one period holds more than `limit` admissions of a key |
| StoreRuns.StoreRetryAfterIsExact | src/rate_limit_patterns/backend/_local_shared.py:63-83 | retry_after through the store, honest and tight, whatever polls, sweeps and other keys come in between |
| StoreRuns.StoreRemainingIsExact | src/rate_limit_patterns/backend/_local_shared.py:74-83 | remaining through the store: the m-th further check at the same instant is admitted iff m ≤ remaining |
| StoreRuns.StoreResetAtOnlyAdvances | src/rate_limit_patterns/backend/_local_shared.py:80-82 | between resets reset_at never moves back, across expiry and sweeps, and never exceeds the entry's expires_at |
| StoreRuns.ResultsAreValid | src/rate_limit_patterns/backend/_local_shared.py:85-101 | at any clock every check gets a result: construction never raises, and the counts add up |
| StoreRuns.KeyErrorIff | src/rate_limit_patterns/backend/_local_shared.py:74-83 | with any configs and clocks, a check raises KeyError iff the key's last decided check used another algorithm, has not reached its expiry, and was not reset or swept since; an entry at its very expiry counts as gone |
| StoreRuns.StoreHoldsLastDecided | src/rate_limit_patterns/backend/_local_shared.py:80-82 | in every run a key is stored iff its last decided check was not reset nor swept at or after its expiry, and then with that check's expiry and algorithm |
| StoreRuns.AdmissionsAreBoundedAtAnyClock | src/rate_limit_patterns/backend/_local_shared.py:122-126 | since its last reset a bucket key admits at most capacity + limit/period × the sum of forward jumps of its readings, sweeps counted, even when clocks jump back |
| StoreRuns.AdmissionsInOrderAreBounded | src/rate_limit_patterns/backend/_local_shared.py:74-83 | while its readings do not go back, a bucket key admits at most capacity + limit·(last − first reading)/period since its last reset |
| StoreRuns.ClockOffsetIsInvisible | src/rate_limit_patterns/backend/_local_shared.py:53-61 | running on a clock at any offset from wall time gives every caller the wall-time result, reset_at included, in every run |
| Concurrency.KeepsReads | src/rate_limit_patterns/backend/sync.py:101-102 | under the striped locks no write touches a key another thread has read and not yet written |
| Concurrency.Linearizable | src/rate_limit_patterns/backend/sync.py:81-88 | in every schedule each finished section takes effect at one point between its start and end, no two at one point, with the reply of the sections run in that order; the store is that of the log, so no update is lost |
| ConcurrentCalls.ReturnsComeFromCalls | src/rate_limit_patterns/backend/sync.py:73-88 | in every schedule a finished section comes from a step that started it with the same thread, key and operation and is ended by that thread's release, with the log lengths it reports; a check or reset can only come from its caller's call |
| ConcurrentCalls.ReturnsShareNoStep | src/rate_limit_patterns/backend/sync.py:85-86 | different finished sections come from different starting steps |
| ConcurrentCalls.CallReturns | src/rate_limit_patterns/backend/sync.py:85-93 | a call of any operation on a key gets, when its section ends, the reply of that operation on that key at one place of the log between the two |
| ConcurrentCalls.CallerGetsAnswer | src/rate_limit_patterns/backend/sync.py:73-88 | whoever calls a check with config c and time now on a key gets the full-history answer for that key, c and now, if the key's readings are in lock order |
| Concurrency.OnlyExpiredIsSwept | src/rate_limit_patterns/backend/sync.py:130-134 | a key leaves the store only by a reset or when its current entry is expired by the sweeper's reading, however stale the key snapshot |
| ConcurrentCalls.SweepVisitsAll | src/rate_limit_patterns/backend/sync.py:130-134 | a sweep that ends has run its expiry section on every key of its snapshot |
| ConcurrentCalls.SweepLeavesNothingExpired | src/rate_limit_patterns/backend/sync.py:130-134 | when a sweep at T ends, every stored key expires after T or was checked since the sweep began |
| Concurrency.BusyMeansProgress | src/rate_limit_patterns/backend/sync.py:130-134 | stripe locks and cleanup lock never deadlock |
| Concurrency.ConcurrentAnswersAreExact | src/rate_limit_patterns/backend/local.py:57-66 | if a key's readings are in lock order, every finished check has the answer of the full history at its place in the log |
| Concurrency.ConcurrentWindowLimit | README.md:67-77 | however many threads race, no window of one period holds more than `limit` admissions |
| Concurrency.ConcurrentAdmissionsAreBounded | src/rate_limit_patterns/backend/sync.py:82-86 | the any-clock bucket bound in every schedule |
| RedisScripts.RedisServer.EvalTokenBucket | src/rate_limit_patterns/backend/lua/token_bucket.lua:7-59 | the script step by step computes `TokenScript`: reply and whole new database |
| RedisScripts.RedisServer.EvalLeakyBucket | src/rate_limit_patterns/backend/lua/leaky_bucket.lua:7-77 | the script step by step computes `LeakyScript` |
| RedisScripts.RedisServer.EvalSlidingWindow | src/rate_limit_patterns/backend/lua/sliding_window.lua:8-69 | the script step by step computes `WindowScript` |
| RedisSteps.BucketScriptAgrees | src/rate_limit_patterns/backend/lua/token_bucket.lua:20-59 | a bucket script is one decision of the algorithm on what a live key holds, or on a fresh bucket, saved with the script's TTL |
| RedisSteps.EvictionAgrees | src/rate_limit_patterns/backend/lua/sliding_window.lua:23-28 | ZREMRANGEBYSCORE leaves the members of exactly the timestamps the local filter keeps |
| RedisSteps.WindowScriptAgrees | src/rate_limit_patterns/backend/lua/sliding_window.lua:23-69 | with a supplied time or the server's, at any clock, the window script is one decision of the local algorithm at its own reading (TIME cut to milliseconds) on the list its two keys stand for; scores follow the reading, deadlines the clock |
| RedisSteps.RedisTtlIsExact | src/rate_limit_patterns/backend/lua/token_bucket.lua:48-52 | the scripts' TTL is the local one, max(1, capacity·period/limit) or max(1, period), rounded up by less than a second |
| RedisSteps.ParseAgrees | src/rate_limit_patterns/backend/_redis_shared.py:90-104 | parsing the reply of a decision gives the local result with reset_at floored |
| RedisRuns.RedisForgetsInvisibly | src/rate_limit_patterns/backend/_redis_shared.py:54-104 | with Redis TTLs and resets, with supplied or server time, every check gets the answer of the full history at the readings its scripts decide by, whatever other keys do |
| RedisRuns.DeadlineIsExact | src/rate_limit_patterns/backend/lua/token_bucket.lua:46-52 | after every check the key's deadline lies at or after, and less than a second after, its server time plus max(1, capacity·period/limit) or max(1, period) |
| RedisRuns.RedisRefinesLocal | README.md:79-82 | over any run of checks and resets, with supplied or server time, Redis and the local store given the same readings (own TTLs, sweeps, shifted clock) return the same allowed, remaining, retry_after and request_count, and Redis reports the floor of the local reset_at |
| RedisRuns.WindowMembersNeverCollide | src/rate_limit_patterns/backend/lua/sliding_window.lua:34-50 | after every check, with supplied or server time, the set holds one member per reported request, scored with the readings of the admissions in the window; the counter expires with it one period after the server time and is at least every stored number, and a denial carries retry_after ≥ 1 |
| RedisDifferences.SecondKeyWorksIff | src/rate_limit_patterns/backend/_redis_shared.py:79-82 | a second key works after a first iff neither is the `:seq` counter key of the other as a window |
| RedisDifferences.FirstChecksAgreeIff | src/rate_limit_patterns/backend/_redis_shared.py:71-86 | the first answers of Redis and local agree iff burst_size is not 0 and, for the token bucket, not negative |
| RedisDifferences.NoTimeMeansServerTime | src/rate_limit_patterns/backend/lua/sliding_window.lua:14-21 | without a time, or with a negative one, a script runs at the server's clock, cut to milliseconds for windows |
| Keying.TagIsProper | src/rate_limit_patterns/backend/keying.py:7-20 | has_hash_tag holds iff extract_hash_tag returns a tag, which is nonempty and has no closing brace |
| Keying.BuiltKeyCarriesTag | src/rate_limit_patterns/backend/keying.py:23-35 | the tag extracted from a built key is the tag it was built with |
| Keying.BuiltKeyIs | src/rate_limit_patterns/backend/keying.py:31-35 | a built key is prefix, tag in braces and suffix joined by colons, where prefix and suffix lost exactly their trailing and leading colons, and an empty prefix leaves no colon |
| Keying.BuiltKeysAreDistinct | src/rate_limit_patterns/backend/keying.py:23-35 | for proper tags and prefixes without `{`, two built keys are equal iff their tags and their stripped prefixes and suffixes are |
| Keying.SuffixesKeepKeysApart | src/rate_limit_patterns/backend/keying.py:32-35 | with the same such tag and prefix, different suffixes without leading colons give different keys |
| Keying.TailKeepsTag | src/rate_limit_patterns/backend/_redis_shared.py:81 | appending `:seq`, or any text without a closing brace, never changes the tag of any key |
| Keying.ScriptKeysShareTag | src/rate_limit_patterns/backend/_redis_shared.py:79-82 | all keys a script is called with for a built key carry its tag |
| Keying.AgreesWithRedisIff | src/rate_limit_patterns/backend/keying.py:15-20 | extraction agrees with section "Hash tags" of the Redis Cluster specification iff the first `{` is not directly followed by `}` or no tag follows that |

## Left out

- Redis connections, script loading, EVALSHA retry and exception translation: network plumbing; one script call is one atomic step.
- Middleware, headers, decorator, facade and events: thin wrappers around one check.
- Start, stop and sleep intervals of the background cleanup: the sweeper is a thread that may run at any time.
- Unknown algorithm names and the large-limit warning: `Algorithm` is a closed type.
- Float rounding and the printed form of Lua numbers: reals, and an arbitrary printing function for members.
- `hash_metrics` and `zset_metrics`: field mapping without logic.
- The copy that `get_metrics` returns is not tracked after the call.
- LocalStore.Backend.Reset: its contract is the new store only; how resets interleave is in `Concurrency`.
- Redis runs with a supplied `now` that differs from the server's clock: `RedisRuns` covers the server's own time and supplied times equal to it; single window checks with any such pair are in `RedisSteps.WindowScriptAgrees`.
