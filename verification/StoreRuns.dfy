/** Whole runs of the expiring store, measured against the history that forgets nothing. */
module StoreRuns {
  import opened Numbers
  import opened Models
  import opened Algorithms
  import opened Histories
  import opened LocalStore
  import B = BucketHistories
  import W = WindowHistories
  import Promises

  /** All checks of `key` use the config `c`. */
  ghost predicate OneConfig(events: seq<Event>, key: string, c: Config) {
    forall i :: 0 <= i < |events| && events[i].key == key && events[i].op.Check? ==> events[i].op.config == c
  }

  /** No check of `key` reads an earlier time than a check or a sweep of it that ran before. */
  ghost predicate Ordered(events: seq<Event>, key: string) {
    forall i, j :: 0 <= i < j < |events| && events[i].key == key && !events[i].op.Reset?
                   && events[j].key == key && events[j].op.Check?
                   ==> events[i].op.now <= events[j].op.now
  }

  predicate IsCheck(e: Event, key: string) {
    e.key == key && e.op.Check?
  }

  /** The times of all checks of `key` since its last reset. */
  function History(events: seq<Event>, key: string, n: nat): seq<real>
    requires n <= |events|
  {
    if n == 0 then []
    else
      var e := events[n - 1];
      if IsCheck(e, key) then History(events, key, n - 1) + [e.op.now]
      else if e.key == key && e.op.Reset? then []
      else History(events, key, n - 1)
  }

  // ----- Forgetting is invisible -----

  lemma {:induction false} HistoryFromEvents(events: seq<Event>, key: string, n: nat, t: real)
    requires n <= |events| && Ordered(events, key)
    ensures Sorted(History(events, key, n))
    ensures t in History(events, key, n) ==> exists i :: 0 <= i < n && IsCheck(events[i], key) && events[i].op.now == t
  {
    if n > 0 {
      HistoryFromEvents(events, key, n - 1, t);
      var e, h := events[n - 1], History(events, key, n - 1);
      if IsCheck(e, key) {
        forall i | 0 <= i < |h|
          ensures h[i] <= e.op.now
        {
          HistoryFromEvents(events, key, n - 1, h[i]);
        }
      }
    }
  }

  /** Some sweep among the first `n` events found the entry written at `at` expired. */
  ghost predicate SweptAway(events: seq<Event>, key: string, c: Config, at: real, n: nat)
    requires n <= |events|
  {
    exists i :: 0 <= i < n && events[i].key == key && events[i].op.DropIfExpired? && at + Ttl(c) <= events[i].op.now
  }

  /** The store either still holds the state of the full history, or has rightly dropped it. */
  ghost predicate Remembers(events: seq<Event>, key: string, c: Config, n: nat)
    requires n <= |events|
  {
    var h, store := History(events, key, n), StoreAfter(events, n);
    if key in store
    then |h| > 0 && store[key] == Entry(StateAt(c, h, |h|), h[|h| - 1] + Ttl(c))
    else |h| == 0 || SweptAway(events, key, c, h[|h| - 1], n)
  }

  lemma CheckSeesHistory(events: seq<Event>, key: string, c: SoundConfig, j: nat)
    requires j < |events| && IsCheck(events[j], key)
    requires OneConfig(events, key, c) && Ordered(events, key) && Remembers(events, key, c, j)
    ensures
      var d := Answer(c, History(events, key, j), events[j].op.now);
      Section(Lookup(StoreAfter(events, j), key), events[j].op)
      == (Put(Entry(d.state, events[j].op.now + Ttl(c))), Decided(d.allowed, d.meta))
  {
    hide StoreAfter;
    hide Compute;
    hide History;
    hide InitialState;
    hide Settled;
    var h, now := History(events, key, j), events[j].op.now;
    if |h| > 0 && Gone(Lookup(StoreAfter(events, j), key), now) {
      HistoryFromEvents(events, key, j, now);
      RunSettles(c, h, |h|);
      assert h[|h| - 1] + Ttl(c) <= now;
      ExpiredIsFresh(c, StateAt(c, h, |h|), h[|h| - 1], now);
    }
  }

  lemma HistoryAppends(c: Config, h: seq<real>, now: real)
    ensures StateAt(c, h + [now], |h| + 1) == Answer(c, h, now).state
  {
    SameHistorySameState(c, h + [now], h, |h|);
  }

  lemma {:induction false} StoreRemembers(events: seq<Event>, key: string, c: SoundConfig, n: nat)
    requires n <= |events|
    requires OneConfig(events, key, c) && Ordered(events, key)
    ensures Remembers(events, key, c, n)
  {
    if n > 0 {
      StoreRemembers(events, key, c, n - 1);
      if IsCheck(events[n - 1], key) {
        CheckRemembers(events, key, c, n - 1);
      } else {
        OthersRemember(events, key, c, n - 1);
      }
    }
  }

  lemma CheckRemembers(events: seq<Event>, key: string, c: SoundConfig, j: nat)
    requires j < |events| && IsCheck(events[j], key)
    requires OneConfig(events, key, c) && Ordered(events, key) && Remembers(events, key, c, j)
    ensures Remembers(events, key, c, j + 1)
  {
    var now := events[j].op.now;
    CheckSeesHistory(events, key, c, j);
    HistoryAppends(c, History(events, key, j), now);
    hide Section;
    hide OneConfig;
    hide Ordered;
    hide Answer;
    assert History(events, key, j + 1) == History(events, key, j) + [now];
  }

  lemma OthersRemember(events: seq<Event>, key: string, c: Config, j: nat)
    requires j < |events| && !IsCheck(events[j], key)
    requires Remembers(events, key, c, j)
    ensures Remembers(events, key, c, j + 1)
  {
    hide Compute;
    var h, e := History(events, key, j), events[j];
    if |h| > 0 && SweptAway(events, key, c, h[|h| - 1], j) {
      var i :| 0 <= i < j && events[i].key == key && events[i].op.DropIfExpired?
               && h[|h| - 1] + Ttl(c) <= events[i].op.now;
      assert SweptAway(events, key, c, h[|h| - 1], j + 1);
    }
    if e.key == key && e.op.DropIfExpired? && key in StoreAfter(events, j) && key !in StoreAfter(events, j + 1) {
      assert SweptAway(events, key, c, h[|h| - 1], j + 1);
    }
  }

  /** The store with in-place expiry, resets and sweeps at any points answers every
      check as the limiter that replays the key's whole history since its last reset. */
  lemma ForgettingIsInvisible(events: seq<Event>, key: string, c: SoundConfig, j: nat)
    requires j < |events| && IsCheck(events[j], key)
    requires OneConfig(events, key, c) && Ordered(events, key)
    ensures
      var d := Answer(c, History(events, key, j), events[j].op.now);
      && ReplyAt(events, j) == Decided(d.allowed, d.meta)
      && key in StoreAfter(events, j + 1)
      && StoreAfter(events, j + 1)[key] == Entry(d.state, events[j].op.now + Ttl(c))
  {
    StoreRemembers(events, key, c, j);
    CheckSeesHistory(events, key, c, j);
  }

  predicate Admits(events: seq<Event>, j: nat)
    requires j < |events|
  {
    ReplyAt(events, j).Decided? && ReplyAt(events, j).allowed
  }

  /** The times at which the store admitted checks of `key` since its last reset. */
  function StoreAdmissions(events: seq<Event>, key: string, n: nat): seq<real>
    requires n <= |events|
  {
    if n == 0 then []
    else
      var e, before := events[n - 1], StoreAdmissions(events, key, n - 1);
      if e.key != key then before
      else if e.op.Reset? then []
      else if Admits(events, n - 1) then before + [e.op.now]
      else before
  }

  lemma {:induction false} StoreAdmissionsAreHistory(events: seq<Event>, key: string, c: W.WindowConfig, n: nat)
    requires n <= |events| && OneConfig(events, key, c) && Ordered(events, key)
    ensures
      StoreAdmissions(events, key, n) == W.AdmittedTimes(c, History(events, key, n), |History(events, key, n)|)
  {
    hide Compute;
    hide StoreAfter;
    hide OneConfig;
    hide Ordered;
    if n > 0 {
      StoreAdmissionsAreHistory(events, key, c, n - 1);
      var e, h := events[n - 1], History(events, key, n - 1);
      if IsCheck(e, key) {
        ForgettingIsInvisible(events, key, c, n - 1);
        AdmittedAppends(c, h, e.op.now);
      } else {
        DropsAdmitNothing(events, n - 1);
      }
    }
  }

  lemma DropsAdmitNothing(events: seq<Event>, j: nat)
    requires j < |events|
    ensures !events[j].op.Check? ==> ReplyAt(events, j) == Done
  {
  }

  lemma AdmittedAppends(c: W.WindowConfig, h: seq<real>, now: real)
    ensures
      W.AdmittedTimes(c, h + [now], |h| + 1)
      == W.AdmittedTimes(c, h, |h|) + if Answer(c, h, now).allowed then [now] else []
  {
    hide Compute;
    SameHistorySameState(c, h + [now], h, |h|);
    SameHistorySamePicks(c, h + [now], h, |h|);
  }

  lemma {:induction false} SameHistorySamePicks(c: W.WindowConfig, a: seq<real>, b: seq<real>, n: nat)
    requires n <= |a| && n <= |b|
    requires forall i :: 0 <= i < n ==> a[i] == b[i]
    ensures W.AdmittedTimes(c, a, n) == W.AdmittedTimes(c, b, n)
  {
    hide Compute;
    if n > 0 {
      SameHistorySameState(c, a, b, n - 1);
      SameHistorySamePicks(c, a, b, n - 1);
    }
  }

  /** No window of one period holds more than `limit` admissions of a key, through
      expiry, sweeps and checks of any other keys. */
  lemma StoreKeepsWindowLimit(events: seq<Event>, key: string, c: W.WindowConfig, n: nat)
    requires n <= |events| && OneConfig(events, key, c) && Ordered(events, key)
    ensures W.WithinLimit(c, StoreAdmissions(events, key, n))
  {
    StoreAdmissionsAreHistory(events, key, c, n);
    HistoryFromEvents(events, key, n, 0.0);
    hide *;
    W.AdmissionsStayWithinLimit(c, History(events, key, n), |History(events, key, n)|);
  }

  // ----- Promises, through the store -----

  /** The key is not reset between events `i` and `j`. */
  ghost predicate NoReset(events: seq<Event>, key: string, i: nat, j: nat)
    requires i <= j <= |events|
  {
    forall m :: i <= m < j && events[m].key == key ==> !events[m].op.Reset?
  }

  lemma {:induction false} HistoryGrows(events: seq<Event>, key: string, i: nat, j: nat)
    requires i < j <= |events| && IsCheck(events[i], key) && NoReset(events, key, i, j)
    ensures
      var h, h' := History(events, key, i), History(events, key, j);
      |h| < |h'| && h'[..|h|] == h && h'[|h|] == events[i].op.now
  {
    if i + 1 < j {
      HistoryGrows(events, key, i, j - 1);
    }
  }

  /** Checks `i` and `j` of one key as two requests of one history. */
  lemma HistoryAtCheck(events: seq<Event>, key: string, j: nat)
    requires j < |events| && IsCheck(events[j], key)
    ensures History(events, key, j + 1) == History(events, key, j) + [events[j].op.now]
  {
  }

  lemma SameHistory(events: seq<Event>, key: string, c: SoundConfig, i: nat, j: nat)
    returns (times: seq<real>, a: nat, b: nat)
    requires i < j < |events| && IsCheck(events[i], key) && IsCheck(events[j], key)
    requires OneConfig(events, key, c) && Ordered(events, key) && NoReset(events, key, i, j)
    ensures times == History(events, key, j + 1) && Sorted(times)
    ensures a == |History(events, key, i)| < b == |History(events, key, j)| < |times|
    ensures times[a] == events[i].op.now && times[b] == events[j].op.now
    ensures ReplyAt(events, i) == Decided(DecisionAt(c, times, a).allowed, DecisionAt(c, times, a).meta)
    ensures ReplyAt(events, j) == Decided(DecisionAt(c, times, b).allowed, DecisionAt(c, times, b).meta)
    ensures key in StoreAfter(events, j + 1) && StoreAfter(events, j + 1)[key].expiresAt == times[b] + Ttl(c)
  {
    hide Compute;
    hide StoreAfter;
    hide ReplyAt;
    hide Ordered;
    hide OneConfig;
    hide Sorted;
    hide StateAt;
    hide IsCheck;
    HistoryAtCheck(events, key, j);
    HistoryAtCheck(events, key, i);
    hide History;
    times := History(events, key, j + 1);
    a, b := |History(events, key, i)|, |History(events, key, j)|;
    HistoryGrows(events, key, i, j);
    HistoryFromEvents(events, key, j + 1, 0.0);
    ForgettingIsInvisible(events, key, c, i);
    ForgettingIsInvisible(events, key, c, j);
    forall m | 0 <= m < a
      ensures times[m] == History(events, key, i)[m]
    {
      assert History(events, key, j)[..a][m] == times[m];
    }
    SameHistorySameState(c, times, History(events, key, i), a);
    SameHistorySameState(c, times, History(events, key, j), b);
  }

  /** `reset_at` never moves back between resets, expiry and sweeps included, and never
      lies beyond the life of the entry. */
  lemma StoreResetAtOnlyAdvances(events: seq<Event>, key: string, c: SoundConfig, i: nat, j: nat)
    requires i < j < |events| && IsCheck(events[i], key) && IsCheck(events[j], key)
    requires OneConfig(events, key, c) && Ordered(events, key) && NoReset(events, key, i, j)
    ensures
      && ReplyAt(events, i).Decided? && ReplyAt(events, j).Decided? && key in StoreAfter(events, j + 1)
      && ReplyAt(events, i).meta.resetAt <= ReplyAt(events, j).meta.resetAt
         <= StoreAfter(events, j + 1)[key].expiresAt
  {
    hide Compute;
    hide StoreAfter;
    hide ReplyAt;
    var times, a, b := SameHistory(events, key, c, i, j);
    ResetAtAdvances(c, times, a, b);
    Promises.ResetAtOnlyAdvances(c, times, b);
  }

  lemma {:induction false} ResetAtAdvances(c: SoundConfig, times: seq<real>, a: nat, b: nat)
    requires a <= b < |times| && Sorted(times)
    ensures DecisionAt(c, times, a).meta.resetAt <= DecisionAt(c, times, b).meta.resetAt
  {
    hide Compute;
    if a < b {
      ResetAtAdvances(c, times, a, b - 1);
      Promises.ResetAtOnlyAdvances(c, times, b);
    }
  }

  /** Request `m` of the history is some check between events `i` and `j`. */
  lemma {:induction false} FindCheck(events: seq<Event>, key: string, i: nat, j: nat, m: nat) returns (e: nat)
    requires i < j <= |events| && IsCheck(events[i], key) && NoReset(events, key, i, j)
    requires |History(events, key, i)| < m < |History(events, key, j)|
    ensures i < e < j && IsCheck(events[e], key) && |History(events, key, e)| == m
  {
    if IsCheck(events[j - 1], key) && |History(events, key, j - 1)| == m {
      e := j - 1;
    } else {
      e := FindCheck(events, key, i, j - 1, m);
    }
  }

  /** `retry_after = k`, honest: after a denial every check of the key up to `k - 1`
      whole seconds later is denied. Tight: a check `k` or more seconds later is
      admitted if nothing was admitted in between. Polls in between change neither. */
  lemma StoreRetryAfterIsExact(events: seq<Event>, key: string, c: SoundConfig, i: nat, j: nat)
    requires i < j < |events| && IsCheck(events[i], key) && IsCheck(events[j], key)
    requires OneConfig(events, key, c) && Ordered(events, key) && NoReset(events, key, i, j)
    ensures ReplyAt(events, i).Decided? && ReplyAt(events, j).Decided?
    ensures
      !ReplyAt(events, i).allowed ==>
      var k := ReplyAt(events, i).meta.retryAfter.GetOr(0);
      var waited := events[j].op.now - events[i].op.now;
      && k >= 1
      && (waited <= (k - 1) as real ==> !ReplyAt(events, j).allowed)
      && (waited >= k as real
          && (forall e :: i < e < j && IsCheck(events[e], key) ==> !Admits(events, e))
          ==> ReplyAt(events, j).allowed)
  {
    hide Compute;
    hide StoreAfter;
    hide ReplyAt;
    var times, a, b := SameHistory(events, key, c, i, j);
    if !ReplyAt(events, i).allowed {
      Promises.RetryAfterIsHonest(c, times, a, b);
      if events[j].op.now - events[i].op.now >= ReplyAt(events, i).meta.retryAfter.value as real {
        AdmittedByThen(events, key, c, i, j, times, a, b);
      }
    }
  }

  lemma AdmittedByThen(events: seq<Event>, key: string, c: SoundConfig, i: nat, j: nat,
                       times: seq<real>, a: nat, b: nat)
    requires i < j < |events| && IsCheck(events[i], key) && IsCheck(events[j], key)
    requires OneConfig(events, key, c) && Ordered(events, key) && NoReset(events, key, i, j)
    requires times == History(events, key, j + 1) && Sorted(times)
    requires a == |History(events, key, i)| < b == |History(events, key, j)| < |times|
    requires !DecisionAt(c, times, a).allowed
    requires times[b] >= times[a] + DecisionAt(c, times, a).meta.retryAfter.GetOr(0) as real
    ensures exists e :: i < e <= j && IsCheck(events[e], key) && Admits(events, e)
  {
    hide Compute;
    hide StoreAfter;
    hide ReplyAt;
    hide StateAt;
    hide Ordered;
    hide OneConfig;
    hide Sorted;
    Promises.RetryAfterIsTight(c, times, a, b);
    var m :| a < m <= b && DecisionAt(c, times, m).allowed;
    var e := j;
    if m < b {
      e := FindCheck(events, key, i, j, m);
    }
    var times', _, m' := SameHistory(events, key, c, i, e);
    HistoryGrows(events, key, e, j + 1);
    SameHistorySameState(c, times, times', m);
  }

  /** `remaining = n`: of the checks of the key that follow at the same instant exactly
      the first `n` are admitted; `j` is the `m`-th of them. */
  lemma StoreRemainingIsExact(events: seq<Event>, key: string, c: SoundConfig, i: nat, j: nat)
    requires i < j < |events| && IsCheck(events[i], key) && IsCheck(events[j], key)
    requires OneConfig(events, key, c) && Ordered(events, key) && NoReset(events, key, i, j)
    requires events[j].op.now == events[i].op.now
    ensures
      var m := |History(events, key, j)| - |History(events, key, i)|;
      && ReplyAt(events, i).Decided? && ReplyAt(events, j).Decided?
      && (ReplyAt(events, j).allowed <==> m <= ReplyAt(events, i).meta.remaining)
  {
    hide Compute;
    hide StoreAfter;
    hide ReplyAt;
    var times, a, b := SameHistory(events, key, c, i, j);
    forall m | a < m <= b
      ensures times[m] == times[a]
    {
      assert times[a] <= times[m] <= times[b];
    }
    Promises.RemainingIsExact(c, times, a, b - a);
  }

  // ----- Keys shared by several algorithms -----

  /** When the entry written by the check at `i` expires. */
  function Expiry(events: seq<Event>, i: nat): real
    requires i < |events| && events[i].op.Check?
  {
    events[i].op.now + Ttl(events[i].op.config)
  }

  /** Check `i` got a decision on `key`, and before event `n` no other check did, nobody
      reset the key and no sweep came at or after the expiry. */
  ghost predicate LastDecided(events: seq<Event>, key: string, i: nat, n: nat)
    requires n <= |events|
  {
    && i < n && IsCheck(events[i], key) && ReplyAt(events, i).Decided?
    && forall k :: i < k < n && events[k].key == key ==>
         match events[k].op
         case Check(_, _) => !ReplyAt(events, k).Decided?
         case Reset => false
         case DropIfExpired(now) => now < Expiry(events, i)
  }

  /** The entry of a key is the one its last decided check left. */
  ghost predicate HoldsLastDecided(events: seq<Event>, key: string, n: nat)
    requires n <= |events|
  {
    && (key in StoreAfter(events, n) <==> exists i: nat :: LastDecided(events, key, i, n))
    && (forall i: nat | LastDecided(events, key, i, n) ::
          && StoreAfter(events, n)[key].expiresAt == Expiry(events, i)
          && Fits(events[i].op.config, StoreAfter(events, n)[key].state))
  }

  lemma NothingStored(events: seq<Event>)
    ensures StoreAfter(events, 0) == map[]
  {
  }

  lemma {:induction false} StoreHoldsLastDecided(events: seq<Event>, key: string, n: nat)
    requires n <= |events|
    ensures HoldsLastDecided(events, key, n)
  {
    hide ReplyAt;
    hide StoreAfter;
    hide Expiry;
    hide Fits;
    if n == 0 {
      NothingStored(events);
    } else {
      hide HoldsLastDecided;
      StoreHoldsLastDecided(events, key, n - 1);
      HoldsAfter(events, key, n - 1);
    }
  }

  lemma EntryStep(events: seq<Event>, key: string, j: nat)
    requires j < |events|
    ensures
      var e, reply := events[j], ReplyAt(events, j);
      var seen, left := Lookup(StoreAfter(events, j), key), Lookup(StoreAfter(events, j + 1), key);
      if e.key != key || (e.op.Check? && !reply.Decided?) then left == seen
      else match e.op
           case Check(c, _) => left.Some? && left.value.expiresAt == Expiry(events, j) && Fits(c, left.value.state)
           case Reset => left.None?
           case DropIfExpired(now) =>
             left == if seen.Some? && seen.value.expiresAt <= now then None else seen
  {
    hide Compute;
    hide Ttl;
  }

  lemma LastDecidedGrows(events: seq<Event>, key: string, i: nat, j: nat)
    requires i <= j < |events|
    ensures
      var e := events[j];
      LastDecided(events, key, i, j + 1)
      <==>
      if i == j then IsCheck(e, key) && ReplyAt(events, j).Decided?
      else
        && LastDecided(events, key, i, j)
        && (e.key == key ==> match e.op
                             case Check(_, _) => !ReplyAt(events, j).Decided?
                             case Reset => false
                             case DropIfExpired(now) => now < Expiry(events, i))
  {
    hide ReplyAt;
    hide Expiry;
  }

  lemma HoldsAfter(events: seq<Event>, key: string, j: nat)
    requires j < |events| && HoldsLastDecided(events, key, j)
    ensures HoldsLastDecided(events, key, j + 1)
  {
    hide StoreAfter;
    hide ReplyAt;
    hide Fits;
    hide Expiry;
    EntryStep(events, key, j);
    LastDecidedGrows(events, key, j, j);
    forall i: nat | LastDecided(events, key, i, j + 1)
      ensures key in StoreAfter(events, j + 1)
      ensures StoreAfter(events, j + 1)[key].expiresAt == Expiry(events, i)
      ensures Fits(events[i].op.config, StoreAfter(events, j + 1)[key].state)
    {
      LastDecidedGrows(events, key, i, j);
    }
    if key in StoreAfter(events, j + 1) && !LastDecided(events, key, j, j + 1) {
      var i: nat :| LastDecided(events, key, i, j);
      LastDecidedGrows(events, key, i, j);
    }
  }

  /** A check raises KeyError exactly when the key's last decided check used another
      algorithm and its entry has not reached its expiry, nor been reset or swept. In
      every run: any configs, any readings. */
  lemma KeyErrorIff(events: seq<Event>, j: nat, wall: real)
    requires j < |events| && events[j].op.Check?
    ensures
      var Check(c, now) := events[j].op;
      ToOutcome(c, ReplyAt(events, j), now, wall) == KeyError
      <==> exists i: nat :: && LastDecided(events, events[j].key, i, j)
                       && events[i].op.config.algorithm != c.algorithm
                       && now < Expiry(events, i)
  {
    hide StoreAfter;
    hide Compute;
    hide Ttl;
    hide LastDecided;
    var key := events[j].key;
    StoreHoldsLastDecided(events, key, j);
    if key in StoreAfter(events, j) {
      var i: nat :| LastDecided(events, key, i, j);
    }
  }

  // ----- Any clock at all -----

  ghost predicate EntriesBounded(m: Store, key: string, c: SoundConfig) {
    key in m ==> Fits(c, m[key].state) && Bounded(c, m[key].state)
  }

  lemma {:induction false} StoreStaysBounded(events: seq<Event>, key: string, c: SoundConfig, n: nat)
    requires n <= |events| && OneConfig(events, key, c)
    ensures EntriesBounded(StoreAfter(events, n), key, c)
  {
    hide Compute;
    hide Bounded;
    if n > 0 {
      StoreStaysBounded(events, key, c, n - 1);
      if IsCheck(events[n - 1], key) {
        CheckStaysBounded(events, key, c, n - 1);
      }
    }
  }

  lemma CheckStaysBounded(events: seq<Event>, key: string, c: SoundConfig, j: nat)
    requires j < |events| && IsCheck(events[j], key) && OneConfig(events, key, c)
    requires EntriesBounded(StoreAfter(events, j), key, c)
    ensures EntriesBounded(StoreAfter(events, j + 1), key, c)
    ensures
      && ReplyAt(events, j).Decided? && Accounted(c, ReplyAt(events, j).meta)
      && (ReplyAt(events, j).allowed <==> ReplyAt(events, j).meta.retryAfter.None?)
  {
    hide Compute;
    hide Bounded;
    hide Accounted;
    var seen := Lookup(StoreAfter(events, j), key);
    InitialIsBounded(c);
    var s := if Gone(seen, events[j].op.now) then InitialState(c) else seen.value.state;
    ComputeStaysBounded(c, s, events[j].op.now);
  }

  /** Whatever clocks and sweeps do, every check gets a valid result: construction
      never raises, and `remaining` and `request_count` add up to the capacity. */
  lemma ResultsAreValid(events: seq<Event>, key: string, c: SoundConfig, j: nat, wall: real)
    requires j < |events| && IsCheck(events[j], key) && OneConfig(events, key, c)
    ensures
      var o := ToOutcome(c, ReplyAt(events, j), events[j].op.now, wall);
      && o.Ok?
      && Accounted(c, ReplyAt(events, j).meta)
      && o.result.remaining == ReplyAt(events, j).meta.remaining
      && o.result.requestCount == ReplyAt(events, j).meta.requestCount
      && (o.result.allowed <==> o.result.retryAfter.None?)
  {
    hide StoreAfter;
    StoreStaysBounded(events, key, c, j);
    CheckStaysBounded(events, key, c, j);
  }

  /** Since the last reset of a key: admissions, the sum of all forward jumps of the
      clock readings in lock order (checks and sweeps alike), and the last reading. */
  datatype Tally = Tally(admitted: nat, forward: real, last: Option<real>)

  function TallyAt(events: seq<Event>, key: string, n: nat): (t: Tally)
    requires n <= |events|
    ensures t.forward >= 0.0
    ensures t.admitted == |StoreAdmissions(events, key, n)|
  {
    if n == 0 then Tally(0, 0.0, None)
    else
      var t, e := TallyAt(events, key, n - 1), events[n - 1];
      if e.key != key then t
      else if e.op.Reset? then Tally(0, 0.0, None)
      else
        Tally(
          t.admitted + (if Admits(events, n - 1) then 1 else 0),
          t.forward + (if t.last.Some? then Max(0.0, e.op.now - t.last.value) else 0.0),
          Some(e.op.now))
  }

  /** Admissions so far are paid for by the forward time and the debt still standing. */
  ghost predicate Paid(m: Store, t: Tally, key: string, c: B.BucketConfig) {
    if key in m
    then
      var s := m[key].state;
      && Fits(c, s) && Bounded(c, s) && t.last.Some?
      && m[key].expiresAt == B.AsQueue(c, s).lastLeak + Ttl(c)
      && B.Owed(c, t.admitted) <= t.forward + B.Debt(c, s) - Max(0.0, t.last.value - B.AsQueue(c, s).lastLeak)
    else B.Owed(c, t.admitted) <= t.forward
  }

  lemma NothingIsOwed(events: seq<Event>, key: string, c: B.BucketConfig)
    ensures Paid(StoreAfter(events, 0), TallyAt(events, key, 0), key, c)
  {
  }

  lemma {:induction false} RunIsPaid(events: seq<Event>, key: string, c: B.BucketConfig, n: nat)
    requires n <= |events| && OneConfig(events, key, c)
    ensures Paid(StoreAfter(events, n), TallyAt(events, key, n), key, c)
  {
    hide *;
    if n == 0 {
      NothingIsOwed(events, key, c);
    } else {
      RunIsPaid(events, key, c, n - 1);
      if IsCheck(events[n - 1], key) {
        CheckIsPaid(events, key, c, n - 1);
      } else {
        OthersArePaid(events, key, c, n - 1);
      }
    }
  }

  lemma DebtIsShort(c: B.BucketConfig, s: AlgorithmState)
    requires Fits(c, s) && Bounded(c, s)
    ensures 0.0 <= B.Debt(c, s) <= B.Depth(c) <= Ttl(c)
  {
    var q := B.AsQueue(c, s).queueSize;
    B.DepthHoldsOne(c);
    DivideOrder(q, c.Capacity() as real, TokensPerSecond(c));
    DivideOrder(0.0, q, TokensPerSecond(c));
  }

  lemma OthersArePaid(events: seq<Event>, key: string, c: B.BucketConfig, j: nat)
    requires j < |events| && !IsCheck(events[j], key)
    requires Paid(StoreAfter(events, j), TallyAt(events, key, j), key, c)
    ensures Paid(StoreAfter(events, j + 1), TallyAt(events, key, j + 1), key, c)
  {
    hide Compute;
    hide TokensPerSecond;
    hide B.Debt;
    hide B.AsQueue;
    hide Bounded;
    hide Ttl;
    if key in StoreAfter(events, j) {
      DebtIsShort(c, StoreAfter(events, j)[key].state);
    }
  }

  lemma CheckIsPaid(events: seq<Event>, key: string, c: B.BucketConfig, j: nat)
    requires j < |events| && IsCheck(events[j], key) && OneConfig(events, key, c)
    requires Paid(StoreAfter(events, j), TallyAt(events, key, j), key, c)
    ensures Paid(StoreAfter(events, j + 1), TallyAt(events, key, j + 1), key, c)
  {
    hide Compute;
    hide TokensPerSecond;
    hide B.Debt;
    hide B.AsQueue;
    hide B.Drained;
    hide B.Spacing;
    hide B.Depth;
    hide Bounded;
    hide Ttl;
    hide InitialState;
    var store, now := StoreAfter(events, j), events[j].op.now;
    var seen := Lookup(store, key);
    var gone := Gone(seen, now);
    var s := if gone then InitialState(c) else seen.value.state;
    InitialIsBounded(c);
    if key in store {
      DebtIsShort(c, store[key].state);
    }
    ComputeStaysBounded(c, s, now);
    B.DecisionInSeconds(c, s, now);
    var drained := B.Drained(c, s, now);
    assert B.Owed(c, TallyAt(events, key, j).admitted) <= TallyAt(events, key, j + 1).forward + drained by {
      if gone {
        B.FreshHasNoDebt(c, now);
      } else {
        DrainIsElapsed(c, s, now);
      }
    }
  }

  lemma DrainIsElapsed(c: Config, s: AlgorithmState, now: real)
    requires Fits(c, s) && !c.algorithm.Window?
    ensures B.Drained(c, s, now) >= B.Debt(c, s) - Max(0.0, now - B.AsQueue(c, s).lastLeak)
  {
  }

  /** A bucket key never admits more than its capacity plus the rate times the total
      forward movement of its clock readings, even when those readings jump back. */
  lemma AdmissionsAreBoundedAtAnyClock(events: seq<Event>, key: string, c: B.BucketConfig, n: nat)
    requires n <= |events| && OneConfig(events, key, c)
    ensures
      var t := TallyAt(events, key, n);
      && t.admitted as real <= c.Capacity() as real + Regained(c, t.forward)
      && t.admitted == |StoreAdmissions(events, key, n)|
  {
    hide *;
    RunIsPaid(events, key, c, n);
    PaidWithinDepth(c, StoreAfter(events, n), TallyAt(events, key, n), key);
    OwedWithinDepth(c, TallyAt(events, key, n).admitted, TallyAt(events, key, n).forward);
  }

  /** Event `i` is the first use of `key` after the start or after its reset just before `r`. */
  ghost predicate FirstUse(events: seq<Event>, key: string, r: nat, i: nat)
    requires r <= i < |events|
  {
    && (r == 0 || events[r - 1] == Event(key, Op.Reset))
    && (forall k :: r <= k < i ==> events[k].key != key)
    && events[i].key == key
  }

  /** `i` and `m` are the first and the last use of `key` since its last reset. While its
      readings do not go back, the store admits no more than the capacity and what comes
      back between the two readings. */
  lemma AdmissionsInOrderAreBounded(events: seq<Event>, key: string, c: B.BucketConfig,
                                    r: nat, i: nat, m: nat, n: nat)
    requires r <= i <= m < n <= |events| && OneConfig(events, key, c)
    requires FirstUse(events, key, r, i) && NoReset(events, key, i, n)
    requires events[m].key == key && forall k :: m < k < n ==> events[k].key != key
    requires ReadingsInOrder(events, key, i, n)
    ensures
      var elapsed := events[m].op.now - events[i].op.now;
      |StoreAdmissions(events, key, n)| as real <= c.Capacity() as real + Regained(c, elapsed)
  {
    NoTallyBefore(events, key, r, i);
    hide *;
    AdmissionsAreBoundedAtAnyClock(events, key, c, n);
    InOrderForwardIsElapsed(events, key, i, m, n);
  }

  ghost predicate ReadingsInOrder(events: seq<Event>, key: string, i: nat, n: nat)
    requires i <= n <= |events| && NoReset(events, key, i, n)
  {
    forall k, m :: i <= k < m < n && events[k].key == events[m].key == key ==> events[k].op.now <= events[m].op.now
  }

  lemma {:induction false} NoTallyBefore(events: seq<Event>, key: string, r: nat, n: nat)
    requires r <= n <= |events| && (r == 0 || events[r - 1] == Event(key, Op.Reset))
    requires forall k :: r <= k < n ==> events[k].key != key
    ensures TallyAt(events, key, n) == Tally(0, 0.0, None)
  {
    hide Admits;
    if r < n {
      NoTallyBefore(events, key, r, n - 1);
    }
  }

  lemma {:induction false} InOrderForwardIsElapsed(events: seq<Event>, key: string, i: nat, m: nat, n: nat)
    requires i <= m < n <= |events| && events[i].key == events[m].key == key
    requires NoReset(events, key, i, n) && ReadingsInOrder(events, key, i, n)
    requires TallyAt(events, key, i) == Tally(0, 0.0, None)
    requires forall k :: m < k < n ==> events[k].key != key
    ensures TallyAt(events, key, n).last == Some(events[m].op.now)
    ensures TallyAt(events, key, n).forward == events[m].op.now - events[i].op.now
  {
    hide Admits;
    if m < n - 1 {
      InOrderForwardIsElapsed(events, key, i, m, n - 1);
    } else if i < m {
      var p := LastUse(events, key, i, m);
      InOrderForwardIsElapsed(events, key, i, p, m);
    }
  }

  lemma {:induction false} LastUse(events: seq<Event>, key: string, i: nat, n: nat) returns (p: nat)
    requires i < n <= |events| && events[i].key == key
    ensures i <= p < n && events[p].key == key && forall k :: p < k < n ==> events[k].key != key
  {
    p := n - 1;
    if events[p].key != key {
      p := LastUse(events, key, i, n - 1);
    }
  }

  lemma PaidWithinDepth(c: B.BucketConfig, m: Store, t: Tally, key: string)
    requires Paid(m, t, key, c)
    ensures B.Owed(c, t.admitted) <= t.forward + B.Depth(c)
  {
    hide B.Debt;
    hide B.AsQueue;
    hide B.Depth;
    hide Bounded;
    B.DepthHoldsOne(c);
    if key in m {
      DebtIsShort(c, m[key].state);
    }
  }

  lemma OwedWithinDepth(c: B.BucketConfig, admitted: nat, forward: real)
    requires B.Owed(c, admitted) <= forward + B.Depth(c)
    ensures admitted as real <= c.Capacity() as real + Regained(c, forward)
  {
    hide Regained;
    RegainedAtRate(c, forward);
    hide B.Owed;
    hide B.Depth;
    hide TokensPerSecond;
    var rate := TokensPerSecond(c);
    B.OwedInTokens(c, admitted);
    B.UnitsInTokens(c);
    ScaleOrder(B.Owed(c, admitted), forward + B.Depth(c), rate);
    Distribute(forward, B.Depth(c), rate);
  }

  // ----- Clock offset -----

  function ShiftOp(op: Op, offset: real): Op {
    match op
    case Check(c, now) => Check(c, now + offset)
    case Reset => Op.Reset
    case DropIfExpired(now) => Op.DropIfExpired(now + offset)
  }

  function ShiftEvents(events: seq<Event>, offset: real): (r: seq<Event>)
    ensures |r| == |events|
    ensures forall i :: 0 <= i < |events| ==> r[i] == Event(events[i].key, ShiftOp(events[i].op, offset))
  {
    seq(|events|, i requires 0 <= i < |events| => Event(events[i].key, ShiftOp(events[i].op, offset)))
  }

  function ShiftEntry(seen: Option<Entry>, offset: real): Option<Entry> {
    if seen.None? then None else Some(Entry(Shift(seen.value.state, offset), seen.value.expiresAt + offset))
  }

  function ShiftReply(r: Reply, offset: real): Reply {
    if r.Decided? then Decided(r.allowed, r.meta.(resetAt := r.meta.resetAt + offset)) else r
  }

  ghost predicate SoundChecks(events: seq<Event>, key: string) {
    forall i :: 0 <= i < |events| && IsCheck(events[i], key) ==> events[i].op.config.Sound()
  }

  lemma SectionShifts(seen: Option<Entry>, op: Op, offset: real)
    requires op.Check? ==> op.config.Sound()
    ensures
      var (effect, reply) := Section(seen, op);
      var (effect', reply') := Section(ShiftEntry(seen, offset), ShiftOp(op, offset));
      && reply' == ShiftReply(reply, offset)
      && effect' == (if effect.Put? then Put(ShiftEntry(Some(effect.entry), offset).value) else effect)
  {
    hide Compute;
    hide InitialState;
    if op.Check? {
      var c: SoundConfig := op.config;
      FreshIgnoresClock(c, op.now, offset);
      if seen.Some? && Fits(c, seen.value.state) {
        ComputeShifts(c, seen.value.state, op.now, offset);
      }
    }
  }

  lemma {:induction false} StoreShifts(events: seq<Event>, offset: real, n: nat, key: string)
    requires n <= |events| && SoundChecks(events, key)
    ensures
      Lookup(StoreAfter(ShiftEvents(events, offset), n), key) == ShiftEntry(Lookup(StoreAfter(events, n), key), offset)
  {
    hide Section;
    hide ShiftEntry;
    hide Affect;
    hide Lookup;
    hide ShiftOp;
    if n == 0 {
      NothingToShift(key, offset);
    } else {
      var e, before := events[n - 1], StoreAfter(events, n - 1);
      var before' := StoreAfter(ShiftEvents(events, offset), n - 1);
      StoreShifts(events, offset, n - 1, key);
      if e.key == key {
        SectionShifts(Lookup(before, key), e.op, offset);
        ShiftAffects(before, before', key, Section(Lookup(before, key), e.op).0, offset);
      } else {
        AffectIsLocal(before, e.key, Section(Lookup(before, e.key), e.op).0, key);
        AffectIsLocal(before', e.key, Section(Lookup(before', e.key), ShiftOp(e.op, offset)).0, key);
      }
    }
  }

  lemma NothingToShift(key: string, offset: real)
    ensures Lookup(map[], key) == ShiftEntry(Lookup(map[], key), offset)
  {
  }

  lemma ShiftAffects(m: Store, m': Store, key: string, effect: Effect, offset: real)
    requires Lookup(m', key) == ShiftEntry(Lookup(m, key), offset)
    ensures
      var effect' := if effect.Put? then Put(ShiftEntry(Some(effect.entry), offset).value) else effect;
      Lookup(Affect(m', key, effect'), key) == ShiftEntry(Lookup(Affect(m, key, effect), key), offset)
  {
  }

  lemma AffectIsLocal(m: Store, key: string, e: Effect, other: string)
    requires other != key
    ensures Lookup(Affect(m, key, e), other) == Lookup(m, other)
  {
  }

  /** Running the store on a clock that differs from wall time by any offset gives every
      caller the result of running it on wall time, `reset_at` included. `events` carry
      wall times, in any order. */
  lemma ClockOffsetIsInvisible(events: seq<Event>, offset: real, j: nat)
    requires j < |events| && events[j].op.Check? && SoundChecks(events, events[j].key)
    ensures
      var e := events[j];
      ToOutcome(e.op.config, ReplyAt(ShiftEvents(events, -offset), j), e.op.now - offset, e.op.now)
      == ToOutcome(e.op.config, ReplyAt(events, j), e.op.now, e.op.now)
  {
    hide Section;
    hide StoreAfter;
    hide ShiftEntry;
    hide Construct;
    StoreShifts(events, -offset, j, events[j].key);
    SectionShifts(Lookup(StoreAfter(events, j), events[j].key), events[j].op, -offset);
    assert ReplyAt(ShiftEvents(events, -offset), j) == ShiftReply(ReplyAt(events, j), -offset);
  }
}
