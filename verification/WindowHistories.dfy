/** What the sliding-window log promises about whole histories whose clock readings
    do not go back, measured on the full list of admissions, none of it evicted. */
module WindowHistories {
  import opened Numbers
  import opened Models
  import opened Algorithms
  import opened Histories
  import SlidingWindow

  type WindowConfig = c: Config | c.algorithm.Window?
    witness RateLimitConfig(Window, 1, 1, None)

  /** The times of the first `n` requests that the schedule `bs` admits. */
  function Picked(times: seq<real>, bs: seq<bool>, n: nat): seq<real>
    requires n <= |times| == |bs|
  {
    if n == 0 then []
    else if bs[n - 1] then Picked(times, bs, n - 1) + [times[n - 1]]
    else Picked(times, bs, n - 1)
  }

  /** Every admission among the first `n` requests. */
  function AdmittedTimes(c: Config, times: seq<real>, n: nat): seq<real>
    requires n <= |times|
  {
    Picked(times, Admissions(c, times), n)
  }

  /** How many timestamps lie in the half-open window `(lo, hi]`. */
  function CountIn(ts: seq<real>, lo: real, hi: real): nat {
    if ts == [] then 0
    else CountIn(ts[..|ts| - 1], lo, hi) + if lo < ts[|ts| - 1] <= hi then 1 else 0
  }

  /** At most `limit` of `ts` fall within any window of one period, wherever it ends. */
  ghost predicate WithinLimit(c: Config, ts: seq<real>) {
    forall end: real :: InPeriodEnding(c, ts, end) <= c.limit
  }

  function InPeriodEnding(c: Config, ts: seq<real>, end: real): nat {
    CountIn(ts, end - c.period as real, end)
  }

  // ----- Lists -----

  lemma AppendIsLast(ts: seq<real>, t: real)
    ensures (ts + [t])[..|ts + [t]| - 1] == ts
  {
  }

  lemma {:induction false} LiveOfLive(ts: seq<real>, early: real, late: real)
    requires early <= late
    ensures SlidingWindow.Live(SlidingWindow.Live(ts, early), late) == SlidingWindow.Live(ts, late)
  {
    if ts != [] {
      var front, last := ts[..|ts| - 1], ts[|ts| - 1];
      LiveOfLive(front, early, late);
      AppendIsLast(SlidingWindow.Live(front, early), last);
    }
  }

  lemma LiveAppends(ts: seq<real>, t: real, cutoff: real)
    requires t > cutoff
    ensures SlidingWindow.Live(ts + [t], cutoff) == SlidingWindow.Live(ts, cutoff) + [t]
  {
    AppendIsLast(ts, t);
  }

  lemma {:induction false} CountIsLive(ts: seq<real>, lo: real, hi: real)
    requires forall i :: 0 <= i < |ts| ==> ts[i] <= hi
    ensures CountIn(ts, lo, hi) == |SlidingWindow.Live(ts, lo)|
  {
    if ts != [] {
      CountIsLive(ts[..|ts| - 1], lo, hi);
    }
  }

  lemma {:induction false} NarrowerCountsLess(ts: seq<real>, lo: real, hi: real, lo': real, hi': real)
    requires lo' <= lo
    requires forall i :: 0 <= i < |ts| && ts[i] <= hi ==> ts[i] <= hi'
    ensures CountIn(ts, lo, hi) <= CountIn(ts, lo', hi')
  {
    if ts != [] {
      NarrowerCountsLess(ts[..|ts| - 1], lo, hi, lo', hi');
    }
  }

  lemma {:induction false} PickedIsSorted(times: seq<real>, bs: seq<bool>, n: nat)
    requires n <= |times| == |bs| && Sorted(times)
    ensures Sorted(Picked(times, bs, n))
    ensures n > 0 ==> forall i :: 0 <= i < |Picked(times, bs, n)| ==> Picked(times, bs, n)[i] <= times[n - 1]
  {
    if n > 0 {
      PickedIsSorted(times, bs, n - 1);
    }
  }

  /** Index form of a window count, once `m` is the first request inside it. */
  lemma {:induction false} CountFromWindowStart(times: seq<real>, bs: seq<bool>, m: nat, n: nat, cutoff: real)
    requires m <= n <= |times| == |bs|
    requires forall i :: 0 <= i < m ==> times[i] <= cutoff
    requires forall i :: m <= i < n ==> times[i] > cutoff
    ensures |SlidingWindow.Live(Picked(times, bs, n), cutoff)| == Count(bs, m, n)
  {
    if n > 0 {
      if bs[n - 1] {
        AppendIsLast(Picked(times, bs, n - 1), times[n - 1]);
      }
      CountFromWindowStart(times, bs, if m < n then m else m - 1, n - 1, cutoff);
    }
  }

  lemma {:induction false} CountWithinWindow(times: seq<real>, bs: seq<bool>, m: nat, n: nat, all: nat,
        lo: real, hi: real)
    requires m <= n <= all <= |times| == |bs|
    requires forall i :: m <= i < n ==> lo < times[i] <= hi
    ensures Count(bs, m, n) <= CountIn(Picked(times, bs, all), lo, hi)
  {
    if m < all {
      if bs[all - 1] {
        AppendIsLast(Picked(times, bs, all - 1), times[all - 1]);
      }
      CountWithinWindow(times, bs, m, if n < all then n else n - 1, all - 1, lo, hi);
    }
  }

  // ----- Whole runs -----

  lemma AdmittedGrows(c: WindowConfig, times: seq<real>, j: nat)
    requires j < |times|
    ensures
      var before := AdmittedTimes(c, times, j);
      AdmittedTimes(c, times, j + 1) == if DecisionAt(c, times, j).allowed then before + [times[j]] else before
  {
    hide StateAt;
    hide DecisionAt;
  }

  lemma {:induction false} LogIsLiveHistory(c: WindowConfig, times: seq<real>, n: nat)
    requires 0 < n <= |times| && Sorted(times)
    ensures
      StateAt(c, times, n).log.requests
      == SlidingWindow.Live(AdmittedTimes(c, times, n), times[n - 1] - c.period as real)
    decreases n, 0
  {
    hide StateAt;
    hide DecisionAt;
    hide Sorted;
    hide AdmittedTimes;
    hide SlidingWindow.Live;
    var before, now := AdmittedTimes(c, times, n - 1), times[n - 1];
    var cutoff := now - c.period as real;
    assert now > cutoff;
    AdmittedGrows(c, times, n - 1);
    LogBeforeDecision(c, times, n - 1);
    LiveAppends(before, now, cutoff);
    LogStep(c, times, n - 1, SlidingWindow.Live(before, cutoff));
  }

  /** What request `j` finds after eviction: the live part of the whole history. */
  lemma {:induction false} LogBeforeDecision(c: WindowConfig, times: seq<real>, j: nat)
    requires j < |times| && Sorted(times)
    ensures
      var cutoff := times[j] - c.period as real;
      SlidingWindow.Live(StateAt(c, times, j).log.requests, cutoff)
      == SlidingWindow.Live(AdmittedTimes(c, times, j), cutoff)
    decreases j, 1
  {
    hide StateAt;
    hide AdmittedTimes;
    hide SlidingWindow.Live;
    if j == 0 {
      NothingLogged(c, times);
    } else {
      LogIsLiveHistory(c, times, j);
      assert times[j - 1] <= times[j];
      LiveOfLive(AdmittedTimes(c, times, j), times[j - 1] - c.period as real, times[j] - c.period as real);
    }
  }

  lemma NothingLogged(c: WindowConfig, times: seq<real>)
    ensures StateAt(c, times, 0).log.requests == AdmittedTimes(c, times, 0) == []
  {
  }

  lemma LogStep(c: WindowConfig, times: seq<real>, j: nat, live: seq<real>)
    requires j < |times|
    requires live == SlidingWindow.Live(StateAt(c, times, j).log.requests, times[j] - c.period as real)
    ensures DecisionAt(c, times, j).allowed <==> |live| < c.limit
    ensures Admissions(c, times)[j] == DecisionAt(c, times, j).allowed
    ensures StateAt(c, times, j + 1).log.requests == if |live| < c.limit then live + [times[j]] else live
  {
  }

  /** Counting the period that ends at request `j` is counting the live history. */
  lemma PeriodCountIsLive(c: WindowConfig, times: seq<real>, bs: seq<bool>, j: nat)
    requires j < |times| == |bs| && Sorted(times)
    ensures
      InPeriodEnding(c, Picked(times, bs, j), times[j])
      == |SlidingWindow.Live(Picked(times, bs, j), times[j] - c.period as real)|
  {
    hide Picked;
    hide CountIn;
    hide SlidingWindow.Live;
    PickedIsSorted(times, bs, j);
    assert j > 0 ==> times[j - 1] <= times[j];
    assert j == 0 ==> |Picked(times, bs, j)| == 0 by {
      NothingPicked(times, bs);
    }
    CountIsLive(Picked(times, bs, j), times[j] - c.period as real, times[j]);
  }

  lemma NothingPicked(times: seq<real>, bs: seq<bool>)
    requires |times| == |bs|
    ensures Picked(times, bs, 0) == []
  {
  }

  /** The stored list is the live suffix of the never-evicted admission history. */
  lemma StoredLogIsLiveSuffix(c: WindowConfig, times: seq<real>, n: nat) returns (k: nat)
    requires 0 < n <= |times| && Sorted(times)
    ensures
      var history, cutoff := AdmittedTimes(c, times, n), times[n - 1] - c.period as real;
      && k <= |history|
      && StateAt(c, times, n).log.requests == history[k..]
      && Sorted(history)
      && (forall i :: 0 <= i < k ==> history[i] <= cutoff)
      && (forall i :: k <= i < |history| ==> cutoff < history[i] <= times[n - 1])
  {
    LogIsLiveHistory(c, times, n);
    PickedIsSorted(times, Admissions(c, times), n);
    k := LiveIsSuffix(AdmittedTimes(c, times, n), times[n - 1] - c.period as real);
  }

  /** A request is denied exactly when `limit` admissions of the full history lie in
      the period that ends now; more never do. */
  lemma DeniedIffWindowFull(c: WindowConfig, times: seq<real>, j: nat)
    requires j < |times| && Sorted(times)
    ensures
      var inWindow := InPeriodEnding(c, AdmittedTimes(c, times, j), times[j]);
      && inWindow <= c.limit
      && (!DecisionAt(c, times, j).allowed <==> inWindow == c.limit)
  {
    hide StateAt;
    hide DecisionAt;
    hide SlidingWindow.Live;
    hide Picked;
    hide CountIn;
    var live := SlidingWindow.Live(StateAt(c, times, j).log.requests, times[j] - c.period as real);
    LogBeforeDecision(c, times, j);
    PeriodCountIsLive(c, times, Admissions(c, times), j);
    LiveFitsLimit(c, times, j);
    LogStep(c, times, j, live);
  }

  lemma LiveFitsLimit(c: WindowConfig, times: seq<real>, j: nat)
    requires j < |times|
    ensures |SlidingWindow.Live(StateAt(c, times, j).log.requests, times[j] - c.period as real)| <= c.limit
  {
    RunStaysBounded(c, times, j);
  }

  /** No window of one period holds more than `limit` admissions, wherever it ends. */
  lemma {:induction false} AdmissionsStayWithinLimit(c: WindowConfig, times: seq<real>, n: nat)
    requires n <= |times| && Sorted(times)
    ensures WithinLimit(c, AdmittedTimes(c, times, n))
  {
    forall end: real
      ensures InPeriodEnding(c, AdmittedTimes(c, times, n), end) <= c.limit
    {
      hide *;
      WindowHoldsLimit(c, times, n, end);
    }
  }

  lemma {:induction false} WindowHoldsLimit(c: WindowConfig, times: seq<real>, n: nat, end: real)
    requires n <= |times| && Sorted(times)
    ensures InPeriodEnding(c, AdmittedTimes(c, times, n), end) <= c.limit
  {
    hide StateAt;
    hide DecisionAt;
    hide SlidingWindow.Live;
    hide Sorted;
    if n > 0 {
      var t, period, history := times[n - 1], c.period as real, AdmittedTimes(c, times, n);
      AppendIsLast(AdmittedTimes(c, times, n - 1), t);
      if t <= end {
        LogIsLiveHistory(c, times, n);
        RunStaysBounded(c, times, n);
        PickedIsSorted(times, Admissions(c, times), n);
        NarrowerCountsLess(history, end - period, end, t - period, t);
        CountIsLive(history, t - period, t);
      } else {
        WindowHoldsLimit(c, times, n - 1, end);
      }
    }
  }

  /** `reset_at` is one period after the oldest admission still in the window, this
      request included if admitted, and `request_count` is how many those are. */
  lemma ResetAtIsOldestLive(c: WindowConfig, times: seq<real>, j: nat) returns (k: nat)
    requires j < |times| && Sorted(times)
    ensures
      var history, cutoff, meta := AdmittedTimes(c, times, j + 1), times[j] - c.period as real, DecisionAt(c,
        times, j).meta;
      && k < |history| && history[k] > cutoff
      && (forall i :: 0 <= i < k ==> history[i] <= cutoff)
      && meta.resetAt == history[k] + c.period as real
      && meta.requestCount == |history| - k
  {
    k := StoredLogIsLiveSuffix(c, times, j + 1);
    hide AdmittedTimes;
    hide Sorted;
    MetaOfStoredLog(c, times, j);
  }

  lemma MetaOfStoredLog(c: WindowConfig, times: seq<real>, j: nat)
    requires j < |times|
    ensures
      var kept, meta := StateAt(c, times, j + 1).log.requests, DecisionAt(c, times, j).meta;
      && |kept| > 0 && meta.resetAt == kept[0] + c.period as real && meta.requestCount == |kept|
  {
  }

  // ----- Optimality -----

  lemma {:induction false} WindowStart(times: seq<real>, n: nat, cutoff: real) returns (m: nat)
    requires n <= |times| && Sorted(times)
    ensures m <= n
    ensures forall i :: 0 <= i < m ==> times[i] <= cutoff
    ensures forall i :: m <= i < n ==> times[i] > cutoff
  {
    m := n;
    if n > 0 && times[n - 1] > cutoff {
      m := WindowStart(times, n - 1, cutoff);
    }
  }

  /** Greedy optimality: a schedule that keeps every window within the limit has
      admitted no more requests than the code after any prefix. */
  lemma {:induction false} NoScheduleAdmitsMore(c: WindowConfig, times: seq<real>, other: seq<bool>, n: nat)
    requires n <= |times| == |other| && Sorted(times)
    requires WithinLimit(c, Picked(times, other, |times|))
    ensures Count(other, 0, n) <= Count(Admissions(c, times), 0, n)
  {
    if n > 0 {
      hide StateAt;
      hide DecisionAt;
      hide Sorted;
      hide Picked;
      hide CountIn;
      hide WithinLimit;
      var bs, j := Admissions(c, times), n - 1;
      NoScheduleAdmitsMore(c, times, other, j);
      if !bs[j] {
        var m := FullWindowStart(c, times, j);
        NoScheduleAdmitsMore(c, times, other, m);
        WindowHoldsSchedule(c, times, other, m, j);
        CountSplits(bs, 0, m, j);
        CountSplits(other, 0, m, n);
      }
    }
  }

  lemma FullWindowStart(c: WindowConfig, times: seq<real>, j: nat) returns (m: nat)
    requires j < |times| && Sorted(times)
    requires !Admissions(c, times)[j]
    ensures m <= j && Count(Admissions(c, times), m, j) == c.limit
    ensures forall i :: m <= i <= j ==> times[j] - c.period as real < times[i] <= times[j]
  {
    hide StateAt;
    hide DecisionAt;
    hide SlidingWindow.Live;
    hide Picked;
    hide CountIn;
    hide Count;
    var cutoff := times[j] - c.period as real;
    m := WindowStart(times, j, cutoff);
    CountFromWindowStart(times, Admissions(c, times), m, j, cutoff);
    DeniedIffWindowFull(c, times, j);
    PeriodCountIsLive(c, times, Admissions(c, times), j);
  }

  lemma WindowHoldsSchedule(c: WindowConfig, times: seq<real>, other: seq<bool>, m: nat, j: nat)
    requires m <= j < |times| == |other|
    requires forall i :: m <= i <= j ==> times[j] - c.period as real < times[i] <= times[j]
    requires WithinLimit(c, Picked(times, other, |times|))
    ensures Count(other, m, j + 1) <= c.limit
  {
    hide Picked;
    hide CountIn;
    CountWithinWindow(times, other, m, j + 1, |times|, times[j] - c.period as real, times[j]);
    assert InPeriodEnding(c, Picked(times, other, |times|), times[j]) <= c.limit;
  }
}
