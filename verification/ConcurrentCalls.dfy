/** Schedules seen from outside: what a caller who starts a call gets back, and what a
    complete sweep leaves behind. */
module ConcurrentCalls {
  import opened Models
  import opened Algorithms
  import opened LocalStore
  import opened StoreRuns
  import opened Concurrency
  import H = Histories

  /** Step `m` of the schedule is enabled when its turn comes. */
  predicate Fires(stripe: Stripes, schedule: seq<Step>, m: nat)
    requires m < |schedule|
  {
    Enabled(stripe, Exec(stripe, schedule, m), schedule[m])
  }

  /** Step `m` starts the section `op` of thread `tid` on `key`: either the caller's own
      call, or the sweeper taking the next key of its snapshot. */
  predicate Starts(stripe: Stripes, schedule: seq<Step>, m: nat, tid: nat, key: string, op: Op)
    requires m < |schedule|
  {
    && Fires(stripe, schedule, m)
    && (schedule[m] == Call(tid, key, op)
        || (schedule[m] == NextKey(tid)
            && var plan := ThreadOf(Exec(stripe, schedule, m), tid).plan;
               plan.todo[0] == key && op == DropIfExpired(plan.now)))
  }

  // ----- From returns back to calls -----

  /** A step of another kind leaves a busy thread with its key, operation and start. */
  lemma StepKeepsCall(stripe: Stripes, s: System, step: Step, tid: nat)
    requires Enabled(stripe, s, step)
    ensures
      var p, p' := ThreadOf(s, tid).phase, ThreadOf(Do(stripe, s, step), tid).phase;
      && (step.tid != tid ==> ThreadOf(Do(stripe, s, step), tid) == ThreadOf(s, tid))
      && (step.tid == tid && (step.Acquire? || step.Load? || step.Write?) ==>
            !p.Idle? && !p'.Idle? && p'.key == p.key && p'.op == p.op && p'.since == p.since)
      && (step.tid == tid && !p.Idle? ==> step.Acquire? || step.Load? || step.Write? || step.Release?)
      && (step.tid == tid && !p'.Idle? ==> !step.Release? && !step.StartSweep? && !step.EndSweep?)
  {
    hide Section;
  }

  lemma {:induction false} CallOfPhase(stripe: Stripes, schedule: seq<Step>, n: nat, tid: nat) returns (m: nat)
    requires n <= |schedule| && !ThreadOf(Exec(stripe, schedule, n), tid).phase.Idle?
    ensures
      var p := ThreadOf(Exec(stripe, schedule, n), tid).phase;
      && m < n
      && Starts(stripe, schedule, m, tid, p.key, p.op)
      && |Exec(stripe, schedule, m).log| == p.since
  {
    hide Section;
    hide LogIsSequential;
    var s, step := Exec(stripe, schedule, n - 1), schedule[n - 1];
    if Enabled(stripe, s, step) && step.tid == tid && (step.Call? || step.NextKey?) {
      m := n - 1;
    } else {
      if Enabled(stripe, s, step) {
        StepKeepsCall(stripe, s, step, tid);
        hide Do;
        m := CallOfPhase(stripe, schedule, n - 1, tid);
      } else {
        m := CallOfPhase(stripe, schedule, n - 1, tid);
      }
    }
  }

  /** Every return belongs to a step that started exactly that call: same thread, key and
      operation, with the log as long as it was then; and to the release that ended it.
      A check or a reset can only have been started by its caller. */
  lemma {:induction false} ReturnsComeFromCalls(stripe: Stripes, schedule: seq<Step>, n: nat, i: nat)
    returns (m: nat, q: nat)
    requires n <= |schedule| && i < |Exec(stripe, schedule, n).finished|
    ensures
      var r := Exec(stripe, schedule, n).finished[i];
      && m < q < n
      && Starts(stripe, schedule, m, r.tid, r.event.key, r.event.op)
      && (!r.event.op.DropIfExpired? ==> schedule[m] == Call(r.tid, r.event.key, r.event.op))
      && |Exec(stripe, schedule, m).log| == r.since
      && Fires(stripe, schedule, q) && schedule[q] == Release(r.tid)
      && |Exec(stripe, schedule, q).log| == r.until
  {
    hide Section;
    var s, step := Exec(stripe, schedule, n - 1), schedule[n - 1];
    if i < |s.finished| {
      hide Enabled;
      FinishedGrows(stripe, schedule, n - 1, n);
      m, q := ReturnsComeFromCalls(stripe, schedule, n - 1, i);
    } else {
      q := n - 1;
      m := CallOfPhase(stripe, schedule, q, step.tid);
    }
  }

  lemma {:induction false} FinishedGrows(stripe: Stripes, schedule: seq<Step>, m: nat, n: nat)
    requires m <= n <= |schedule|
    ensures Exec(stripe, schedule, m).finished <= Exec(stripe, schedule, n).finished
    ensures Exec(stripe, schedule, m).log <= Exec(stripe, schedule, n).log
  {
    hide Section;
    if m < n {
      FinishedGrows(stripe, schedule, m, n - 1);
    }
  }

  /** Different returns come from different steps. */
  lemma ReturnsShareNoStep(stripe: Stripes, schedule: seq<Step>, i: nat, j: nat, m: nat)
    requires m < |schedule| && i < j < |Exec(stripe, schedule, |schedule|).finished|
    requires
      var f := Exec(stripe, schedule, |schedule|).finished;
      && Starts(stripe, schedule, m, f[i].tid, f[i].event.key, f[i].event.op)
      && |Exec(stripe, schedule, m).log| == f[i].since
    ensures
      var f := Exec(stripe, schedule, |schedule|).finished;
      !(Starts(stripe, schedule, m, f[j].tid, f[j].event.key, f[j].event.op)
        && |Exec(stripe, schedule, m).log| == f[j].since)
  {
    hide Exec;
    hide LogIsSequential;
    hide LocksHeld;
    hide ReadsAreCurrent;
    hide SweepersAgree;
    InvHolds(stripe, schedule, |schedule|);
    var s := Exec(stripe, schedule, |schedule|);
    assert s.finished[i] in s.finished && s.finished[j] in s.finished;
  }

  // ----- From calls to returns -----

  /** Thread `tid` ends no section between steps `m` and `n`. */
  ghost predicate NoRelease(stripe: Stripes, schedule: seq<Step>, tid: nat, m: nat, n: nat)
    requires m <= n <= |schedule|
  {
    forall k :: m <= k < n ==> !(schedule[k] == Release(tid) && Fires(stripe, schedule, k))
  }

  lemma {:induction false} CallIsCarried(stripe: Stripes, schedule: seq<Step>, tid: nat, key: string, op: Op,
                                         m: nat, n: nat)
    requires m < n <= |schedule| && schedule[m] == Call(tid, key, op) && Fires(stripe, schedule, m)
    requires NoRelease(stripe, schedule, tid, m, n)
    ensures
      var p := ThreadOf(Exec(stripe, schedule, n), tid).phase;
      !p.Idle? && p.key == key && p.op == op && p.since == |Exec(stripe, schedule, m).log|
  {
    hide Section;
    if m + 1 < n {
      CallIsCarried(stripe, schedule, tid, key, op, m, n - 1);
      var s, step := Exec(stripe, schedule, n - 1), schedule[n - 1];
      assert step == Release(tid) ==> !Fires(stripe, schedule, n - 1);
      if Enabled(stripe, s, step) {
        StepKeepsCall(stripe, s, step, tid);
        hide Do;
      }
    }
  }

  /** The caller of `op` on `key` gets back, at its release, the reply that `op` on `key`
      has in the log, at a place between its call and its release. */
  lemma CallReturns(stripe: Stripes, schedule: seq<Step>, tid: nat, key: string, op: Op, m: nat, n: nat)
    returns (r: Return)
    requires m < n < |schedule| && schedule[m] == Call(tid, key, op) && Fires(stripe, schedule, m)
    requires schedule[n] == Release(tid) && Fires(stripe, schedule, n) && NoRelease(stripe, schedule, tid, m, n)
    ensures
      var before := Exec(stripe, schedule, n);
      var events := Events(before.log);
      && Exec(stripe, schedule, n + 1).finished == before.finished + [r]
      && r.tid == tid && r.event == Event(key, op)
      && |Exec(stripe, schedule, m).log| == r.since <= r.at < r.until == |events|
      && events[r.at] == r.event
      && r.reply == ReplyAt(events, r.at)
  {
    hide Section;
    hide ReplyAt;
    hide StoreAfter;
    CallIsCarried(stripe, schedule, tid, key, op, m, n);
    InvHolds(stripe, schedule, n);
    var before := Exec(stripe, schedule, n);
    var p := ThreadOf(before, tid).phase;
    r := Return(tid, Event(p.key, p.op), p.reply, p.since, p.at, |before.log|);
    assert before.log[r.at].reply == ReplyAt(Events(before.log), r.at);
  }

  /** Whoever calls `Check(c, now)` on `key` gets the answer for `key`, `c` and `now` of
      the limiter that replays the key's full history, as long as the key's clock
      readings are in lock order. */
  lemma CallerGetsAnswer(stripe: Stripes, schedule: seq<Step>, tid: nat, key: string, c: SoundConfig, now: real,
                         m: nat, n: nat) returns (r: Return)
    requires m < n < |schedule| && schedule[m] == Call(tid, key, Check(c, now)) && Fires(stripe, schedule, m)
    requires schedule[n] == Release(tid) && Fires(stripe, schedule, n) && NoRelease(stripe, schedule, tid, m, n)
    requires
      var events := Events(Exec(stripe, schedule, n).log);
      OneConfig(events, key, c) && Ordered(events, key)
    ensures
      var before := Exec(stripe, schedule, n);
      && Exec(stripe, schedule, n + 1).finished == before.finished + [r]
      && |Exec(stripe, schedule, m).log| <= r.at < |before.log|
      && var d := H.Answer(c, History(Events(before.log), key, r.at), now);
         r.reply == Decided(d.allowed, d.meta)
  {
    hide Exec;
    hide OneConfig;
    hide Ordered;
    hide ReplyAt;
    hide StoreAfter;
    hide H.Answer;
    hide Enabled;
    hide NoRelease;
    r := CallReturns(stripe, schedule, tid, key, Check(c, now), m, n);
    ForgettingIsInvisible(Events(Exec(stripe, schedule, n).log), key, c, r.at);
  }

  // ----- Complete sweeps -----

  /** The sweep of `tid` at `now` has dealt with `key` since the log was `from` long. */
  ghost predicate Visited(log: seq<Logged>, from: nat, tid: nat, key: string, now: real) {
    exists i :: from <= i < |log| && log[i].tid == tid && log[i].event == Event(key, DropIfExpired(now))
  }

  /** What is left of a sweep: `key` is still to come, in work, or visited. */
  ghost predicate OnTheWay(s: System, from: nat, tid: nat, key: string, now: real) {
    var t := ThreadOf(s, tid);
    && t.plan.Sweeping? && t.plan.now == now
    && (|| key in t.plan.todo
        || ((t.phase.Waiting? || t.phase.Holding? || t.phase.Loaded?)
            && t.phase.key == key && t.phase.op == DropIfExpired(now))
        || Visited(s.log, from, tid, key, now))
  }

  /** Steps `m` to `n` belong to one sweep of `tid`. */
  ghost predicate Sweeps(stripe: Stripes, schedule: seq<Step>, tid: nat, now: real, snapshot: seq<string>,
                         m: nat, n: nat)
    requires m < n <= |schedule|
  {
    && schedule[m] == StartSweep(tid, now, snapshot) && Fires(stripe, schedule, m)
    && forall k :: m < k < n ==> !(schedule[k] == EndSweep(tid) && Fires(stripe, schedule, k))
  }

  lemma StepKeepsWay(stripe: Stripes, s: System, step: Step, from: nat, tid: nat, key: string, now: real)
    requires Enabled(stripe, s, step) && step != EndSweep(tid)
    requires from <= |s.log| && OnTheWay(s, from, tid, key, now)
    ensures OnTheWay(Do(stripe, s, step), from, tid, key, now)
  {
    hide Section;
    var s' := Do(stripe, s, step);
    if Visited(s.log, from, tid, key, now) {
      var i :| from <= i < |s.log| && s.log[i].tid == tid && s.log[i].event == Event(key, DropIfExpired(now));
      assert s'.log[i] == s.log[i];
    } else if step.tid == tid && step.Write? {
      assert s'.log[|s.log|].tid == tid;
    }
  }

  lemma {:induction false} SweepProceeds(stripe: Stripes, schedule: seq<Step>, tid: nat, now: real,
                                         snapshot: seq<string>, m: nat, n: nat, key: string)
    requires m < n <= |schedule| && Sweeps(stripe, schedule, tid, now, snapshot, m, n) && key in snapshot
    ensures OnTheWay(Exec(stripe, schedule, n), |Exec(stripe, schedule, m).log|, tid, key, now)
  {
    hide Section;
    hide OnTheWay;
    if m + 1 == n {
      SweepBegins(stripe, Exec(stripe, schedule, m), tid, now, snapshot, key);
    } else {
      hide Do;
      SweepProceeds(stripe, schedule, tid, now, snapshot, m, n - 1, key);
      FinishedGrows(stripe, schedule, m, n - 1);
      assert !(schedule[n - 1] == EndSweep(tid) && Fires(stripe, schedule, n - 1));
      if Fires(stripe, schedule, n - 1) {
        var from := |Exec(stripe, schedule, m).log|;
        StepKeepsWay(stripe, Exec(stripe, schedule, n - 1), schedule[n - 1], from, tid, key, now);
      }
    }
  }

  lemma SweepBegins(stripe: Stripes, s: System, tid: nat, now: real, snapshot: seq<string>, key: string)
    requires Enabled(stripe, s, StartSweep(tid, now, snapshot)) && key in snapshot
    ensures OnTheWay(Do(stripe, s, StartSweep(tid, now, snapshot)), |s.log|, tid, key, now)
  {
  }

  /** A sweep that ends has visited every key of its snapshot, each in a section of its
      own under that key's lock. */
  lemma SweepVisitsAll(stripe: Stripes, schedule: seq<Step>, tid: nat, now: real, snapshot: seq<string>, m: nat, n: nat)
    requires m < n < |schedule| && Sweeps(stripe, schedule, tid, now, snapshot, m, n)
    requires schedule[n] == EndSweep(tid) && Fires(stripe, schedule, n)
    ensures
      forall key <- snapshot ::
        Visited(Exec(stripe, schedule, n).log, |Exec(stripe, schedule, m).log|, tid, key, now)
  {
    hide Exec;
    hide Sweeps;
    hide Visited;
    forall key | key in snapshot
      ensures Visited(Exec(stripe, schedule, n).log, |Exec(stripe, schedule, m).log|, tid, key, now)
    {
      SweepProceeds(stripe, schedule, tid, now, snapshot, m, n, key);
    }
  }

  lemma {:induction false} OnlyChecksPut(events: seq<Event>, key: string, i: nat, j: nat)
    requires i <= j <= |events| && key in StoreAfter(events, j)
    requires forall k :: i <= k < j ==> !IsCheck(events[k], key)
    ensures key in StoreAfter(events, i) && StoreAfter(events, i)[key] == StoreAfter(events, j)[key]
  {
    hide Compute;
    if i < j {
      OnlyChecksPut(events, key, i, j - 1);
    }
  }

  lemma DropLeavesLive(events: seq<Event>, i: nat)
    requires i < |events| && events[i].op.DropIfExpired?
    requires events[i].key in StoreAfter(events, i + 1)
    ensures StoreAfter(events, i + 1)[events[i].key].expiresAt > events[i].op.now
  {
  }

  /** When a sweep at `now` ends, every key in the store either expires after `now` or
      has been checked since the sweep began: no expired entry of the snapshot survives. */
  lemma SweepLeavesNothingExpired(stripe: Stripes, schedule: seq<Step>, tid: nat, now: real, snapshot: seq<string>,
                                  m: nat, n: nat, key: string)
    requires m < n < |schedule| && Sweeps(stripe, schedule, tid, now, snapshot, m, n)
    requires schedule[n] == EndSweep(tid) && Fires(stripe, schedule, n)
    requires key in Exec(stripe, schedule, n).store
    ensures
      var from, log := |Exec(stripe, schedule, m).log|, Exec(stripe, schedule, n).log;
      && from <= |log|
      && (Exec(stripe, schedule, n).store[key].expiresAt > now
          || exists i :: from <= i < |log| && IsCheck(log[i].event, key))
  {
    hide *;
    var began, ended := Exec(stripe, schedule, m), Exec(stripe, schedule, n);
    var from, events := |began.log|, Events(ended.log);
    StoreFromLaterLog(stripe, schedule, m, n);
    StoreFromLaterLog(stripe, schedule, n, n);
    if forall i :: from <= i < |events| ==> !IsCheck(events[i], key) {
      OnlyChecksPut(events, key, from, |events|);
      StartSnapshotsAll(stripe, schedule, tid, now, snapshot, m, n, key);
      SweepVisitsAll(stripe, schedule, tid, now, snapshot, m, n);
      var i := VisitedAt(ended.log, from, tid, key, now);
      OnlyChecksPut(events, key, i + 1, |events|);
      DropLeavesLive(events, i);
    }
  }

  /** The store at step `m` is a prefix of any later log run sequentially. */
  lemma StoreFromLaterLog(stripe: Stripes, schedule: seq<Step>, m: nat, n: nat)
    requires m <= n <= |schedule|
    ensures
      var began, ended := Exec(stripe, schedule, m), Exec(stripe, schedule, n);
      |began.log| <= |ended.log| && began.store == StoreAfter(Events(ended.log), |began.log|)
  {
    hide StoreAfter;
    hide Exec;
    hide LocksHeld;
    hide ReadsAreCurrent;
    hide CallsAreLogged;
    hide CallsAreDisjoint;
    hide SweepersAgree;
    var began, ended := Exec(stripe, schedule, m), Exec(stripe, schedule, n);
    FinishedGrows(stripe, schedule, m, n);
    InvHolds(stripe, schedule, m);
    SamePrefixSameStore(Events(began.log), Events(ended.log), |began.log|);
  }

  lemma StartSnapshotsAll(stripe: Stripes, schedule: seq<Step>, tid: nat, now: real, snapshot: seq<string>,
                          m: nat, n: nat, key: string)
    requires m < n <= |schedule| && Sweeps(stripe, schedule, tid, now, snapshot, m, n)
    requires key in Exec(stripe, schedule, m).store
    ensures key in snapshot
  {
    hide Exec;
  }

  lemma VisitedAt(log: seq<Logged>, from: nat, tid: nat, key: string, now: real) returns (i: nat)
    requires Visited(log, from, tid, key, now)
    ensures from <= i < |log| && log[i].event == Event(key, DropIfExpired(now))
  {
    i :| from <= i < |log| && log[i].tid == tid && log[i].event == Event(key, DropIfExpired(now));
  }
}
