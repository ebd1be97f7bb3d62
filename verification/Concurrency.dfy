/** Many threads on one store under striped locks, with the sweeper among them.

    A critical section is three separate steps: load the entry, write the result,
    release the lock. Nothing but the locks keeps sections apart. Clock readings are
    made before locking and may be anything. `SyncLocalBackend` has all schedules
    below; `LocalBackend` on one event loop has those where a write directly follows
    its load. */
module Concurrency {
  import opened Numbers
  import opened Models
  import opened Algorithms
  import opened LocalStore
  import opened StoreRuns
  import H = Histories
  import B = BucketHistories
  import W = WindowHistories

  /** Where a thread is in a call. `since` is the log length when the call began. */
  datatype Phase =
    | Idle
    | Waiting(key: string, op: Op, since: nat)
    | Holding(key: string, op: Op, since: nat)
    | Loaded(key: string, op: Op, since: nat, seen: Option<Entry>)
    | Written(key: string, op: Op, since: nat, at: nat, reply: Reply)
  {
    predicate InSection() {
      Holding? || Loaded? || Written?
    }
  }

  /** A sweeper works off the keys it saw when it started; a client makes one call at a time. */
  datatype Plan = Client | Sweeping(todo: seq<string>, now: real)

  datatype Thread = Thread(plan: Plan, phase: Phase)

  /** A critical section in the order of its write. */
  datatype Logged = Logged(tid: nat, event: Event, reply: Reply)

  /** A finished call: its place in the log and the log lengths around it. */
  datatype Return = Return(tid: nat, event: Event, reply: Reply, since: nat, at: nat, until: nat)

  datatype System = System(
    store: Store,
    locks: map<nat, nat>,
    cleaner: Option<nat>,
    threads: map<nat, Thread>,
    log: seq<Logged>,
    finished: seq<Return>)

  datatype Step =
    | Call(tid: nat, key: string, op: Op)
    | StartSweep(tid: nat, now: real, snapshot: seq<string>)
    | NextKey(tid: nat)
    | EndSweep(tid: nat)
    | Acquire(tid: nat)
    | Load(tid: nat)
    | Write(tid: nat)
    | Release(tid: nat)

  function ThreadOf(s: System, tid: nat): Thread {
    if tid in s.threads then s.threads[tid] else Thread(Client, Idle)
  }

  /** `hash(key) % len(locks)`; nothing is assumed about it. */
  type Stripes = string -> nat

  predicate Enabled(stripe: Stripes, s: System, step: Step) {
    var t := ThreadOf(s, step.tid);
    match step
    case Call(_, _, _) => t == Thread(Client, Idle)
    case StartSweep(_, _, snapshot) =>
      t == Thread(Client, Idle) && s.cleaner.None? && (forall k <- snapshot :: k in s.store)
        && s.store.Keys <= (set k <- snapshot)
    case NextKey(_) => t.plan.Sweeping? && t.phase.Idle? && t.plan.todo != []
    case EndSweep(_) => t.plan.Sweeping? && t.phase.Idle? && t.plan.todo == []
    case Acquire(_) => t.phase.Waiting? && stripe(t.phase.key) !in s.locks
    case Load(_) => t.phase.Holding?
    case Write(_) => t.phase.Loaded?
    case Release(_) => t.phase.Written?
  }

  function SetPhase(s: System, tid: nat, phase: Phase): System {
    s.(threads := s.threads[tid := ThreadOf(s, tid).(phase := phase)])
  }

  /** What an enabled step does. */
  function Do(stripe: Stripes, s: System, step: Step): System
    requires Enabled(stripe, s, step)
  {
    var me, t := step.tid, ThreadOf(s, step.tid);
    match step
    case Call(_, key, op) => SetPhase(s, me, Waiting(key, op, |s.log|))
    case StartSweep(_, now, snapshot) =>
      s.(cleaner := Some(me), threads := s.threads[me := Thread(Sweeping(snapshot, now), Idle)])
    case NextKey(_) =>
      var sweep := Thread(
        Sweeping(t.plan.todo[1..], t.plan.now),
        Waiting(t.plan.todo[0], DropIfExpired(t.plan.now), |s.log|));
      s.(threads := s.threads[me := sweep])
    case EndSweep(_) => s.(cleaner := None, threads := s.threads[me := Thread(Client, Idle)])
    case Acquire(_) =>
      var p := t.phase;
      SetPhase(s, me, Holding(p.key, p.op, p.since)).(locks := s.locks[stripe(p.key) := me])
    case Load(_) =>
      var p := t.phase;
      SetPhase(s, me, Loaded(p.key, p.op, p.since, Lookup(s.store, p.key)))
    case Write(_) =>
      var p := t.phase;
      var (effect, reply) := Section(p.seen, p.op);
      SetPhase(s, me, Written(p.key, p.op, p.since, |s.log|, reply)).(
        store := Affect(s.store, p.key, effect),
        log := s.log + [Logged(me, Event(p.key, p.op), reply)])
    case Release(_) =>
      var p := t.phase;
      SetPhase(s, me, Idle).(
        locks := s.locks - {stripe(p.key)},
        finished := s.finished + [Return(me, Event(p.key, p.op), p.reply, p.since, p.at, |s.log|)])
  }

  const START := System(map[], map[], None, map[], [], [])

  /** Any sequence of steps is a schedule: a step that is not enabled leaves its thread
      blocked and changes nothing. */
  function Exec(stripe: Stripes, schedule: seq<Step>, n: nat): System
    requires n <= |schedule|
  {
    if n == 0 then START
    else
      var s := Exec(stripe, schedule, n - 1);
      if Enabled(stripe, s, schedule[n - 1]) then Do(stripe, s, schedule[n - 1]) else s
  }

  function Events(log: seq<Logged>): (events: seq<Event>)
    ensures |events| == |log|
    ensures forall i :: 0 <= i < |log| ==> events[i] == log[i].event
  {
    seq(|log|, i requires 0 <= i < |log| => log[i].event)
  }

  // ----- The invariant -----

  /** Locks and sections agree, so sections of one stripe exclude each other. */
  ghost predicate LocksHeld(stripe: Stripes, s: System) {
    && (forall tid: nat :: ThreadOf(s, tid).phase.InSection() ==>
          var st := stripe(ThreadOf(s, tid).phase.key);
          st in s.locks && s.locks[st] == tid)
    && (forall st :: st in s.locks ==>
          var p := ThreadOf(s, s.locks[st]).phase;
          p.InSection() && stripe(p.key) == st)
  }

  /** What a thread has read is still what is stored. */
  ghost predicate ReadsAreCurrent(s: System) {
    forall tid: nat :: ThreadOf(s, tid).phase.Loaded? ==>
      ThreadOf(s, tid).phase.seen == Lookup(s.store, ThreadOf(s, tid).phase.key)
  }

  /** The store and every logged reply are those of the sections run one after another. */
  ghost predicate LogIsSequential(s: System) {
    var events := Events(s.log);
    && s.store == StoreAfter(events, |events|)
    && forall i :: 0 <= i < |s.log| ==> s.log[i].reply == ReplyAt(events, i)
  }

  /** `(event, reply)` of thread `tid` is entry `at` of the log, no earlier than `since`. */
  ghost predicate LoggedAt(log: seq<Logged>, tid: nat, event: Event, reply: Reply, since: nat, at: nat) {
    since <= at < |log| && log[at] == Logged(tid, event, reply)
  }

  ghost predicate CallsAreLogged(s: System) {
    && (forall tid: nat :: !ThreadOf(s, tid).phase.Idle? ==> ThreadOf(s, tid).phase.since <= |s.log|)
    && (forall tid: nat :: ThreadOf(s, tid).phase.Written? ==>
          var p := ThreadOf(s, tid).phase;
          LoggedAt(s.log, tid, Event(p.key, p.op), p.reply, p.since, p.at))
    && (forall r <- s.finished ::
          LoggedAt(s.log, r.tid, r.event, r.reply, r.since, r.at) && r.at < r.until <= |s.log|)
  }

  /** Calls of one thread follow each other. */
  ghost predicate CallsAreDisjoint(s: System) {
    && (forall i, j :: 0 <= i < j < |s.finished| && s.finished[i].tid == s.finished[j].tid
          ==> s.finished[i].until <= s.finished[j].since)
    && (forall r <- s.finished ::
          !ThreadOf(s, r.tid).phase.Idle? ==> r.until <= ThreadOf(s, r.tid).phase.since)
  }

  ghost predicate SweepersAgree(s: System) {
    forall tid: nat ::
      && (ThreadOf(s, tid).plan.Sweeping? <==> s.cleaner == Some(tid))
      && (ThreadOf(s, tid).plan.Sweeping? && !ThreadOf(s, tid).phase.Idle? ==>
            ThreadOf(s, tid).phase.op == DropIfExpired(ThreadOf(s, tid).plan.now))
  }

  ghost predicate Inv(stripe: Stripes, s: System) {
    LocksHeld(stripe, s) && ReadsAreCurrent(s) && LogIsSequential(s)
    && CallsAreLogged(s) && CallsAreDisjoint(s) && SweepersAgree(s)
  }

  lemma KeepsLocks(stripe: Stripes, s: System, step: Step)
    requires Enabled(stripe, s, step) && LocksHeld(stripe, s)
    ensures LocksHeld(stripe, Do(stripe, s, step))
  {
    hide Section;
    hide Affect;
    hide Lookup;
    var s' := Do(stripe, s, step);
    assert forall tid: nat :: tid != step.tid ==> ThreadOf(s', tid) == ThreadOf(s, tid);
  }

  /** Here the locks do their work: a write cannot touch a key another thread has read. */
  lemma KeepsReads(stripe: Stripes, s: System, step: Step)
    requires Enabled(stripe, s, step) && LocksHeld(stripe, s) && ReadsAreCurrent(s)
    ensures ReadsAreCurrent(Do(stripe, s, step))
  {
    hide Section;
    hide Affect;
    hide Lookup;
    var s', me := Do(stripe, s, step), step.tid;
    assert forall tid: nat :: tid != me ==> ThreadOf(s', tid) == ThreadOf(s, tid);
    forall tid: nat | tid != me && ThreadOf(s, tid).phase.Loaded?
      ensures Lookup(s'.store, ThreadOf(s, tid).phase.key) == Lookup(s.store, ThreadOf(s, tid).phase.key)
    {
      if step.Write? {
        var p := ThreadOf(s, me).phase;
        AffectIsLocal(s.store, p.key, Section(p.seen, p.op).0, ThreadOf(s, tid).phase.key);
      }
    }
  }

  lemma KeepsLog(stripe: Stripes, s: System, step: Step)
    requires Enabled(stripe, s, step) && ReadsAreCurrent(s) && LogIsSequential(s)
    ensures LogIsSequential(Do(stripe, s, step))
  {
    hide Section;
    hide Affect;
    hide LogIsSequential;
    hide StoreAfter;
    if step.Write? {
      var p := ThreadOf(s, step.tid).phase;
      WriteExtendsLog(s, Do(stripe, s, step), Logged(step.tid, Event(p.key, p.op), Section(p.seen, p.op).1));
    } else {
      OnlyWritesLog(s, Do(stripe, s, step));
    }
  }

  lemma OnlyWritesLog(s: System, s': System)
    requires LogIsSequential(s) && s'.store == s.store && s'.log == s.log
    ensures LogIsSequential(s')
  {
  }

  lemma WriteExtendsLog(s: System, s': System, entry: Logged)
    requires LogIsSequential(s) && s'.log == s.log + [entry]
    requires
      var (effect, reply) := Section(Lookup(s.store, entry.event.key), entry.event.op);
      entry.reply == reply && s'.store == Affect(s.store, entry.event.key, effect)
    ensures LogIsSequential(s')
  {
    hide Section;
    hide Affect;
    hide Lookup;
    hide StoreAfter;
    hide ReplyAt;
    var n, events, events' := |s.log|, Events(s.log), Events(s'.log);
    SamePrefixSameStore(events, events', n);
    LastEvent(events', n);
    forall i | 0 <= i < n
      ensures s'.log[i].reply == ReplyAt(events', i)
    {
      SamePrefixSameReply(events, events', i);
    }
  }

  lemma LastEvent(events: seq<Event>, n: nat)
    requires n < |events|
    ensures
      var e, before := events[n], StoreAfter(events, n);
      var (effect, reply) := Section(Lookup(before, e.key), e.op);
      StoreAfter(events, n + 1) == Affect(before, e.key, effect) && ReplyAt(events, n) == reply
  {
  }

  lemma SamePrefixSameReply(a: seq<Event>, b: seq<Event>, i: nat)
    requires i < |a| && i < |b|
    requires forall k :: 0 <= k <= i ==> a[k] == b[k]
    ensures ReplyAt(a, i) == ReplyAt(b, i)
  {
    SamePrefixSameStore(a, b, i);
  }

  lemma {:induction false} SamePrefixSameStore(a: seq<Event>, b: seq<Event>, n: nat)
    requires n <= |a| && n <= |b|
    requires forall i :: 0 <= i < n ==> a[i] == b[i]
    ensures StoreAfter(a, n) == StoreAfter(b, n)
  {
    hide Section;
    hide Affect;
    if n > 0 {
      SamePrefixSameStore(a, b, n - 1);
    }
  }

  lemma KeepsCalls(stripe: Stripes, s: System, step: Step)
    requires Enabled(stripe, s, step) && CallsAreLogged(s)
    ensures CallsAreLogged(Do(stripe, s, step))
  {
    hide Section;
    var s' := Do(stripe, s, step);
    assert forall tid: nat :: tid != step.tid ==> ThreadOf(s', tid) == ThreadOf(s, tid);
  }

  lemma KeepsCallsDisjoint(stripe: Stripes, s: System, step: Step)
    requires Enabled(stripe, s, step) && CallsAreLogged(s) && CallsAreDisjoint(s)
    ensures CallsAreDisjoint(Do(stripe, s, step))
  {
    hide Section;
    hide Affect;
    hide Lookup;
    var s' := Do(stripe, s, step);
    assert forall tid: nat :: tid != step.tid ==> ThreadOf(s', tid) == ThreadOf(s, tid);
  }

  lemma KeepsSweepers(stripe: Stripes, s: System, step: Step)
    requires Enabled(stripe, s, step) && SweepersAgree(s)
    ensures SweepersAgree(Do(stripe, s, step))
  {
    hide Section;
    var s' := Do(stripe, s, step);
    assert forall tid: nat :: tid != step.tid ==> ThreadOf(s', tid) == ThreadOf(s, tid);
  }

  lemma {:induction false} InvHolds(stripe: Stripes, schedule: seq<Step>, n: nat)
    requires n <= |schedule|
    ensures Inv(stripe, Exec(stripe, schedule, n))
  {
    hide LocksHeld;
    hide ReadsAreCurrent;
    hide LogIsSequential;
    hide CallsAreLogged;
    hide CallsAreDisjoint;
    hide SweepersAgree;
    hide Do;
    if n == 0 {
      StartIsFine(stripe);
    } else {
      var s, step := Exec(stripe, schedule, n - 1), schedule[n - 1];
      InvHolds(stripe, schedule, n - 1);
      if Enabled(stripe, s, step) {
        KeepsLocks(stripe, s, step);
        KeepsReads(stripe, s, step);
        KeepsLog(stripe, s, step);
        KeepsCalls(stripe, s, step);
        KeepsCallsDisjoint(stripe, s, step);
        KeepsSweepers(stripe, s, step);
      }
    }
  }

  lemma StartIsFine(stripe: Stripes)
    ensures Inv(stripe, START)
  {
  }

  // ----- Results -----

  /** Linearizability, for every schedule: each finished call took effect at one point
      of the log between its start and its end, no two at the same point, and its reply
      is the one the sections give when run one after another in log order, as is the
      store. So no update is lost and no call overtakes one that had already returned. */
  lemma Linearizable(stripe: Stripes, schedule: seq<Step>)
    ensures
      var s := Exec(stripe, schedule, |schedule|);
      var events := Events(s.log);
      && s.store == StoreAfter(events, |events|)
      && (forall r <- s.finished ::
            && r.since <= r.at < r.until <= |events|
            && events[r.at] == r.event
            && r.reply == ReplyAt(events, r.at))
      && (forall i, j :: 0 <= i < j < |s.finished| ==> s.finished[i].at != s.finished[j].at)
  {
    hide Section;
    InvHolds(stripe, schedule, |schedule|);
    var s := Exec(stripe, schedule, |schedule|);
    forall i, j | 0 <= i < j < |s.finished|
      ensures s.finished[i].at != s.finished[j].at
    {
      var a, b := s.finished[i], s.finished[j];
      assert a in s.finished && b in s.finished;
      assert s.log[a.at].tid == a.tid && s.log[b.at].tid == b.tid;
    }
  }

  /** A key leaves the store only when a reset writes, or when the entry in the store at
      that very moment is expired by the clock reading of the operation that drops it,
      however old the sweeper's key snapshot is. */
  lemma OnlyExpiredIsSwept(stripe: Stripes, schedule: seq<Step>, n: nat, key: string)
    requires n < |schedule|
    requires key in Exec(stripe, schedule, n).store && key !in Exec(stripe, schedule, n + 1).store
    ensures
      var s, step := Exec(stripe, schedule, n), schedule[n];
      var t := ThreadOf(s, step.tid);
      && step.Write? && t.phase.Loaded? && t.phase.key == key
      && (t.plan.Sweeping? ==> t.phase.op == DropIfExpired(t.plan.now))
      && (t.phase.op.Reset? || (t.phase.op.DropIfExpired? && s.store[key].expiresAt <= t.phase.op.now))
  {
    hide LogIsSequential;
    hide CallsAreLogged;
    hide CallsAreDisjoint;
    hide LocksHeld;
    hide Compute;
    InvHolds(stripe, schedule, n);
    var s, step := Exec(stripe, schedule, n), schedule[n];
    assert ThreadOf(s, step.tid).phase.Loaded? ==>
      ThreadOf(s, step.tid).phase.seen == Lookup(s.store, ThreadOf(s, step.tid).phase.key);
  }

  /** No schedule deadlocks: while any thread is busy, some busy thread can step. */
  lemma BusyMeansProgress(stripe: Stripes, schedule: seq<Step>, tid: nat) returns (step: Step)
    requires ThreadOf(Exec(stripe, schedule, |schedule|), tid) != Thread(Client, Idle)
    ensures
      var s := Exec(stripe, schedule, |schedule|);
      Enabled(stripe, s, step) && ThreadOf(s, step.tid) != Thread(Client, Idle)
  {
    hide Exec;
    hide Do;
    hide ReadsAreCurrent;
    hide LogIsSequential;
    hide CallsAreLogged;
    hide CallsAreDisjoint;
    hide SweepersAgree;
    InvHolds(stripe, schedule, |schedule|);
    var s := Exec(stripe, schedule, |schedule|);
    var t := ThreadOf(s, tid);
    var who := tid;
    if t.phase.Waiting? && stripe(t.phase.key) in s.locks {
      who := s.locks[stripe(t.phase.key)];
    }
    match ThreadOf(s, who).phase {
      case Idle => step := if t.plan.todo == [] then EndSweep(who) else NextKey(who);
      case Waiting(_, _, _) => step := Acquire(who);
      case Holding(_, _, _) => step := Load(who);
      case Loaded(_, _, _, _) => step := Write(who);
      case Written(_, _, _, _, _) => step := Release(who);
    }
  }

  /** When the clock readings of a key are in lock order, every caller gets the answer
      of the limiter that replays the key's full history. */
  lemma ConcurrentAnswersAreExact(stripe: Stripes, schedule: seq<Step>, key: string, c: SoundConfig, r: Return)
    requires
      var s := Exec(stripe, schedule, |schedule|);
      && r in s.finished && IsCheck(r.event, key)
      && OneConfig(Events(s.log), key, c) && Ordered(Events(s.log), key)
    ensures
      var events := Events(Exec(stripe, schedule, |schedule|).log);
      && r.at < |events|
      && var d := H.Answer(c, History(events, key, r.at), r.event.op.now);
         r.reply == Decided(d.allowed, d.meta)
  {
    hide Exec;
    hide OneConfig;
    hide Ordered;
    hide ReplyAt;
    hide StoreAfter;
    hide H.Answer;
    Linearizable(stripe, schedule);
    ForgettingIsInvisible(Events(Exec(stripe, schedule, |schedule|).log), key, c, r.at);
  }

  /** However many threads race, no window of one period holds more than `limit`
      admissions of a key, as long as its clock readings are in lock order. */
  lemma ConcurrentWindowLimit(stripe: Stripes, schedule: seq<Step>, key: string, c: W.WindowConfig)
    requires
      var events := Events(Exec(stripe, schedule, |schedule|).log);
      OneConfig(events, key, c) && Ordered(events, key)
    ensures
      var s := Exec(stripe, schedule, |schedule|);
      && W.WithinLimit(c, StoreAdmissions(Events(s.log), key, |s.log|))
      && forall i :: 0 <= i < |s.log| ==> s.log[i].reply == ReplyAt(Events(s.log), i)
  {
    hide Exec;
    hide OneConfig;
    hide Ordered;
    hide StoreAdmissions;
    hide W.WithinLimit;
    hide ReplyAt;
    var s := Exec(stripe, schedule, |schedule|);
    InvHolds(stripe, schedule, |schedule|);
    StoreKeepsWindowLimit(Events(s.log), key, c, |s.log|);
  }

  /** In every schedule, at any clock readings: the admissions of a bucket key since its
      last reset stay within capacity plus rate times the forward movement of the
      readings in lock order. */
  lemma ConcurrentAdmissionsAreBounded(stripe: Stripes, schedule: seq<Step>, key: string, c: B.BucketConfig)
    requires OneConfig(Events(Exec(stripe, schedule, |schedule|).log), key, c)
    ensures
      var events := Events(Exec(stripe, schedule, |schedule|).log);
      var t := TallyAt(events, key, |events|);
      t.admitted as real <= c.Capacity() as real + Regained(c, t.forward)
  {
    hide *;
    var events := Events(Exec(stripe, schedule, |schedule|).log);
    AdmissionsAreBoundedAtAnyClock(events, key, c, |events|);
  }
}
