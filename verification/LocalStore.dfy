/** The expiring in-memory store (src/rate_limit_patterns/backend/_local_shared.py) and
    the backend methods around it (backend/local.py, backend/sync.py). */
module LocalStore {
  import opened Numbers
  import opened Models
  import opened Algorithms

  datatype Entry = Entry(state: AlgorithmState, expiresAt: real)

  type Store = map<string, Entry>

  /** One critical section, run under the lock of its key. A check carries the config
      of its caller; both timed operations carry the clock reading made before locking. */
  datatype Op =
    | Check(config: Config, now: real)
    | Reset
    | DropIfExpired(now: real)

  datatype Reply =
    | Decided(allowed: bool, meta: Meta)
    | MissingField
    | Done

  /** What a critical section does to its key after reading the entry. */
  datatype Effect = Keep | Put(entry: Entry) | Remove

  function Lookup(m: Store, key: string): Option<Entry> {
    if key in m then Some(m[key]) else None
  }

  function Affect(m: Store, key: string, e: Effect): Store {
    match e
    case Keep => m
    case Put(entry) => m[key := entry]
    case Remove => m - {key}
  }

  predicate Gone(seen: Option<Entry>, now: real) {
    seen.None? || seen.value.expiresAt <= now
  }

  /** The critical section as a function of the entry it reads. Reading the entry of
      another algorithm raises KeyError and writes nothing. */
  function Section(seen: Option<Entry>, op: Op): (Effect, Reply) {
    match op
    case Check(c, now) =>
      var s := if Gone(seen, now) then InitialState(c) else seen.value.state;
      if Fits(c, s) then
        var d := Compute(s, c, now);
        (Put(Entry(d.state, now + Ttl(c))), Decided(d.allowed, d.meta))
      else (Keep, MissingField)
    case Reset => (Remove, Done)
    case DropIfExpired(now) => (if seen.Some? && seen.value.expiresAt <= now then Remove else Keep, Done)
  }

  /** `build_result` with `_to_wall_time`. */
  function ToOutcome(c: Config, reply: Reply, nowMono: real, nowWall: real): Outcome {
    match reply
    case Decided(allowed, meta) =>
      Construct(RateLimitResult(
        allowed, meta.remaining, c.limit, meta.retryAfter, nowWall + (meta.resetAt - nowMono), meta.requestCount))
    case _ => KeyError
  }

  // ----- The classes -----

  class LocalStateCore {
    var state: Store
    const timeOffset: real

    constructor (timeOffset: real)
      ensures state == map[] && this.timeOffset == timeOffset
    {
      state := map[];
      this.timeOffset := timeOffset;
    }

    /** The (monotonic, wall) pair; `monotonic` stands for `time.monotonic()`. */
    method Now(now: Option<real>, monotonic: real) returns (nowMono: real, nowWall: real)
      ensures nowWall == nowMono + timeOffset
      ensures if now.Some? then nowWall == now.value else nowMono == monotonic
    {
      if now.None? {
        nowMono := monotonic;
        nowWall := timeOffset + nowMono;
      } else {
        nowWall := now.value;
        nowMono := now.value - timeOffset;
      }
    }

    method Apply(key: string, config: Config, nowMono: real) returns (reply: Reply)
      modifies this`state
      ensures
        var (effect, out) := Section(Lookup(old(state), key), Check(config, nowMono));
        reply == out && state == Affect(old(state), key, effect)
    {
      var s: AlgorithmState;
      if key !in state || state[key].expiresAt <= nowMono {
        s := InitialState(config);
      } else {
        s := state[key].state;
      }
      if !Fits(config, s) {
        return MissingField;
      }
      var d := Compute(s, config, nowMono);
      var expiresAt := nowMono + Ttl(config);
      state := state[key := Entry(d.state, expiresAt)];
      return Decided(d.allowed, d.meta);
    }

    method Reset(key: string)
      modifies this`state
      ensures key !in state
      ensures forall k :: k != key ==> Lookup(state, k) == Lookup(old(state), k)
      ensures state == Affect(old(state), key, Section(Lookup(old(state), key), Op.Reset).0)
    {
      state := state - {key};
    }

    /** The live state of a key, or None; an expired entry is evicted on the way. */
    method MetricsSnapshot(key: string, nowMono: real) returns (live: Option<AlgorithmState>)
      modifies this`state
      ensures state == Affect(old(state), key, Section(Lookup(old(state), key), Op.DropIfExpired(nowMono)).0)
      ensures live.Some? <==> key in state
      ensures live.Some? ==> old(state)[key].expiresAt > nowMono && live.value == old(state)[key].state
    {
      if key !in state || state[key].expiresAt <= nowMono {
        state := state - {key};
        return None;
      }
      return Some(state[key].state);
    }

    method SnapshotKeys() returns (keys: seq<string>)
      ensures forall k :: k in keys <==> k in state
    {
      keys := [];
      var rest := state.Keys;
      while rest != {}
        invariant rest <= state.Keys
        invariant forall k :: k in keys <==> k in state && k !in rest
        decreases |rest|
      {
        var k :| k in rest;
        keys := keys + [k];
        rest := rest - {k};
      }
    }

    method DropIfExpired(key: string, nowMono: real)
      modifies this`state
      ensures state == Affect(old(state), key, Section(Lookup(old(state), key), Op.DropIfExpired(nowMono)).0)
    {
      if key in state && state[key].expiresAt <= nowMono {
        state := state - {key};
      }
    }
  }

  /** `LocalBackend` and `SyncLocalBackend`, one call at a time. How calls of many
      threads interleave is the subject of module Concurrency. */
  class Backend {
    const core: LocalStateCore

    constructor (timeOffset: real)
      ensures fresh(core) && core.state == map[] && core.timeOffset == timeOffset
    {
      core := new LocalStateCore(timeOffset);
    }

    method CheckAndIncrement(key: string, config: Config, now: Option<real>, monotonic: real)
      returns (outcome: Outcome)
      modifies core`state
      ensures
        var wall := if now.Some? then now.value else core.timeOffset + monotonic;
        var mono := wall - core.timeOffset;
        var (effect, reply) := Section(Lookup(old(core.state), key), Check(config, mono));
        outcome == ToOutcome(config, reply, mono, wall) && core.state == Affect(old(core.state), key, effect)
    {
      var nowMono, nowWall := core.Now(now, monotonic);
      var reply := core.Apply(key, config, nowMono);
      outcome := ToOutcome(config, reply, nowMono, nowWall);
    }

    method Reset(key: string)
      modifies core`state
      ensures core.state == old(core.state) - {key}
    {
      core.Reset(key);
    }

    /** After a sweep at `nowMono` exactly the entries with a later expiry remain. */
    method CleanupExpired(nowMono: real)
      modifies core`state
      ensures core.state == map k | k in old(core.state) && old(core.state)[k].expiresAt > nowMono :: old(core.state)[k]
    {
      var keys := core.SnapshotKeys();
      var i := 0;
      while i < |keys|
        invariant i <= |keys|
        invariant forall k :: k in core.state ==> k in old(core.state) && core.state[k] == old(core.state)[k]
        invariant forall k :: k in old(core.state) && old(core.state)[k].expiresAt > nowMono ==> k in core.state
        invariant forall k :: k in keys[..i] && k in core.state ==> core.state[k].expiresAt > nowMono
      {
        core.DropIfExpired(keys[i], nowMono);
        i := i + 1;
      }
    }
  }

  // ----- Sequences of critical sections -----

  datatype Event = Event(key: string, op: Op)

  function StoreAfter(events: seq<Event>, n: nat): Store
    requires n <= |events|
  {
    if n == 0 then map[]
    else
      var before, e := StoreAfter(events, n - 1), events[n - 1];
      Affect(before, e.key, Section(Lookup(before, e.key), e.op).0)
  }

  function ReplyAt(events: seq<Event>, j: nat): Reply
    requires j < |events|
  {
    Section(Lookup(StoreAfter(events, j), events[j].key), events[j].op).1
  }
}
