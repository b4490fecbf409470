/** The in-process Redis stand-in: keys with optional deadlines that are purged only when read. */
module RedisStore {
  import opened Wrappers

  datatype ValueEntry = ValueEntry(value: string, expiresAt: Option<real>)

  type Kv = map<string, ValueEntry>

  predicate Expired(entry: ValueEntry, now: real) {
    entry.expiresAt.Some? && now >= entry.expiresAt.value
  }

  function Purge(kv: Kv, key: string, now: real): Kv {
    if key in kv && Expired(kv[key], now) then kv - {key} else kv
  }

  function Lookup(kv: Kv, key: string): Option<string> {
    if key in kv then Some(kv[key].value) else None
  }

  datatype Op =
    | Set(key: string, value: string)
    | Get(key: string)
    | Del(key: string)
    | Expire(key: string, ttlSeconds: int)

  datatype Timed = Timed(op: Op, at: real)

  /** The store after an operation at time `now`. */
  function Step(kv: Kv, op: Op, now: real): Kv {
    match op
    case Set(key, value) => kv[key := ValueEntry(value, None)]
    case Get(key) => Purge(kv, key, now)
    case Del(key) => kv - {key}
    case Expire(key, ttl) =>
      if key in kv then kv[key := kv[key].(expiresAt := Some(now + ttl as real))] else kv
  }

  function GetAnswer(kv: Kv, key: string, now: real): Option<string> {
    Lookup(Purge(kv, key, now), key)
  }

  class RedisClient {
    var kv: Kv

    constructor ()
      ensures kv == map[]
    {
      kv := map[];
    }

    method PurgeExpired(key: string, now: real)
      modifies this
      ensures kv == Purge(old(kv), key, now)
    {
      if key !in kv || kv[key].expiresAt.None? {
        return;
      }
      if now >= kv[key].expiresAt.value {
        kv := kv - {key};
      }
    }

    method Set(key: string, value: string) returns (done: bool)
      modifies this
      ensures done && kv == Step(old(kv), Op.Set(key, value), 0.0)
    {
      kv := kv[key := ValueEntry(value, None)];
      return true;
    }

    method Get(key: string, now: real) returns (found: Option<string>)
      modifies this
      ensures found == GetAnswer(old(kv), key, now)
      ensures kv == Step(old(kv), Op.Get(key), now)
    {
      PurgeExpired(key, now);
      if key in kv {
        return Some(kv[key].value);
      }
      return None;
    }

    method Del(key: string) returns (erased: bool)
      modifies this
      ensures erased <==> key in old(kv)
      ensures kv == Step(old(kv), Op.Del(key), 0.0)
    {
      erased := key in kv;
      kv := kv - {key};
    }

    method Expire(key: string, ttlSeconds: int, now: real) returns (known: bool)
      modifies this
      ensures known <==> key in old(kv)
      ensures kv == Step(old(kv), Op.Expire(key, ttlSeconds), now)
    {
      if key in kv {
        kv := kv[key := kv[key].(expiresAt := Some(now + ttlSeconds as real))];
        return true;
      }
      return false;
    }
  }

  /** What can happen to the store from outside: keys vanish, deadlines change. */
  predicate Shrinks(before: Kv, after: Kv) {
    forall k | k in after :: k in before && after[k].value == before[k].value
  }

  // -------------------------------------------------------------------------------------------
  // The eager store it is meant to look like
  // -------------------------------------------------------------------------------------------

  /** Everything past its deadline dropped at once. */
  function Live(kv: Kv, now: real): Kv {
    map key | key in kv && !Expired(kv[key], now) :: kv[key]
  }

  /** A store that expires eagerly: drop what is due, apply the operation, drop what it made due. */
  function EagerStep(kv: Kv, op: Op, now: real): Kv {
    var live := Live(kv, now);
    var next :=
      match op
      case Set(key, value) => live[key := ValueEntry(value, None)]
      case Get(_) => live
      case Del(key) => live - {key}
      case Expire(key, ttl) =>
        if key in live then live[key := ValueEntry(live[key].value, Some(now + ttl as real))] else live;
    Live(next, now)
  }

  /** An Expire that gives a key past its deadline, but not yet purged, a new lease. */
  predicate Resurrects(kv: Kv, op: Op, now: real) {
    op.Expire? && op.key in kv && Expired(kv[op.key], now) && op.ttlSeconds > 0
  }

  lemma LiveLater(kv: Kv, now: real, later: real)
    requires now <= later
    ensures Live(Live(kv, now), later) == Live(kv, later)
  {
  }

  lemma GetSeesLive(kv: Kv, key: string, now: real)
    ensures GetAnswer(kv, key, now) == Lookup(Live(kv, now), key)
  {
  }

  /** One operation keeps the lazy store equal to the eager one exactly when it resurrects nothing. */
  lemma StepAgrees(kv: Kv, op: Op, now: real)
    ensures Live(Step(kv, op, now), now) == EagerStep(Live(kv, now), op, now) <==> !Resurrects(kv, op, now)
  {
    var lazy, eager := Live(Step(kv, op, now), now), EagerStep(Live(kv, now), op, now);
    LiveLater(kv, now, now);
    if Resurrects(kv, op, now) {
      assert op.key in lazy && op.key !in eager;
    } else {
      assert lazy.Keys == eager.Keys;
      assert forall key | key in lazy :: lazy[key] == eager[key];
    }
  }

  function LazyAfter(trace: seq<Timed>, n: nat): Kv
    requires n <= |trace|
  {
    if n == 0 then map[] else Step(LazyAfter(trace, n - 1), trace[n - 1].op, trace[n - 1].at)
  }

  function EagerAfter(trace: seq<Timed>, n: nat): Kv
    requires n <= |trace|
  {
    if n == 0 then map[] else EagerStep(EagerAfter(trace, n - 1), trace[n - 1].op, trace[n - 1].at)
  }

  ghost predicate Steady(trace: seq<Timed>) {
    forall j, k | 0 <= j <= k < |trace| :: trace[j].at <= trace[k].at
  }

  ghost predicate NothingResurrected(trace: seq<Timed>, n: nat)
    requires n <= |trace|
  {
    forall k: nat | k < n :: !Resurrects(LazyAfter(trace, k), trace[k].op, trace[k].at)
  }

  lemma {:induction false} LazyLooksEager(trace: seq<Timed>, n: nat, now: real)
    requires n <= |trace| && Steady(trace) && NothingResurrected(trace, n)
    requires forall k | 0 <= k < n :: trace[k].at <= now
    ensures Live(LazyAfter(trace, n), now) == Live(EagerAfter(trace, n), now)
  {
    if n > 0 {
      var before, step := LazyAfter(trace, n - 1), trace[n - 1];
      LazyLooksEager(trace, n - 1, step.at);
      StepAgrees(before, step.op, step.at);
      EagerDropsFirst(EagerAfter(trace, n - 1), step.op, step.at);
      LiveLater(LazyAfter(trace, n), step.at, now);
      LiveLater(EagerAfter(trace, n), step.at, now);
      EagerIsLive(EagerAfter(trace, n - 1), step.op, step.at);
    }
  }

  lemma EagerDropsFirst(kv: Kv, op: Op, now: real)
    ensures EagerStep(Live(kv, now), op, now) == EagerStep(kv, op, now)
  {
    LiveLater(kv, now, now);
  }

  lemma EagerIsLive(kv: Kv, op: Op, now: real)
    ensures Live(EagerStep(kv, op, now), now) == EagerStep(kv, op, now)
  {
  }

  /** A Get of the key, issued at the time of operation `n - 1` and right after it, is answered alike. */
  ghost predicate GetAgrees(trace: seq<Timed>, n: nat, key: string)
    requires 0 < n <= |trace|
  {
    GetAnswer(LazyAfter(trace, n), key, trace[n - 1].at) == Lookup(Live(EagerAfter(trace, n), trace[n - 1].at), key)
  }

  ghost predicate EveryGetAgrees(trace: seq<Timed>) {
    forall n: nat, key: string | 0 < n <= |trace| :: GetAgrees(trace, n, key)
  }

  lemma {:induction false} FirstResurrection(trace: seq<Timed>, n: nat) returns (first: nat)
    requires n <= |trace| && !NothingResurrected(trace, n)
    ensures first < n && NothingResurrected(trace, first)
    ensures Resurrects(LazyAfter(trace, first), trace[first].op, trace[first].at)
  {
    hide Resurrects, LazyAfter;
    if NothingResurrected(trace, n - 1) {
      first := n - 1;
    } else {
      first := FirstResurrection(trace, n - 1);
    }
  }

  // -------------------------------------------------------------------------------------------
  // The Gets a run issues
  // -------------------------------------------------------------------------------------------

  /** Since the last Set or Del of the key some Expire gave it a new lease past its deadline. */
  predicate Renewed(trace: seq<Timed>, n: nat, key: string)
    requires n <= |trace|
  {
    n > 0 &&
    match trace[n - 1].op
    case Set(k, _) => k != key && Renewed(trace, n - 1, key)
    case Del(k) => k != key && Renewed(trace, n - 1, key)
    case Expire(k, _) =>
      Renewed(trace, n - 1, key) || (k == key && Resurrects(LazyAfter(trace, n - 1), trace[n - 1].op, trace[n - 1].at))
    case Get(_) => Renewed(trace, n - 1, key)
  }

  function EntryOf(kv: Kv, key: string, now: real): Option<ValueEntry> {
    if key in kv && !Expired(kv[key], now) then Some(kv[key]) else None
  }

  lemma EagerEntry(kv: Kv, op: Op, at: real, key: string, now: real)
    requires at <= now
    ensures EntryOf(EagerStep(kv, op, at), key, now) ==
      match op
      case Set(k, value) => if k == key then Some(ValueEntry(value, None)) else EntryOf(kv, key, now)
      case Get(_) => EntryOf(kv, key, now)
      case Del(k) => if k == key then None else EntryOf(kv, key, now)
      case Expire(k, ttl) =>
        if k != key || EntryOf(kv, key, at).None? then EntryOf(kv, key, now)
        else if now >= at + ttl as real then None
        else Some(ValueEntry(kv[key].value, Some(at + ttl as real)))
  {
  }

  lemma LazyEntry(kv: Kv, op: Op, at: real, key: string, now: real)
    requires at <= now
    ensures EntryOf(Step(kv, op, at), key, now) ==
      match op
      case Set(k, value) => if k == key then Some(ValueEntry(value, None)) else EntryOf(kv, key, now)
      case Get(_) => EntryOf(kv, key, now)
      case Del(k) => if k == key then None else EntryOf(kv, key, now)
      case Expire(k, ttl) =>
        if k != key || key !in kv then EntryOf(kv, key, now)
        else if now >= at + ttl as real then None
        else Some(ValueEntry(kv[key].value, Some(at + ttl as real)))
  {
  }

  lemma {:induction false} KeyAgrees(trace: seq<Timed>, n: nat, key: string, now: real)
    requires n <= |trace| && Steady(trace) && forall k | 0 <= k < n :: trace[k].at <= now
    ensures EntryOf(EagerAfter(trace, n), key, now)
         == if Renewed(trace, n, key) then None else EntryOf(LazyAfter(trace, n), key, now)
  {
    hide Step, EagerStep;
    if n > 0 {
      var lazy, eager, step := LazyAfter(trace, n - 1), EagerAfter(trace, n - 1), trace[n - 1];
      KeyAgrees(trace, n - 1, key, step.at);
      KeyAgrees(trace, n - 1, key, now);
      LazyEntry(lazy, step.op, step.at, key, now);
      EagerEntry(eager, step.op, step.at, key, now);
    }
  }

  /** A Get of the run is answered as by the eager store exactly when its key was not renewed past its
    * deadline since it was last written, or is absent, or its present lease has ended. */
  lemma GetAgreesExactly(trace: seq<Timed>, n: nat)
    requires Steady(trace) && n < |trace| && trace[n].op.Get?
    ensures
      var key, now := trace[n].op.key, trace[n].at;
      var kv := LazyAfter(trace, n);
      GetAnswer(kv, key, now) == Lookup(Live(EagerAfter(trace, n), now), key) <==>
        !Renewed(trace, n, key) || key !in kv || Expired(kv[key], now)
  {
    KeyAgrees(trace, n, trace[n].op.key, trace[n].at);
    GetSeesLive(LazyAfter(trace, n), trace[n].op.key, trace[n].at);
  }

  /** Over a steady clock the lazily purged store would answer a Get of any key, issued right after any
    * operation, like the eager one exactly when no Expire reached a key past its deadline with a positive
    * lease. */
  lemma LazyIsEagerExactly(trace: seq<Timed>)
    requires Steady(trace)
    ensures EveryGetAgrees(trace) <==> NothingResurrected(trace, |trace|)
  {
    if NothingResurrected(trace, |trace|) {
      forall n: nat, key: string | 0 < n <= |trace|
        ensures GetAgrees(trace, n, key)
      {
        LazyLooksEager(trace, n, trace[n - 1].at);
        GetSeesLive(LazyAfter(trace, n), key, trace[n - 1].at);
      }
    } else {
      var k := FirstResurrection(trace, |trace|);
      var before, step := LazyAfter(trace, k), trace[k];
      LazyLooksEager(trace, k, step.at);
      EagerDropsFirst(EagerAfter(trace, k), step.op, step.at);
      EagerIsLive(EagerAfter(trace, k), step.op, step.at);
      assert step.op.key !in Live(EagerAfter(trace, k), step.at);
      assert step.op.key !in EagerAfter(trace, k + 1);
      assert GetAnswer(LazyAfter(trace, k + 1), step.op.key, step.at) == Some(before[step.op.key].value);
      assert !GetAgrees(trace, k + 1, step.op.key);
    }
  }

  // -------------------------------------------------------------------------------------------
  // What the history of one key says
  // -------------------------------------------------------------------------------------------

  /** From operation `from` up to `n` nothing but Gets touches the key. */
  ghost predicate OnlyRead(trace: seq<Timed>, from: nat, n: nat, key: string)
    requires n <= |trace|
  {
    forall k | from <= k < n :: trace[k].op.key == key ==> trace[k].op.Get?
  }

  /** A value set and since then only read is what a Get returns, at whatever times. */
  lemma {:induction false} SetStays(trace: seq<Timed>, j: nat, n: nat, key: string, value: string, now: real)
    requires j < n <= |trace| && trace[j].op == Set(key, value) && OnlyRead(trace, j + 1, n, key)
    ensures key in LazyAfter(trace, n) && LazyAfter(trace, n)[key] == ValueEntry(value, None)
    ensures GetAnswer(LazyAfter(trace, n), key, now) == Some(value)
  {
    if j < n - 1 {
      SetStays(trace, j, n - 1, key, value, now);
    }
  }

  lemma {:induction false} LeaseRuns(
      trace: seq<Timed>, k: nat, n: nat, key: string, value: string, deadline: real, now: real)
    requires k <= n <= |trace| && OnlyRead(trace, k, n, key)
    requires key in LazyAfter(trace, k) && LazyAfter(trace, k)[key] == ValueEntry(value, Some(deadline))
    requires forall i | k <= i < n :: trace[i].at <= now
    ensures
      var kv := LazyAfter(trace, n);
      if key in kv then kv[key] == ValueEntry(value, Some(deadline)) else now >= deadline
  {
    if k < n {
      LeaseRuns(trace, k, n - 1, key, value, deadline, now);
    }
  }

  /** With a lease given to a set value, a Get returns the value exactly as long as less than the lease
    * has passed since, whatever was read in between. */
  lemma LeaseEndsExactly(
      trace: seq<Timed>, j: nat, k: nat, n: nat, key: string, value: string, ttl: int, now: real)
    requires j < k < n <= |trace|
    requires trace[j].op == Set(key, value) && OnlyRead(trace, j + 1, k, key)
    requires trace[k].op == Expire(key, ttl) && OnlyRead(trace, k + 1, n, key)
    requires forall i | k < i < n :: trace[i].at <= now
    ensures GetAnswer(LazyAfter(trace, n), key, now)
         == if now < trace[k].at + ttl as real then Some(value) else None
  {
    SetStays(trace, j, k, key, value, now);
    LeaseRuns(trace, k + 1, n, key, value, trace[k].at + ttl as real, now);
  }

  /** A key that a Get missed stays unknown until it is set again: no later Expire finds it, so none can
    * bring its value back, and every later Get misses it too. */
  lemma {:induction false} MissedKeyIsGone(trace: seq<Timed>, j: nat, n: nat, key: string)
    requires j < n <= |trace| && trace[j].op == Get(key)
    requires GetAnswer(LazyAfter(trace, j), key, trace[j].at) == None
    requires forall k | j < k < n :: trace[k].op.key == key ==> !trace[k].op.Set?
    ensures key !in LazyAfter(trace, n)
    ensures forall ttl, now :: Step(LazyAfter(trace, n), Expire(key, ttl), now) == LazyAfter(trace, n)
    ensures forall now :: GetAnswer(LazyAfter(trace, n), key, now) == None
  {
    if j < n - 1 {
      MissedKeyIsGone(trace, j, n - 1, key);
    }
  }

  /** So does a deleted one. */
  lemma {:induction false} DeletedKeyIsGone(trace: seq<Timed>, j: nat, n: nat, key: string)
    requires j < n <= |trace| && trace[j].op == Del(key)
    requires forall k | j < k < n :: trace[k].op.key == key ==> !trace[k].op.Set?
    ensures key !in LazyAfter(trace, n)
  {
    if j < n - 1 {
      DeletedKeyIsGone(trace, j, n - 1, key);
    }
  }
}
