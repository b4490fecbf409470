/** Runs of the configuration service whose publishes and finds do not overlap, with the cache losing
  * keys or getting deadlines at any moment between them, over backends that were empty at the start. */
module ConfigRuns {
  import opened Wrappers
  import opened ConfigKeys
  import opened ConfigService
  import opened MysqlPool
  import RS = RedisStore
  import Decimal

  datatype Backends = Backends(mysql: bool, redis: bool)

  function Fresh(backends: Backends): Store {
    Store(map[], 1, if backends.mysql then Some(map[]) else None, if backends.redis then Some(map[]) else None)
  }

  /** `Disturb` is everything that happens to the cache from outside: keys vanish, deadlines change. */
  datatype Op =
    | Publish(entry: ConfigEntry)
    | Find(asked: Address)
    | Disturb(kv: RS.Kv)

  datatype Timed = Timed(op: Op, at: real)

  predicate Enabled(s: Store, op: Op) {
    op.Disturb? ==> s.redis.Some? && RS.Shrinks(s.redis.value, op.kv)
  }

  function Step(codec: Codec, s: Store, timed: Timed): Store {
    match timed.op
    case Publish(e) => PublishStep(codec, s, e).0
    case Find(asked) => FindStep(codec, s, asked, timed.at).0
    case Disturb(kv) => s.(redis := Some(kv))
  }

  function After(codec: Codec, backends: Backends, trace: seq<Timed>, n: nat): Store
    requires n <= |trace|
  {
    if n == 0 then Fresh(backends) else Step(codec, After(codec, backends, trace, n - 1), trace[n - 1])
  }

  ghost predicate IsRun(codec: Codec, backends: Backends, trace: seq<Timed>) {
    forall n: nat | n < |trace| :: Enabled(After(codec, backends, trace, n), trace[n].op)
  }

  /** The plain map the service is meant to be: the last entry published at every address. */
  datatype Spec = Spec(published: map<Address, ConfigEntry>, nextVersion: int)

  function SpecStep(spec: Spec, op: Op): Spec {
    if op.Publish? && op.entry.ns != "" && op.entry.key != "" then
      var stamped := op.entry.(env := if op.entry.env == "" then "dev" else op.entry.env, version := spec.nextVersion);
      Spec(spec.published[AddressOf(stamped) := stamped], FetchAdd(spec.nextVersion))
    else spec
  }

  function SpecAfter(trace: seq<Timed>, n: nat): Spec
    requires n <= |trace|
  {
    if n == 0 then Spec(map[], 1) else SpecStep(SpecAfter(trace, n - 1), trace[n - 1].op)
  }

  // -------------------------------------------------------------------------------------------
  // What every tier holds, whatever the addresses
  // -------------------------------------------------------------------------------------------

  ghost predicate IsLatest(published: map<Address, ConfigEntry>, e: ConfigEntry) {
    AddressOf(e) in published && published[AddressOf(e)] == e
  }

  ghost predicate WellFiled(published: map<Address, ConfigEntry>) {
    forall a | a in published ::
      && AddressOf(published[a]) == a && Publishable(a) && a.env != ""
      && Decimal.FitsInt64(published[a].version)
  }

  ghost predicate LocalKnown(entries: map<string, ConfigEntry>, published: map<Address, ConfigEntry>) {
    && (forall k | k in entries :: IsLatest(published, entries[k]) && k == StoreKey(AddressOf(entries[k])))
    && (forall a | a in published :: StoreKey(a) in entries)
  }

  ghost predicate RowIsLatest(published: map<Address, ConfigEntry>, row: QueryRow) {
    && FromMysqlRow(row).Some?
    && IsLatest(published, FromMysqlRow(row).value)
    && row == ToMysqlRow(FromMysqlRow(row).value)
  }

  ghost predicate TableKnown(table: Table, published: map<Address, ConfigEntry>) {
    && Keyed(table, KEY_FIELDS)
    && forall k | k in table :: RowIsLatest(published, table[k])
  }

  ghost predicate PayloadIsLatest(codec: Codec, published: map<Address, ConfigEntry>, k: string, payload: string) {
    && codec.parse(payload).Parsed?
    && IsLatest(published, codec.parse(payload).value)
    && k == CacheKey(AddressOf(codec.parse(payload).value))
  }

  ghost predicate CacheKnown(codec: Codec, kv: RS.Kv, published: map<Address, ConfigEntry>) {
    forall k | k in kv :: PayloadIsLatest(codec, published, k, kv[k].value)
  }

  /** Every tier holds latest entries only, each under its own key, and the local map lacks none. */
  ghost predicate Known(codec: Codec, s: Store, spec: Spec) {
    && s.nextVersion == spec.nextVersion && Decimal.FitsInt64(spec.nextVersion)
    && WellFiled(spec.published)
    && LocalKnown(s.entries, spec.published)
    && (s.mysql.Some? ==> TableKnown(s.mysql.value, spec.published))
    && (s.redis.Some? ==> CacheKnown(codec, s.redis.value, spec.published))
  }

  lemma RowMatchesItsAddress(e: ConfigEntry)
    ensures CompositeKey(ToMysqlRow(e), KEY_FIELDS) == CompositeKey(Filters(AddressOf(e)), KEY_FIELDS)
    ensures forall a: Address :: Matches(ToMysqlRow(e), Filters(a)) <==> a == AddressOf(e)
  {
    MatchingRowsShareTheKey("", ToMysqlRow(e), Filters(AddressOf(e)), KEY_FIELDS);
    forall a: Address | Matches(ToMysqlRow(e), Filters(a))
      ensures a == AddressOf(e)
    {
      assert "namespace_name" in Filters(a) && "key" in Filters(a) && "environment" in Filters(a);
    }
  }

  lemma PublishKeepsTable(table: Table, published: map<Address, ConfigEntry>, e: ConfigEntry)
    requires TableKnown(table, published) && Decimal.FitsInt64(e.version)
    ensures TableKnown(Upserted(table, ToMysqlRow(e), KEY_FIELDS), published[AddressOf(e) := e])
  {
    var next, later := Upserted(table, ToMysqlRow(e), KEY_FIELDS), published[AddressOf(e) := e];
    RowRoundTrip(e);
    RowMatchesItsAddress(e);
    forall k | k in next
      ensures RowIsLatest(later, next[k]) && CompositeKey(next[k], KEY_FIELDS) == k
    {
      if k != CompositeKey(ToMysqlRow(e), KEY_FIELDS) {
        RowMatchesItsAddress(FromMysqlRow(table[k]).value);
      }
    }
  }

  lemma FilingKeepsLocal(entries: map<string, ConfigEntry>, published: map<Address, ConfigEntry>, e: ConfigEntry)
    requires LocalKnown(entries, published)
    ensures LocalKnown(entries[StoreKey(AddressOf(e)) := e], published[AddressOf(e) := e])
  {
    hide StoreKey;
  }

  lemma FilingKeepsCache(codec: Codec, kv: RS.Kv, published: map<Address, ConfigEntry>, e: ConfigEntry)
    requires codec.Faithful() && CacheKnown(codec, kv, published)
    ensures
      var next := RS.Step(kv, RS.Set(CacheKey(AddressOf(e)), codec.print_(e)), 0.0);
      CacheKnown(codec, next, published[AddressOf(e) := e])
  {
    hide CacheKey;
    assert codec.parse(codec.print_(e)) == Parsed(e);
  }

  lemma PublishKeepsKnown(codec: Codec, s: Store, spec: Spec, e: ConfigEntry)
    requires codec.Faithful() && Known(codec, s, spec)
    ensures Known(codec, PublishStep(codec, s, e).0, SpecStep(spec, Publish(e)))
  {
    hide StoreKey, CacheKey, LocalKnown, TableKnown, CacheKnown, ToMysqlRow, RS.Step;
    if Publishable(AddressOf(e)) {
      var stamped := Stamped(s, e);
      FilingKeepsLocal(s.entries, spec.published, stamped);
      if s.mysql.Some? {
        PublishKeepsTable(s.mysql.value, spec.published, stamped);
      }
      if s.redis.Some? {
        FilingKeepsCache(codec, s.redis.value, spec.published, stamped);
      }
    }
  }

  /** The row found for an address is its latest entry. */
  lemma StoredIsLatest(codec: Codec, s: Store, spec: Spec, a: Address)
    requires Known(codec, s, spec) && Stored(s, a).Some?
    ensures
      var e := FromMysqlRow(Stored(s, a).value);
      e.Some? && AddressOf(e.value) == a && IsLatest(spec.published, e.value)
  {
    var row := Stored(s, a).value;
    assert RowIsLatest(spec.published, row);
    RowMatchesItsAddress(FromMysqlRow(row).value);
  }

  lemma ReadingKeepsCache(codec: Codec, kv: RS.Kv, published: map<Address, ConfigEntry>, key: string, now: real)
    requires CacheKnown(codec, kv, published)
    ensures CacheKnown(codec, RS.Step(kv, RS.Get(key), now), published)
  {
    hide CacheKey;
  }

  lemma FindKeepsKnown(codec: Codec, s: Store, spec: Spec, asked: Address, now: real)
    requires codec.Faithful() && Known(codec, s, spec)
    ensures Known(codec, FindStep(codec, s, asked, now).0, spec)
  {
    hide StoreKey, CacheKey, LocalKnown, TableKnown, CacheKnown, FromMysqlRow, RS.Step;
    var a := Normal(asked);
    if s.redis.Some? {
      ReadingKeepsCache(codec, s.redis.value, spec.published, CacheKey(a), now);
    }
    if Stored(s, a).Some? {
      StoredIsLatest(codec, s, spec, a);
      var e := FromMysqlRow(Stored(s, a).value).value;
      assert spec.published[a := e] == spec.published;
      FilingKeepsLocal(s.entries, spec.published, e);
      if s.redis.Some? {
        FilingKeepsCache(codec, RS.Step(s.redis.value, RS.Get(CacheKey(a)), now), spec.published, e);
      }
    }
  }

  lemma DisturbKeepsCache(codec: Codec, before: RS.Kv, after: RS.Kv, published: map<Address, ConfigEntry>)
    requires CacheKnown(codec, before, published) && RS.Shrinks(before, after)
    ensures CacheKnown(codec, after, published)
  {
    hide CacheKey;
  }

  lemma StepKeepsKnown(codec: Codec, s: Store, spec: Spec, timed: Timed)
    requires codec.Faithful() && Known(codec, s, spec) && Enabled(s, timed.op)
    ensures Known(codec, Step(codec, s, timed), SpecStep(spec, timed.op))
    ensures Step(codec, s, timed).mysql.Some? == s.mysql.Some? && Step(codec, s, timed).redis.Some? == s.redis.Some?
  {
    hide StoreKey, CacheKey, LocalKnown, TableKnown, CacheKnown;
    match timed.op
    case Publish(e) => PublishKeepsKnown(codec, s, spec, e);
    case Find(asked) => FindKeepsKnown(codec, s, spec, asked, timed.at);
    case Disturb(kv) => DisturbKeepsCache(codec, s.redis.value, kv, spec.published);
  }

  lemma {:induction false} RunKeepsKnown(codec: Codec, backends: Backends, trace: seq<Timed>, n: nat)
    requires codec.Faithful() && IsRun(codec, backends, trace) && n <= |trace|
    ensures Known(codec, After(codec, backends, trace, n), SpecAfter(trace, n))
    ensures After(codec, backends, trace, n).mysql.Some? == backends.mysql
    ensures After(codec, backends, trace, n).redis.Some? == backends.redis
  {
    hide Step, SpecStep;
    if n > 0 {
      RunKeepsKnown(codec, backends, trace, n - 1);
      StepKeepsKnown(codec, After(codec, backends, trace, n - 1), SpecAfter(trace, n - 1), trace[n - 1]);
    }
  }

  // -------------------------------------------------------------------------------------------
  // Finding
  // -------------------------------------------------------------------------------------------

  /** A find never throws, misses only what was never published, and what it returns is the latest
    * entry of an address that shares a key with the one asked for. */
  lemma FindReturnsALatestEntry(codec: Codec, s: Store, spec: Spec, asked: Address, now: real)
    requires codec.Faithful() && Known(codec, s, spec)
    ensures
      var a := Normal(asked);
      match FindStep(codec, s, asked, now).1
      case Threw => false
      case Missing => a !in spec.published
      case Entry(e) =>
        && IsLatest(spec.published, e)
        && (StoreKey(AddressOf(e)) == StoreKey(a) || (s.redis.Some? && CacheKey(AddressOf(e)) == CacheKey(a)))
  {
    hide StoreKey, CacheKey, Keyed;
    if Stored(s, Normal(asked)).Some? {
      StoredIsLatest(codec, s, spec, Normal(asked));
    }
  }

  /** No two addresses of the set share a key that the configured tiers use, unless neither can be published. */
  ghost predicate Separate(backends: Backends, addresses: iset<Address>) {
    forall a, b | a in addresses && b in addresses && a != b && Publishable(b) ::
      StoreKey(a) != StoreKey(b) && (backends.redis ==> CacheKey(a) != CacheKey(b))
  }

  ghost predicate Over(addresses: iset<Address>, trace: seq<Timed>) {
    forall n | 0 <= n < |trace| ::
      match trace[n].op
      case Publish(e) => Publishable(AddressOf(e)) ==> Normal(AddressOf(e)) in addresses
      case Find(asked) => Normal(asked) in addresses
      case Disturb(_) => true
  }

  lemma {:induction false} PublishedStaysOver(addresses: iset<Address>, trace: seq<Timed>, n: nat)
    requires Over(addresses, trace) && n <= |trace|
    ensures forall a | a in SpecAfter(trace, n).published :: a in addresses
  {
    if n > 0 {
      PublishedStaysOver(addresses, trace, n - 1);
    }
  }

  function SpecAnswer(spec: Spec, asked: Address): Found {
    var a := asked.(env := if asked.env == "" then "dev" else asked.env);
    if a in spec.published then Entry(spec.published[a]) else Missing
  }

  ghost predicate ReadsLikeAMap(codec: Codec, backends: Backends, trace: seq<Timed>) {
    forall n: nat | n < |trace| && trace[n].op.Find? ::
      FindStep(codec, After(codec, backends, trace, n), trace[n].op.asked, trace[n].at).1
        == SpecAnswer(SpecAfter(trace, n), trace[n].op.asked)
  }

  lemma SeparateReadsLikeAMap(codec: Codec, backends: Backends, addresses: iset<Address>, trace: seq<Timed>)
    requires codec.Faithful() && Separate(backends, addresses)
    requires IsRun(codec, backends, trace) && Over(addresses, trace)
    ensures ReadsLikeAMap(codec, backends, trace)
  {
    hide FindStep, StoreKey, CacheKey, After, SpecAfter, LocalKnown, TableKnown, CacheKnown;
    forall n: nat | n < |trace| && trace[n].op.Find?
      ensures FindStep(codec, After(codec, backends, trace, n), trace[n].op.asked, trace[n].at).1
           == SpecAnswer(SpecAfter(trace, n), trace[n].op.asked)
    {
      RunKeepsKnown(codec, backends, trace, n);
      PublishedStaysOver(addresses, trace, n);
      FindReturnsALatestEntry(codec, After(codec, backends, trace, n), SpecAfter(trace, n), trace[n].op.asked,
          trace[n].at);
    }
  }

  /** Publish at one address, then look for the other. */
  function ClashRun(a: Address, b: Address): seq<Timed> {
    [Timed(Publish(EntryAt(b, 0)), 0.0), Timed(Find(a), 0.0)]
  }

  lemma ClashMisleads(codec: Codec, backends: Backends, a: Address, b: Address)
    requires codec.Faithful() && a != b && a.env != "" && b.env != "" && Publishable(b)
    requires StoreKey(a) == StoreKey(b) || (backends.redis && CacheKey(a) == CacheKey(b))
    ensures IsRun(codec, backends, ClashRun(a, b)) && !ReadsLikeAMap(codec, backends, ClashRun(a, b))
  {
    var trace := ClashRun(a, b);
    var e := EntryAt(b, 1);
    assert SpecAfter(trace, 1).published == map[b := e] by {
      assert SpecAfter(trace, 0) == Spec(map[], 1);
    }
    RunKeepsKnown(codec, backends, trace, 1);
    FindClashes(codec, After(codec, backends, trace, 1), SpecAfter(trace, 1), a, b);
    assert trace[1].op.Find?;
  }

  /** With `b` the only published address, a find for one that shares a key with it does not miss. */
  lemma FindClashes(codec: Codec, s: Store, spec: Spec, a: Address, b: Address)
    requires codec.Faithful() && Known(codec, s, spec) && b in spec.published && a !in spec.published && a.env != ""
    requires StoreKey(a) == StoreKey(b)
          || (s.redis.Some? && CacheKey(a) == CacheKey(b) && CacheKey(b) in s.redis.value
              && s.redis.value[CacheKey(b)].expiresAt.None?)
    ensures FindStep(codec, s, a, 0.0).1 != SpecAnswer(spec, a)
  {
    hide StoreKey, CacheKey;
    assert Normal(a) == a;
    if Stored(s, a).Some? {
      StoredIsLatest(codec, s, spec, a);
    }
  }

  /** Over a set of addresses, every run reads like the plain map of last published entries, whatever
    * happens to the cache in between, exactly when no two of them share a store key nor, with a cache
    * configured, a cache key. Clashing composite keys of the database do no harm. */
  lemma ReadsLikeAMapExactly(codec: Codec, backends: Backends, addresses: iset<Address>)
    requires codec.Faithful() && forall a | a in addresses :: a.env != ""
    ensures
      (forall trace | IsRun(codec, backends, trace) && Over(addresses, trace) :: ReadsLikeAMap(codec, backends, trace))
      <==> Separate(backends, addresses)
  {
    if Separate(backends, addresses) {
      forall trace | IsRun(codec, backends, trace) && Over(addresses, trace)
        ensures ReadsLikeAMap(codec, backends, trace)
      {
        SeparateReadsLikeAMap(codec, backends, addresses, trace);
      }
    } else {
      var a, b :| a in addresses && b in addresses && a != b && Publishable(b)
                  && (StoreKey(a) == StoreKey(b) || (backends.redis && CacheKey(a) == CacheKey(b)));
      ClashMisleads(codec, backends, a, b);
      assert Over(addresses, ClashRun(a, b));
    }
  }

  /** Addresses whose environment and namespace hold neither separator satisfy the condition. */
  lemma SeparatorFreeIsSeparate(backends: Backends, addresses: iset<Address>)
    requires forall a | a in addresses :: '|' !in a.env && '|' !in a.ns && ':' !in a.env && ':' !in a.ns
    ensures Separate(backends, addresses)
  {
    forall a, b | a in addresses && b in addresses && a != b && Publishable(b)
      ensures StoreKey(a) != StoreKey(b) && CacheKey(a) != CacheKey(b)
    {
      if StoreKey(a) == StoreKey(b) {
        JoinedIsInjective('|', a, b);
      }
      if CacheKey(a) == CacheKey(b) {
        assert CacheKey(a)[7..] == Joined(':', a) && CacheKey(b)[7..] == Joined(':', b);
        JoinedIsInjective(':', a, b);
      }
    }
  }

  /** All tiers that hold something for an address hold its latest entry, and the local map always does. */
  lemma TiersAgree(
      codec: Codec, backends: Backends, addresses: iset<Address>, trace: seq<Timed>, n: nat, a: Address, now: real)
    requires codec.Faithful() && Separate(backends, addresses)
    requires IsRun(codec, backends, trace) && Over(addresses, trace) && n <= |trace| && a in addresses
    ensures
      var s, published := After(codec, backends, trace, n), SpecAfter(trace, n).published;
      && (StoreKey(a) in s.entries <==> a in published)
      && (StoreKey(a) in s.entries ==> s.entries[StoreKey(a)] == published[a])
      && (Stored(s, a).Some? ==> a in published && FromMysqlRow(Stored(s, a).value) == Some(published[a]))
      && (Cached(codec, s, a, now).Parsed? ==> a in published && Cached(codec, s, a, now).value == published[a])
  {
    hide After, SpecAfter, StoreKey, CacheKey, TableKnown, FromMysqlRow;
    RunKeepsKnown(codec, backends, trace, n);
    PublishedStaysOver(addresses, trace, n);
    if Stored(After(codec, backends, trace, n), a).Some? {
      StoredIsLatest(codec, After(codec, backends, trace, n), SpecAfter(trace, n), a);
    }
  }
}
