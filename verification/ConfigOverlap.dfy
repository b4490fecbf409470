/** The configuration service when publishes and finds overlap: every interleaving of the steps of any
  * number of them, over backends that were empty at the start, with the cache losing keys or getting
  * deadlines at any moment. A version is claimed in one step and its entry written in later ones. */
module ConfigOverlap {
  import opened Wrappers
  import opened ConfigKeys
  import opened ConfigService
  import opened MysqlPool
  import CR = ConfigRuns
  import RS = RedisStore
  import Decimal

  datatype PublishStage = WriteMap | WriteTable | WriteCache | Published

  datatype FindStage =
    | ReadCache
    | ReadTable
    | FillCache(entry: ConfigEntry)
    | FillMap(entry: ConfigEntry)
    | ReadMap
    | Returned(found: Found)

  function PublishAdvance(codec: Codec, s: Store, e: ConfigEntry, stage: PublishStage): (Store, PublishStage) {
    match stage
    case WriteMap => (Remember(s, AddressOf(e), e), WriteTable)
    case WriteTable =>
      (if s.mysql.None? then s else s.(mysql := Some(Upserted(s.mysql.value, ToMysqlRow(e), KEY_FIELDS))), WriteCache)
    case WriteCache => (CacheSet(codec, s, AddressOf(e), e), Published)
    case Published => (s, Published)
  }

  function FindAdvance(codec: Codec, s: Store, a: Address, stage: FindStage, now: real): (Store, FindStage) {
    match stage
    case ReadCache =>
      var cached := Cached(codec, s, a, now);
      (AfterCacheRead(s, a, now),
       match cached
       case Parsed(e) => Returned(Entry(e))
       case Throws => Returned(Threw)
       case Discarded => ReadTable)
    case ReadTable =>
      (match Stored(s, a)
       case None => (s, ReadMap)
       case Some(row) =>
         (match FromMysqlRow(row)
          case None => (s, Returned(Threw))
          case Some(e) => (s, FillCache(e))))
    case FillCache(e) => (CacheSet(codec, s, a, e), FillMap(e))
    case FillMap(e) => (Remember(s, a, e), Returned(Entry(e)))
    case ReadMap => (s, Returned(if StoreKey(a) in s.entries then Entry(s.entries[StoreKey(a)]) else Missing))
    case Returned(_) => (s, stage)
  }

  // -------------------------------------------------------------------------------------------
  // Without overlap the steps are the operations
  // -------------------------------------------------------------------------------------------

  function PublishToEnd(codec: Codec, s: Store, e: ConfigEntry, stage: PublishStage): Store
    decreases match stage case WriteMap => 3 case WriteTable => 2 case WriteCache => 1 case Published => 0
  {
    if stage == Published then s
    else
      var next := PublishAdvance(codec, s, e, stage);
      PublishToEnd(codec, next.0, e, next.1)
  }

  function FindToEnd(codec: Codec, s: Store, a: Address, stage: FindStage, now: real): (Store, FindStage)
    decreases match stage
              case ReadCache => 5 case ReadTable => 4 case FillCache(_) => 3 case FillMap(_) => 2
              case ReadMap => 1 case Returned(_) => 0
  {
    if stage.Returned? then (s, stage)
    else
      var next := FindAdvance(codec, s, a, stage, now);
      FindToEnd(codec, next.0, a, next.1, now)
  }

  lemma PublishStepsAreThePublish(codec: Codec, s: Store, e: ConfigEntry)
    requires Publishable(AddressOf(e))
    ensures
      var stamped := Stamped(s, e);
      PublishStep(codec, s, e)
        == (PublishToEnd(codec, s.(nextVersion := FetchAdd(s.nextVersion)), stamped, WriteMap), Some(stamped.version))
  {
    hide StoreKey, CacheKey, ToMysqlRow;
    var stamped, claimed := Stamped(s, e), s.(nextVersion := FetchAdd(s.nextVersion));
    var mapped := PublishAdvance(codec, claimed, stamped, WriteMap).0;
    var tabled := PublishAdvance(codec, mapped, stamped, WriteTable).0;
    var cached := PublishAdvance(codec, tabled, stamped, WriteCache).0;
    assert PublishToEnd(codec, tabled, stamped, WriteCache) == cached;
    assert PublishToEnd(codec, mapped, stamped, WriteTable) == cached;
  }

  lemma FillStepsToEnd(codec: Codec, s: Store, a: Address, e: ConfigEntry, now: real)
    ensures FindToEnd(codec, s, a, FillCache(e), now) == (Remember(CacheSet(codec, s, a, e), a, e), Returned(Entry(e)))
  {
    hide StoreKey, CacheKey;
    var filled := CacheSet(codec, s, a, e);
    assert FindToEnd(codec, filled, a, FillMap(e), now) == (Remember(filled, a, e), Returned(Entry(e)));
  }

  lemma FindStepsAreTheFind(codec: Codec, s: Store, asked: Address, now: real)
    ensures
      var whole := FindStep(codec, s, asked, now);
      FindToEnd(codec, s, Normal(asked), ReadCache, now) == (whole.0, Returned(whole.1))
  {
    hide StoreKey, CacheKey, FromMysqlRow;
    var a := Normal(asked);
    var read := AfterCacheRead(s, a, now);
    if Cached(codec, s, a, now).Discarded? {
      assert Stored(read, a) == Stored(s, a);
      assert FindToEnd(codec, s, a, ReadCache, now) == FindToEnd(codec, read, a, ReadTable, now);
      var row := Stored(s, a);
      if row.None? {
        assert FindToEnd(codec, read, a, ReadTable, now) == FindToEnd(codec, read, a, ReadMap, now);
      } else if FromMysqlRow(row.value).Some? {
        FillStepsToEnd(codec, read, a, FromMysqlRow(row.value).value, now);
      }
    }
  }

  // -------------------------------------------------------------------------------------------
  // The interleaved machine
  // -------------------------------------------------------------------------------------------

  /** `due` remembers whether the local map had something for the address when the find began. */
  datatype Thread =
    | Publisher(entry: ConfigEntry, publish: PublishStage)
    | Finder(address: Address, due: bool, find: FindStage)

  /** `stamped` records every entry that was given a version. */
  datatype State = State(store: Store, stamped: set<ConfigEntry>, threads: seq<Thread>)

  datatype Action =
    | BeginPublish(entry: ConfigEntry)
    | BeginFind(asked: Address)
    | Advance(thread: nat, now: real)
    | Disturb(kv: RS.Kv)

  predicate Enabled(s: State, action: Action) {
    match action
    case BeginPublish(e) => Publishable(AddressOf(e))
    case BeginFind(_) => true
    case Advance(i, _) => i < |s.threads|
    case Disturb(kv) => s.store.redis.Some? && RS.Shrinks(s.store.redis.value, kv)
  }

  function AdvanceThread(codec: Codec, store: Store, thread: Thread, now: real): (Store, Thread) {
    match thread
    case Publisher(e, stage) =>
      var next := PublishAdvance(codec, store, e, stage);
      (next.0, Publisher(e, next.1))
    case Finder(a, due, stage) =>
      var next := FindAdvance(codec, store, a, stage, now);
      (next.0, Finder(a, due, next.1))
  }

  function Step(codec: Codec, s: State, action: Action): State
    requires Enabled(s, action)
  {
    match action
    case BeginPublish(e) =>
      var stamped := Stamped(s.store, e);
      State(s.store.(nextVersion := FetchAdd(s.store.nextVersion)), s.stamped + {stamped},
          s.threads + [Publisher(stamped, WriteMap)])
    case BeginFind(asked) =>
      var a := Normal(asked);
      s.(threads := s.threads + [Finder(a, StoreKey(a) in s.store.entries, ReadCache)])
    case Advance(i, now) =>
      var next := AdvanceThread(codec, s.store, s.threads[i], now);
      s.(store := next.0, threads := s.threads[i := next.1])
    case Disturb(kv) => s.(store := s.store.(redis := Some(kv)))
  }

  function Init(backends: CR.Backends): State {
    State(CR.Fresh(backends), {}, [])
  }

  ghost predicate IsRun(codec: Codec, backends: CR.Backends, states: seq<State>, trace: seq<Action>) {
    && |states| == |trace| + 1
    && states[0] == Init(backends)
    && forall n | 0 <= n < |trace| :: Enabled(states[n], trace[n]) && states[n + 1] == Step(codec, states[n], trace[n])
  }

  // -------------------------------------------------------------------------------------------
  // What every step keeps
  // -------------------------------------------------------------------------------------------

  /** Stamped entries can be stored, and a version belongs to one of them. */
  ghost predicate StampedKnown(stamped: set<ConfigEntry>, nextVersion: int) {
    && (forall e | e in stamped ::
          Publishable(AddressOf(e)) && e.env != "" && 1 <= e.version < nextVersion && Decimal.FitsInt64(e.version))
    && (forall e, f | e in stamped && f in stamped && e.version == f.version :: e == f)
  }

  ghost predicate MapKnown(entries: map<string, ConfigEntry>, stamped: set<ConfigEntry>) {
    forall k | k in entries :: entries[k] in stamped && k == StoreKey(AddressOf(entries[k]))
  }

  ghost predicate RowKnown(stamped: set<ConfigEntry>, row: QueryRow) {
    && FromMysqlRow(row).Some?
    && FromMysqlRow(row).value in stamped
    && row == ToMysqlRow(FromMysqlRow(row).value)
  }

  ghost predicate TableKnown(table: Table, stamped: set<ConfigEntry>) {
    && Keyed(table, KEY_FIELDS)
    && forall k | k in table :: RowKnown(stamped, table[k])
  }

  ghost predicate PayloadKnown(codec: Codec, stamped: set<ConfigEntry>, k: string, payload: string) {
    && codec.parse(payload).Parsed?
    && codec.parse(payload).value in stamped
    && k == CacheKey(AddressOf(codec.parse(payload).value))
  }

  ghost predicate CacheKnown(codec: Codec, kv: RS.Kv, stamped: set<ConfigEntry>) {
    forall k | k in kv :: PayloadKnown(codec, stamped, k, kv[k].value)
  }

  ghost predicate StoreKnown(codec: Codec, store: Store, stamped: set<ConfigEntry>) {
    && MapKnown(store.entries, stamped)
    && (store.mysql.Some? ==> TableKnown(store.mysql.value, stamped))
    && (store.redis.Some? ==> CacheKnown(codec, store.redis.value, stamped))
  }

  /** The entry belongs to an address that a configured tier cannot tell from the one asked for. */
  predicate SharesKey(redis: bool, e: ConfigEntry, a: Address) {
    StoreKey(AddressOf(e)) == StoreKey(a) || (redis && CacheKey(AddressOf(e)) == CacheKey(a))
  }

  ghost predicate ThreadKnown(
      thread: Thread, redis: bool, entries: map<string, ConfigEntry>, stamped: set<ConfigEntry>)
  {
    match thread
    case Publisher(e, stage) => e in stamped && (stage != WriteMap ==> StoreKey(AddressOf(e)) in entries)
    case Finder(a, due, stage) =>
      && (due ==> StoreKey(a) in entries)
      && match stage
         case FillCache(e) => e in stamped && AddressOf(e) == a
         case FillMap(e) => e in stamped && AddressOf(e) == a
         case Returned(Entry(e)) => e in stamped && SharesKey(redis, e, a)
         case Returned(Missing) => !due
         case Returned(Threw) => false
         case _ => true
  }

  ghost predicate NoVersionTwice(threads: seq<Thread>) {
    forall i, j | 0 <= i < j < |threads| && threads[i].Publisher? && threads[j].Publisher? ::
      threads[i].entry.version != threads[j].entry.version
  }

  ghost predicate Inv(codec: Codec, redis: bool, s: State) {
    && s.store.redis.Some? == redis
    && StampedKnown(s.stamped, s.store.nextVersion)
    && StoreKnown(codec, s.store, s.stamped)
    && (forall i | 0 <= i < |s.threads| :: ThreadKnown(s.threads[i], redis, s.store.entries, s.stamped))
    && NoVersionTwice(s.threads)
  }

  /** The local map never loses a key, and nothing but a publish claims a version. */
  ghost predicate Grows(before: Store, after: Store) {
    && before.entries.Keys <= after.entries.Keys
    && after.nextVersion == before.nextVersion
    && after.redis.Some? == before.redis.Some?
  }

  lemma FilingKeepsTable(table: Table, stamped: set<ConfigEntry>, e: ConfigEntry)
    requires TableKnown(table, stamped) && e in stamped && Decimal.FitsInt64(e.version)
    ensures TableKnown(Upserted(table, ToMysqlRow(e), KEY_FIELDS), stamped)
  {
    RowRoundTrip(e);
  }

  lemma FilingKeepsCache(codec: Codec, s: Store, stamped: set<ConfigEntry>, e: ConfigEntry)
    requires codec.Faithful() && StoreKnown(codec, s, stamped) && e in stamped
    ensures StoreKnown(codec, CacheSet(codec, s, AddressOf(e), e), stamped)
    ensures Grows(s, CacheSet(codec, s, AddressOf(e), e))
    ensures CacheSet(codec, s, AddressOf(e), e).entries == s.entries
  {
    hide CacheKey, StoreKey, TableKnown;
    assert codec.parse(codec.print_(e)) == Parsed(e);
  }

  lemma FilingKeepsMap(codec: Codec, s: Store, stamped: set<ConfigEntry>, e: ConfigEntry)
    requires StoreKnown(codec, s, stamped) && e in stamped
    ensures StoreKnown(codec, Remember(s, AddressOf(e), e), stamped)
    ensures Grows(s, Remember(s, AddressOf(e), e))
    ensures StoreKey(AddressOf(e)) in Remember(s, AddressOf(e), e).entries
  {
    hide StoreKey, TableKnown, CacheKnown;
  }

  lemma CacheReadIsRight(codec: Codec, s: Store, stamped: set<ConfigEntry>, a: Address, now: real)
    requires StoreKnown(codec, s, stamped)
    ensures StoreKnown(codec, AfterCacheRead(s, a, now), stamped)
    ensures Grows(s, AfterCacheRead(s, a, now)) && AfterCacheRead(s, a, now).entries == s.entries
    ensures
      var cached := Cached(codec, s, a, now);
      !cached.Throws? && (cached.Parsed? ==> cached.value in stamped && SharesKey(s.redis.Some?, cached.value, a))
  {
    hide StoreKey, CacheKey, TableKnown, MapKnown;
  }

  lemma TableReadIsRight(codec: Codec, s: Store, stamped: set<ConfigEntry>, a: Address)
    requires StoreKnown(codec, s, stamped) && Stored(s, a).Some?
    ensures
      var e := FromMysqlRow(Stored(s, a).value);
      e.Some? && e.value in stamped && AddressOf(e.value) == a
  {
    var row := Stored(s, a).value;
    assert RowKnown(stamped, row);
    CR.RowMatchesItsAddress(FromMysqlRow(row).value);
  }

  lemma PublishAdvanceKeeps(codec: Codec, s: Store, stamped: set<ConfigEntry>, e: ConfigEntry, stage: PublishStage)
    requires codec.Faithful() && StoreKnown(codec, s, stamped) && StampedKnown(stamped, s.nextVersion)
    requires ThreadKnown(Publisher(e, stage), s.redis.Some?, s.entries, stamped)
    ensures
      var next := PublishAdvance(codec, s, e, stage);
      && StoreKnown(codec, next.0, stamped) && Grows(s, next.0)
      && ThreadKnown(Publisher(e, next.1), s.redis.Some?, next.0.entries, stamped)
  {
    hide StoreKey, CacheKey, TableKnown, CacheKnown, MapKnown, ToMysqlRow;
    match stage
    case WriteMap => FilingKeepsMap(codec, s, stamped, e);
    case WriteTable =>
      if s.mysql.Some? {
        FilingKeepsTable(s.mysql.value, stamped, e);
      }
    case WriteCache => FilingKeepsCache(codec, s, stamped, e);
    case Published =>
  }

  lemma FindAdvanceKeeps(
      codec: Codec, s: Store, stamped: set<ConfigEntry>, a: Address, due: bool, stage: FindStage, now: real)
    requires codec.Faithful() && StoreKnown(codec, s, stamped)
    requires ThreadKnown(Finder(a, due, stage), s.redis.Some?, s.entries, stamped)
    ensures
      var next := FindAdvance(codec, s, a, stage, now);
      && StoreKnown(codec, next.0, stamped) && Grows(s, next.0)
      && ThreadKnown(Finder(a, due, next.1), s.redis.Some?, next.0.entries, stamped)
  {
    hide StoreKey, CacheKey, TableKnown, CacheKnown, FromMysqlRow, Stored, Cached;
    match stage
    case ReadCache => CacheReadIsRight(codec, s, stamped, a, now);
    case ReadTable =>
      if Stored(s, a).Some? {
        TableReadIsRight(codec, s, stamped, a);
      }
    case FillCache(e) => FilingKeepsCache(codec, s, stamped, e);
    case FillMap(e) =>
      FilingKeepsMap(codec, s, stamped, e);
    case ReadMap =>
    case Returned(_) =>
  }

  lemma AdvanceKeeps(codec: Codec, redis: bool, s: State, i: nat, now: real)
    requires codec.Faithful() && Inv(codec, redis, s) && i < |s.threads|
    ensures Inv(codec, redis, Step(codec, s, Advance(i, now)))
    ensures Step(codec, s, Advance(i, now)).store.nextVersion == s.store.nextVersion
  {
    hide StoreKnown, StampedKnown, PublishAdvance, FindAdvance, StoreKey, CacheKey;
    match s.threads[i]
    case Publisher(e, stage) => PublishAdvanceKeeps(codec, s.store, s.stamped, e, stage);
    case Finder(a, due, stage) => FindAdvanceKeeps(codec, s.store, s.stamped, a, due, stage, now);
  }

  lemma BeginPublishKeeps(codec: Codec, redis: bool, s: State, e: ConfigEntry)
    requires Inv(codec, redis, s) && Publishable(AddressOf(e)) && 1 <= s.store.nextVersion < 0x7FFF_FFFF_FFFF_FFFF
    ensures Inv(codec, redis, Step(codec, s, BeginPublish(e)))
  {
    hide StoreKey, CacheKey;
  }

  lemma DisturbKeeps(codec: Codec, redis: bool, s: State, kv: RS.Kv)
    requires Inv(codec, redis, s) && Enabled(s, Disturb(kv))
    ensures Inv(codec, redis, Step(codec, s, Disturb(kv)))
  {
    hide StoreKey, CacheKey, TableKnown;
  }

  lemma StepKeepsInv(codec: Codec, redis: bool, s: State, action: Action)
    requires codec.Faithful() && Inv(codec, redis, s) && Enabled(s, action)
        && 1 <= s.store.nextVersion < 0x7FFF_FFFF_FFFF_FFFF
    ensures Inv(codec, redis, Step(codec, s, action))
    ensures s.store.nextVersion <= Step(codec, s, action).store.nextVersion <= s.store.nextVersion + 1
  {
    match action
    case BeginPublish(e) => BeginPublishKeeps(codec, redis, s, e);
    case BeginFind(_) => hide StoreKnown, StampedKnown, StoreKey, CacheKey;
    case Advance(i, now) => AdvanceKeeps(codec, redis, s, i, now);
    case Disturb(kv) => DisturbKeeps(codec, redis, s, kv);
  }

  lemma {:induction false} RunKeepsInv(
      codec: Codec, backends: CR.Backends, states: seq<State>, trace: seq<Action>, n: nat)
    requires codec.Faithful() && IsRun(codec, backends, states, trace)
    requires n <= |trace| < 0x7FFF_FFFF_FFFF_FFFF
    ensures Inv(codec, backends.redis, states[n]) && 1 <= states[n].store.nextVersion <= n + 1
  {
    hide Inv, Step;
    if n == 0 {
      StartsInv(codec, backends);
    } else {
      RunKeepsInv(codec, backends, states, trace, n - 1);
      assert Enabled(states[n - 1], trace[n - 1]);
      StepKeepsInv(codec, backends.redis, states[n - 1], trace[n - 1]);
    }
  }

  lemma StartsInv(codec: Codec, backends: CR.Backends)
    ensures Inv(codec, backends.redis, Init(backends))
  {
  }

  // -------------------------------------------------------------------------------------------
  // What survives any overlap
  // -------------------------------------------------------------------------------------------

  /** A find never fails on a row, and what it returns was published, with a version of its own, at an
    * address that shares a key with the one asked for. */
  lemma FindsReturnPublished(
      codec: Codec, backends: CR.Backends, states: seq<State>, trace: seq<Action>, n: nat, i: nat)
    requires codec.Faithful() && IsRun(codec, backends, states, trace)
    requires n <= |trace| < 0x7FFF_FFFF_FFFF_FFFF
    requires i < |states[n].threads| && states[n].threads[i].Finder? && states[n].threads[i].find.Returned?
    ensures
      var t := states[n].threads[i];
      && t.find.found != Threw
      && (t.find.found.Entry? ==>
            t.find.found.entry in states[n].stamped && SharesKey(backends.redis, t.find.found.entry, t.address))
  {
    hide StampedKnown, StoreKnown, SharesKey, StoreKey;
    RunKeepsInv(codec, backends, states, trace, n);
    assert ThreadKnown(states[n].threads[i], backends.redis, states[n].store.entries, states[n].stamped);
  }

  /** No two publishes of a run get the same version. */
  lemma VersionsNeverRepeat(
      codec: Codec, backends: CR.Backends, states: seq<State>, trace: seq<Action>, n: nat, i: nat, j: nat)
    requires codec.Faithful() && IsRun(codec, backends, states, trace)
    requires n <= |trace| < 0x7FFF_FFFF_FFFF_FFFF
    requires i < j < |states[n].threads| && states[n].threads[i].Publisher? && states[n].threads[j].Publisher?
    ensures states[n].threads[i].entry.version != states[n].threads[j].entry.version
  {
    hide StampedKnown, StoreKnown, ThreadKnown;
    RunKeepsInv(codec, backends, states, trace, n);
  }

  lemma {:induction false} ThreadsKeepTheirTask(
      codec: Codec, backends: CR.Backends, states: seq<State>, trace: seq<Action>, n: nat, m: nat, i: nat)
    requires IsRun(codec, backends, states, trace) && n <= m <= |trace| && i < |states[n].threads|
    ensures i < |states[m].threads|
    ensures states[n].threads[i].Finder? ==>
      states[m].threads[i].Finder? && states[m].threads[i].address == states[n].threads[i].address
      && states[m].threads[i].due == states[n].threads[i].due
  {
    hide PublishAdvance, FindAdvance, StoreKey;
    if n < m {
      ThreadsKeepTheirTask(codec, backends, states, trace, n, m - 1, i);
      assert Enabled(states[m - 1], trace[m - 1]);
    }
  }

  /** Once a publish has done its map write, no find of its address that begins later misses, whichever
    * backends are there and whatever overlaps it. */
  lemma LaterFindsDoNotMiss(
      codec: Codec, backends: CR.Backends, states: seq<State>, trace: seq<Action>, n: nat, m: nat, publisher: nat)
    requires codec.Faithful() && IsRun(codec, backends, states, trace)
    requires n < m <= |trace| < 0x7FFF_FFFF_FFFF_FFFF
    requires publisher < |states[n].threads| && states[n].threads[publisher].Publisher?
    requires states[n].threads[publisher].publish != WriteMap
    requires trace[n].BeginFind? && Normal(trace[n].asked) == AddressOf(states[n].threads[publisher].entry)
    ensures
      var i := |states[n].threads|;
      && i < |states[m].threads| && states[m].threads[i].Finder?
      && states[m].threads[i].address == Normal(trace[n].asked)
      && (states[m].threads[i].find.Returned? ==> states[m].threads[i].find.found.Entry?)
  {
    hide StampedKnown, StoreKnown, Step, StoreKey;
    var i := |states[n].threads|;
    RunKeepsInv(codec, backends, states, trace, n);
    RunKeepsInv(codec, backends, states, trace, m);
    assert ThreadKnown(states[n].threads[publisher], backends.redis, states[n].store.entries, states[n].stamped);
    FindBegins(codec, states[n], trace[n].asked);
    ThreadsKeepTheirTask(codec, backends, states, trace, n + 1, m, i);
    assert ThreadKnown(states[m].threads[i], backends.redis, states[m].store.entries, states[m].stamped);
  }

  lemma FindBegins(codec: Codec, s: State, asked: Address)
    ensures
      var a := Normal(asked);
      Step(codec, s, BeginFind(asked)).threads == s.threads + [Finder(a, StoreKey(a) in s.store.entries, ReadCache)]
  {
  }

  // -------------------------------------------------------------------------------------------
  // What is read after undisturbed writes
  // -------------------------------------------------------------------------------------------

  lemma PublishInThree(codec: Codec, s: Store, e: ConfigEntry)
    ensures
      var mapped := PublishAdvance(codec, s, e, WriteMap).0;
      var tabled := PublishAdvance(codec, mapped, e, WriteTable).0;
      PublishToEnd(codec, s, e, WriteMap) == PublishAdvance(codec, tabled, e, WriteCache).0
  {
    hide PublishAdvance;
    var mapped := PublishAdvance(codec, s, e, WriteMap);
    var tabled := PublishAdvance(codec, mapped.0, e, WriteTable);
    PublishStages(codec, s, e);
    assert PublishToEnd(codec, mapped.0, e, WriteTable) == PublishToEnd(codec, tabled.0, e, WriteCache);
  }

  lemma PublishStages(codec: Codec, s: Store, e: ConfigEntry)
    ensures PublishAdvance(codec, s, e, WriteMap).1 == WriteTable
    ensures forall t :: PublishAdvance(codec, t, e, WriteTable).1 == WriteCache
    ensures forall t :: PublishToEnd(codec, t, e, WriteCache) == PublishAdvance(codec, t, e, WriteCache).0
  {
  }

  /** Whatever the store held, the entry whose three writes came last is the one found. */
  lemma LastWritesAreFound(codec: Codec, s: Store, e: ConfigEntry, now: real)
    requires codec.Faithful() && e.env != "" && Decimal.FitsInt64(e.version)
    ensures FindStep(codec, PublishToEnd(codec, s, e, WriteMap), AddressOf(e), now).1 == Entry(e)
  {
    hide StoreKey, CacheKey;
    PublishInThree(codec, s, e);
    assert codec.parse(codec.print_(e)) == Parsed(e);
    RowRoundTrip(e);
    CR.RowMatchesItsAddress(e);
  }

  /** What was published is found right afterwards, in whatever state the tiers were; no environment means
    * "dev" to both. */
  lemma PublishedIsFound(codec: Codec, s: Store, e: ConfigEntry, env: string, now: real)
    requires codec.Faithful() && e.ns != "" && e.key != "" && Decimal.FitsInt64(s.nextVersion)
    requires (if env == "" then "dev" else env) == (if e.env == "" then "dev" else e.env)
    ensures FindStep(codec, PublishStep(codec, s, e).0, Address(e.ns, e.key, env), now).1
         == Entry(ConfigEntry(e.ns, e.key, e.value, s.nextVersion, if env == "" then "dev" else env))
  {
    hide PublishToEnd, PublishStep, StoreKey, CacheKey;
    var stamped := Stamped(s, e);
    PublishStepsAreThePublish(codec, s, e);
    LastWritesAreFound(codec, s.(nextVersion := FetchAdd(s.nextVersion)), stamped, now);
    assert Normal(AddressOf(stamped)) == Normal(Address(e.ns, e.key, env));
  }

  /** Without another publish in between, the back-filled entry is what a find returns. */
  lemma FilledIsFound(codec: Codec, s: Store, e: ConfigEntry, now: real)
    requires codec.Faithful() && e.env != "" && s.redis.Some?
    ensures
      var a := AddressOf(e);
      FindStep(codec, Remember(CacheSet(codec, s, a, e), a, e), a, now).1 == Entry(e)
  {
    hide StoreKey, CacheKey;
    assert codec.parse(codec.print_(e)) == Parsed(e);
  }

  lemma PublishLeavesItsRow(codec: Codec, s: Store, e: ConfigEntry)
    requires s.mysql.Some?
    ensures
      var after := PublishToEnd(codec, s, e, WriteMap);
      && Stored(after, AddressOf(e)) == Some(ToMysqlRow(e))
      && after.redis.Some? == s.redis.Some? && after.mysql.Some? && after.nextVersion == s.nextVersion
      && after.entries == s.entries[StoreKey(AddressOf(e)) := e]
  {
    hide StoreKey, CacheKey;
    PublishInThree(codec, s, e);
    CR.RowMatchesItsAddress(e);
  }
}
