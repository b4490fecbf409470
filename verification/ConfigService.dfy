/** The configuration service: a local map in front of an optional database and an optional cache,
  * written through and filled back on reads. */
module ConfigService {
  import opened Wrappers
  import opened ConfigKeys
  import opened MysqlPool
  import RS = RedisStore
  import Decimal

  datatype ConfigEntry = ConfigEntry(ns: string, key: string, value: string, version: int, env: string)

  function AddressOf(e: ConfigEntry): Address {
    Address(e.ns, e.key, e.env)
  }

  /** The JSON library: a printer and a parser that may give up or throw. */
  datatype Codec = Codec(print_: ConfigEntry -> string, parse: string -> Parsed<ConfigEntry>) {
    ghost predicate Faithful() {
      forall e: ConfigEntry :: parse(print_(e)) == Parsed(e)
    }
  }

  function ToMysqlRow(e: ConfigEntry): QueryRow {
    map["namespace_name" := e.ns, "key" := e.key, "value" := e.value,
        "version" := Decimal.ToString(e.version), "environment" := e.env]
  }

  /** `None` when the version text makes the parser throw; absent fields keep their defaults. */
  function FromMysqlRow(row: QueryRow): Option<ConfigEntry> {
    var version := if "version" in row then Decimal.Stoll(row["version"]) else Some(0);
    match version
    case None => None
    case Some(v) =>
      Some(ConfigEntry(FieldOf(row, "namespace_name"), FieldOf(row, "key"), FieldOf(row, "value"), v,
          FieldOf(row, "environment")))
  }

  lemma RowRoundTrip(e: ConfigEntry)
    ensures FromMysqlRow(ToMysqlRow(e)) == if Decimal.FitsInt64(e.version) then Some(e) else None
  {
    Decimal.RoundTrip(e.version);
  }

  /** A row that lacks a field is read with the field's default. */
  lemma MissingFieldsAreDefaults(e: ConfigEntry)
    requires Decimal.FitsInt64(e.version)
    ensures FromMysqlRow(ToMysqlRow(e) - {"version"}) == Some(e.(version := 0))
    ensures FromMysqlRow(ToMysqlRow(e) - {"namespace_name"}) == Some(e.(ns := ""))
    ensures FromMysqlRow(ToMysqlRow(e) - {"key"}) == Some(e.(key := ""))
    ensures FromMysqlRow(ToMysqlRow(e) - {"value"}) == Some(e.(value := ""))
    ensures FromMysqlRow(ToMysqlRow(e) - {"environment"}) == Some(e.(env := ""))
  {
    hide Decimal.Stoll, Decimal.ToString;
    Decimal.RoundTrip(e.version);
  }

  /** The service with its backends, those that are configured. */
  datatype Store = Store(
    entries: map<string, ConfigEntry>, nextVersion: int, mysql: Option<Table>, redis: Option<RS.Kv>)

  datatype Found = Entry(entry: ConfigEntry) | Missing | Threw

  /** The row stored under the address's composite key, if its fields are those of the address. */
  function RowFor(table: Table, a: Address): Option<QueryRow> {
    var key := CompositeKey(Filters(a), KEY_FIELDS);
    if key in table && Matches(table[key], Filters(a)) then Some(table[key]) else None
  }

  function Cached(codec: Codec, s: Store, a: Address, now: real): Parsed<ConfigEntry> {
    if s.redis.None? then Discarded
    else
      match RS.GetAnswer(s.redis.value, CacheKey(a), now)
      case None => Discarded
      case Some(payload) => codec.parse(payload)
  }

  function AfterCacheRead(s: Store, a: Address, now: real): Store {
    if s.redis.None? then s else s.(redis := Some(RS.Step(s.redis.value, RS.Get(CacheKey(a)), now)))
  }

  function CacheSet(codec: Codec, s: Store, a: Address, e: ConfigEntry): Store {
    if s.redis.None? then s
    else s.(redis := Some(RS.Step(s.redis.value, RS.Set(CacheKey(a), codec.print_(e)), 0.0)))
  }

  function Remember(s: Store, a: Address, e: ConfigEntry): Store {
    s.(entries := s.entries[StoreKey(a) := e])
  }

  function Stored(s: Store, a: Address): Option<QueryRow> {
    if s.mysql.None? then None else RowFor(s.mysql.value, a)
  }

  /** Cache, then database with back-fill, then the local map. */
  function FindStep(codec: Codec, s: Store, asked: Address, now: real): (Store, Found) {
    var a := Normal(asked);
    var read := AfterCacheRead(s, a, now);
    var cached := Cached(codec, s, a, now);
    if cached.Parsed? then (read, Entry(cached.value))
    else if cached.Throws? then (read, Threw)
    else
      match Stored(s, a)
      case Some(row) =>
        (match FromMysqlRow(row)
         case None => (read, Threw)
         case Some(e) => (Remember(CacheSet(codec, read, a, e), a, e), Entry(e)))
      case None =>
        if StoreKey(a) in s.entries then (read, Entry(s.entries[StoreKey(a)])) else (read, Missing)
  }

  /** An entry without a value. */
  function EntryAt(a: Address, version: int): ConfigEntry {
    ConfigEntry(a.ns, a.key, "", version, a.env)
  }

  predicate Publishable(a: Address) {
    a.ns != "" && a.key != ""
  }

  function Stamped(s: Store, e: ConfigEntry): ConfigEntry {
    e.(env := DefaultEnv(e.env), version := s.nextVersion)
  }

  /** Local map, then database, then cache. `None` is the invalid-argument answer. */
  function PublishStep(codec: Codec, s: Store, e: ConfigEntry): (Store, Option<int>) {
    if !Publishable(AddressOf(e)) then (s, None)
    else
      var stamped := Stamped(s, e);
      var a := AddressOf(stamped);
      var local := Remember(s, a, stamped).(nextVersion := FetchAdd(s.nextVersion));
      var written :=
        if local.mysql.None? then local
        else local.(mysql := Some(Upserted(local.mysql.value, ToMysqlRow(stamped), KEY_FIELDS)));
      (CacheSet(codec, written, a, stamped), Some(stamped.version))
  }

  predicate Collects(e: ConfigEntry, ns: string, sinceVersion: int) {
    e.ns == ns && e.version > sinceVersion
  }

  /** The entries of a namespace newer than a version. */
  function Collected(entries: map<string, ConfigEntry>, ns: string, sinceVersion: int): set<ConfigEntry> {
    set k | k in entries && Collects(entries[k], ns, sinceVersion) :: entries[k]
  }

  /** The keys they are stored under: every entry is delivered once for its key. */
  function CollectedKeys(entries: map<string, ConfigEntry>, ns: string, sinceVersion: int): set<string> {
    set k | k in entries && Collects(entries[k], ns, sinceVersion)
  }

  lemma CollectedThroughKeys(
      entries: map<string, ConfigEntry>, ns: string, sinceVersion: int, keys: seq<string>, out: seq<ConfigEntry>)
    requires |out| == |keys| && forall i, j | 0 <= i < j < |keys| :: keys[i] != keys[j]
    requires forall i | 0 <= i < |keys| :: keys[i] in entries && out[i] == entries[keys[i]]
    requires forall k | k in entries :: k in keys <==> Collects(entries[k], ns, sinceVersion)
    ensures (set e | e in out) == Collected(entries, ns, sinceVersion)
    ensures |out| == |CollectedKeys(entries, ns, sinceVersion)|
  {
    DistinctCount(keys);
    assert (set k | k in keys) == CollectedKeys(entries, ns, sinceVersion);
    forall e | e in Collected(entries, ns, sinceVersion)
      ensures e in out
    {
      var k :| k in entries && entries[k] == e && Collects(e, ns, sinceVersion);
      var i :| 0 <= i < |keys| && keys[i] == k;
      assert out[i] == e;
    }
    forall e | e in out
      ensures e in Collected(entries, ns, sinceVersion)
    {
      var i :| 0 <= i < |out| && out[i] == e;
      assert keys[i] in keys && keys[i] in entries;
    }
  }

  class ConfigServiceImpl {
    var entries: map<string, ConfigEntry>
    var nextVersion: int
    const mysql: ConnectionPool?
    const redis: RS.RedisClient?
    const codec: Codec

    function Model(): Store
      reads this, mysql, redis
    {
      Store(entries, nextVersion,
            if mysql == null then None else Some(TableOf(mysql.tables, "config_entries")),
            if redis == null then None else Some(redis.kv))
    }

    /** The rows of the table sit under their own composite keys. */
    ghost predicate Valid()
      reads this, mysql
    {
      mysql != null ==> Keyed(TableOf(mysql.tables, "config_entries"), KEY_FIELDS)
    }

    constructor (mysql: ConnectionPool?, redis: RS.RedisClient?, codec: Codec)
      ensures this.mysql == mysql && this.redis == redis && this.codec == codec
      ensures entries == map[] && nextVersion == 1
    {
      this.mysql, this.redis, this.codec := mysql, redis, codec;
      entries, nextVersion := map[], 1;
    }

    /** The front of the rows found for the address, which is the only one. */
    static method FirstRow(mysql: ConnectionPool, a: Address) returns (row: Option<QueryRow>)
      requires Keyed(TableOf(mysql.tables, "config_entries"), KEY_FIELDS)
      ensures row == RowFor(TableOf(mysql.tables, "config_entries"), a)
    {
      var rows, keys := mysql.FindRows("config_entries", Filters(a));
      ExactLookup(TableOf(mysql.tables, "config_entries"), Filters(a), KEY_FIELDS);
      if |rows| == 0 {
        assert keys == [];
        return None;
      }
      assert keys[0] in (set key | key in keys);
      assert keys[0] in MatchingKeys(TableOf(mysql.tables, "config_entries"), Filters(a));
      return Some(rows[0]);
    }

    method FindEntry(asked: Address, now: real) returns (found: Found)
      requires Valid()
      modifies this, redis
      ensures Valid()
      ensures (Model(), found) == FindStep(codec, old(Model()), asked, now)
    {
      hide StoreKey, CacheKey, FromMysqlRow;
      var a := Normal(asked);
      if redis != null {
        var cached := redis.Get(CacheKey(a), now);
        if cached.Some? {
          var parsed := codec.parse(cached.value);
          if parsed.Parsed? {
            return Entry(parsed.value);
          } else if parsed.Throws? {
            return Threw;
          }
        }
      }
      if mysql != null {
        var row := FirstRow(mysql, a);
        if row.Some? {
          var e := FromMysqlRow(row.value);
          if e.None? {
            return Threw;
          }
          if redis != null {
            var done := redis.Set(CacheKey(a), codec.print_(e.value));
          }
          entries := entries[StoreKey(a) := e.value];
          return Entry(e.value);
        }
      }
      if StoreKey(a) in entries {
        return Entry(entries[StoreKey(a)]);
      }
      return Missing;
    }

    method PublishConfig(e: ConfigEntry) returns (version: Option<int>)
      requires Valid()
      modifies this, mysql, redis
      ensures Valid()
      ensures (Model(), version) == PublishStep(codec, old(Model()), e)
      ensures version == if e.ns == "" || e.key == "" then None else Some(old(nextVersion))
    {
      hide Keyed, Upserted;
      if e.ns == "" || e.key == "" {
        return None;
      }
      var stamped := e.(env := DefaultEnv(e.env), version := nextVersion);
      nextVersion := FetchAdd(nextVersion);
      entries := entries[StoreKey(AddressOf(stamped)) := stamped];
      if mysql != null {
        UpsertKeepsKeyed(TableOf(mysql.tables, "config_entries"), ToMysqlRow(stamped), KEY_FIELDS);
        var done := mysql.UpsertRow("config_entries", ToMysqlRow(stamped), KEY_FIELDS);
      }
      if redis != null {
        var done := redis.Set(CacheKey(AddressOf(stamped)), codec.print_(stamped));
      }
      return Some(stamped.version);
    }

    /** The entries newer than the version, in whatever order the map is walked. */
    method CollectNamespace(ns: string, sinceVersion: int) returns (out: seq<ConfigEntry>)
      ensures (set e | e in out) == Collected(entries, ns, sinceVersion)
      ensures forall e :: e in out <==>
                exists k :: k in entries && entries[k] == e && entries[k].ns == ns && entries[k].version > sinceVersion
      ensures |out| == |set k | k in entries && entries[k].ns == ns && entries[k].version > sinceVersion|
    {
      out := [];
      ghost var keys: seq<string> := [];
      var rest := entries.Keys;
      while rest != {}
        invariant rest <= entries.Keys
        invariant |out| == |keys|
        invariant forall i | 0 <= i < |keys| :: keys[i] in entries && keys[i] !in rest && out[i] == entries[keys[i]]
        invariant forall i, j | 0 <= i < j < |keys| :: keys[i] != keys[j]
        invariant forall k | k in entries && k !in rest :: k in keys <==> Collects(entries[k], ns, sinceVersion)
        decreases |rest|
      {
        var k :| k in rest;
        if entries[k].ns == ns && entries[k].version > sinceVersion {
          out, keys := out + [entries[k]], keys + [k];
        }
        rest := rest - {k};
      }
      CollectedThroughKeys(entries, ns, sinceVersion, keys, out);
      assert CollectedKeys(entries, ns, sinceVersion)
          == set k | k in entries && entries[k].ns == ns && entries[k].version > sinceVersion;
      assert forall e :: e in out <==> e in Collected(entries, ns, sinceVersion);
    }
  }

  // -------------------------------------------------------------------------------------------
  // A publish and a find, tier by tier
  // -------------------------------------------------------------------------------------------

  /** A publish without namespace or key changes nothing. Any other is given the counter's value and the
    * environment "dev" if it has none, and then stands in the local map, in its row and in the cache. */
  lemma PublishedIsInEveryTier(codec: Codec, s: Store, e: ConfigEntry)
    ensures
      var after, version := PublishStep(codec, s, e).0, PublishStep(codec, s, e).1;
      if e.ns == "" || e.key == "" then after == s && version == None
      else
        var env := if e.env == "" then "dev" else e.env;
        var stamped := ConfigEntry(e.ns, e.key, e.value, s.nextVersion, env);
        && version == Some(s.nextVersion)
        && after.nextVersion
           == (if s.nextVersion == 0x7FFF_FFFF_FFFF_FFFF then -0x8000_0000_0000_0000 else s.nextVersion + 1)
        && after.entries == s.entries[env + "|" + e.ns + "|" + e.key := stamped]
        && (s.mysql.None? ==> after.mysql.None?)
        && (s.mysql.Some? ==>
              after.mysql == Some(s.mysql.value[e.ns + "|" + e.key + "|" + env :=
                map["namespace_name" := e.ns, "key" := e.key, "value" := e.value,
                    "version" := Decimal.ToString(s.nextVersion), "environment" := env]]))
        && (s.redis.None? ==> after.redis.None?)
        && (s.redis.Some? ==>
              after.redis == Some(s.redis.value["config:" + env + ":" + e.ns + ":" + e.key :=
                RS.ValueEntry(codec.print_(stamped), None)]))
  {
    hide CompositeKey;
    if Publishable(AddressOf(e)) {
      var stamped := Stamped(s, e);
      CompositeOfRow(stamped);
      assert CacheKey(AddressOf(stamped)) == "config:" + stamped.env + ":" + e.ns + ":" + e.key;
      assert StoreKey(AddressOf(stamped)) == stamped.env + "|" + e.ns + "|" + e.key;
    }
  }

  lemma CompositeOfRow(e: ConfigEntry)
    requires e.ns != ""
    ensures CompositeKey(ToMysqlRow(e), KEY_FIELDS) == e.ns + "|" + e.key + "|" + e.env
  {
    CompositeShape(AddressOf(e));
    MatchingRowsShareTheKey("", ToMysqlRow(e), Filters(AddressOf(e)), KEY_FIELDS);
  }

  /** What the cache holds for the address and has not let run out. */
  function Payload(s: Store, ns: string, key: string, env: string, now: real): Option<string> {
    if s.redis.None? then None
    else
      var cacheKey := "config:" + (if env == "" then "dev" else env) + ":" + ns + ":" + key;
      if cacheKey in s.redis.value && !RS.Expired(s.redis.value[cacheKey], now) then Some(s.redis.value[cacheKey].value)
      else None
  }

  lemma PayloadIsCached(codec: Codec, s: Store, ns: string, key: string, env: string, now: real)
    ensures Cached(codec, s, Normal(Address(ns, key, env)), now) ==
      match Payload(s, ns, key, env, now) case None => Discarded case Some(payload) => codec.parse(payload)
  {
    var name := if env == "" then "dev" else env;
    assert CacheKey(Normal(Address(ns, key, env))) == "config:" + name + ":" + ns + ":" + key;
  }

  /** A payload that parses is the answer, one that makes the parser throw ends the find, and nothing is
    * filled back. */
  lemma CachedEntryIsReturned(codec: Codec, s: Store, ns: string, key: string, env: string, now: real)
    requires Payload(s, ns, key, env, now).Some? && !codec.parse(Payload(s, ns, key, env, now).value).Discarded?
    ensures
      var whole := FindStep(codec, s, Address(ns, key, env), now);
      var parsed := codec.parse(Payload(s, ns, key, env, now).value);
      && whole.1 == (if parsed.Parsed? then Entry(parsed.value) else Threw)
      && whole.0.entries == s.entries && whole.0.mysql == s.mysql && whole.0.nextVersion == s.nextVersion
  {
    PayloadIsCached(codec, s, ns, key, env, now);
    hide Cached, Payload;
  }

  /** The row holds the three key fields looked for. */
  predicate RowOf(row: QueryRow, ns: string, key: string, env: string) {
    && "namespace_name" in row && row["namespace_name"] == ns
    && "key" in row && row["key"] == key
    && "environment" in row && row["environment"] == (if env == "" then "dev" else env)
  }

  /** Else a row of the address that parses is the answer, and afterwards cache and local map hold it. */
  lemma StoredEntryIsReturned(
      codec: Codec, s: Store, ns: string, key: string, env: string, k: string, e: ConfigEntry, now: real)
    requires Payload(s, ns, key, env, now).None? || codec.parse(Payload(s, ns, key, env, now).value).Discarded?
    requires s.mysql.Some? && Keyed(s.mysql.value, KEY_FIELDS) && k in s.mysql.value
    requires RowOf(s.mysql.value[k], ns, key, env) && FromMysqlRow(s.mysql.value[k]) == Some(e)
    ensures
      var name := if env == "" then "dev" else env;
      var whole := FindStep(codec, s, Address(ns, key, env), now);
      && whole.1 == Entry(e) && whole.0.mysql == s.mysql && whole.0.nextVersion == s.nextVersion
      && whole.0.entries == s.entries[name + "|" + ns + "|" + key := e]
      && (s.redis.Some? ==>
            var cacheKey := "config:" + name + ":" + ns + ":" + key;
            whole.0.redis.Some? && cacheKey in whole.0.redis.value
            && whole.0.redis.value[cacheKey] == RS.ValueEntry(codec.print_(e), None))
  {
    var a, name := Normal(Address(ns, key, env)), if env == "" then "dev" else env;
    PayloadIsCached(codec, s, ns, key, env, now);
    assert CacheKey(a) == "config:" + name + ":" + ns + ":" + key && StoreKey(a) == name + "|" + ns + "|" + key;
    RowOfIsStored(s, ns, key, env, k);
    hide Cached, Payload, FromMysqlRow, StoreKey, CacheKey, Stored;
  }

  /** A row whose version cannot be read ends the find instead, and nothing is filled back. */
  lemma UnreadableEntryThrows(codec: Codec, s: Store, ns: string, key: string, env: string, k: string, now: real)
    requires Payload(s, ns, key, env, now).None? || codec.parse(Payload(s, ns, key, env, now).value).Discarded?
    requires s.mysql.Some? && Keyed(s.mysql.value, KEY_FIELDS) && k in s.mysql.value
    requires RowOf(s.mysql.value[k], ns, key, env)
    requires "version" in s.mysql.value[k] && Decimal.Stoll(s.mysql.value[k]["version"]).None?
    ensures
      var whole := FindStep(codec, s, Address(ns, key, env), now);
      && whole.1 == Threw
      && whole.0.entries == s.entries && whole.0.mysql == s.mysql && whole.0.nextVersion == s.nextVersion
  {
    PayloadIsCached(codec, s, ns, key, env, now);
    RowOfIsStored(s, ns, key, env, k);
    hide Cached, Payload, StoreKey, CacheKey, Stored, Decimal.Stoll;
  }

  lemma RowOfIsStored(s: Store, ns: string, key: string, env: string, k: string)
    requires s.mysql.Some? && Keyed(s.mysql.value, KEY_FIELDS)
    requires k in s.mysql.value && RowOf(s.mysql.value[k], ns, key, env)
    ensures Stored(s, Normal(Address(ns, key, env))) == Some(s.mysql.value[k])
  {
    var a := Normal(Address(ns, key, env));
    ExactLookup(s.mysql.value, Filters(a), KEY_FIELDS);
    assert k in MatchingKeys(s.mysql.value, Filters(a));
  }

  /** Else the local map decides. */
  lemma MappedEntryIsReturned(codec: Codec, s: Store, ns: string, key: string, env: string, now: real)
    requires Payload(s, ns, key, env, now).None? || codec.parse(Payload(s, ns, key, env, now).value).Discarded?
    requires s.mysql.Some? ==> forall k | k in s.mysql.value :: !RowOf(s.mysql.value[k], ns, key, env)
    ensures
      var whole, storeKey := FindStep(codec, s, Address(ns, key, env), now),
                             (if env == "" then "dev" else env) + "|" + ns + "|" + key;
      && whole.1 == (if storeKey in s.entries then Entry(s.entries[storeKey]) else Missing)
      && whole.0.entries == s.entries && whole.0.mysql == s.mysql && whole.0.nextVersion == s.nextVersion
  {
    var a, name := Normal(Address(ns, key, env)), if env == "" then "dev" else env;
    PayloadIsCached(codec, s, ns, key, env, now);
    assert StoreKey(a) == name + "|" + ns + "|" + key;
    assert Stored(s, a).None?;
    hide Cached, Payload, StoreKey, CacheKey, Stored;
  }
}
