/** The user service, one atomic step at a time. Creating a user claims an id, then writes the local
  * map, the database and the cache; finding one reads cache, database and map and fills back. A
  * request is a thread; threads interleave arbitrarily and the cache may lose keys at any moment. */
module UserService {
  import opened Wrappers
  import opened MysqlPool
  import RS = RedisStore
  import Decimal

  datatype UserProfile = UserProfile(userId: string, nickname: string, avatar: string, level: int, createdAt: int)

  /** The JSON library: a printer and a parser that may give up or throw. */
  datatype Codec = Codec(print_: UserProfile -> string, parse: string -> Parsed<UserProfile>) {
    ghost predicate Faithful() {
      forall p: UserProfile :: parse(print_(p)) == Parsed(p)
    }
  }

  function CacheKey(userId: string): string {
    "user:" + userId
  }

  function UserId(n: int): string {
    "user_" + Decimal.ToString(n)
  }

  const KEY_FIELDS: seq<string> := ["user_id"]

  function ToMysqlRow(p: UserProfile): QueryRow {
    map["user_id" := p.userId, "nickname" := p.nickname, "avatar" := p.avatar,
        "level" := Decimal.ToString(p.level), "created_at" := Decimal.ToString(p.createdAt)]
  }

  /** `None` when a number's text makes its parser throw; absent fields keep their defaults. */
  function FromMysqlRow(row: QueryRow): Option<UserProfile> {
    var level := if "level" in row then Decimal.Stoi(row["level"]) else Some(0);
    var createdAt := if "created_at" in row then Decimal.Stoll(row["created_at"]) else Some(0);
    if level.None? || createdAt.None? then None
    else
      Some(UserProfile(FieldOf(row, "user_id"), FieldOf(row, "nickname"), FieldOf(row, "avatar"), level.value,
          createdAt.value))
  }

  lemma RowRoundTrip(p: UserProfile)
    ensures FromMysqlRow(ToMysqlRow(p))
         == if Decimal.FitsInt32(p.level) && Decimal.FitsInt64(p.createdAt) then Some(p) else None
  {
    Decimal.RoundTrip(p.level);
    Decimal.RoundTrip(p.createdAt);
  }

  /** A row that lacks a field is read with the field's default. */
  lemma MissingFieldsAreDefaults(p: UserProfile)
    requires Decimal.FitsInt32(p.level) && Decimal.FitsInt64(p.createdAt)
    ensures FromMysqlRow(ToMysqlRow(p) - {"user_id"}) == Some(p.(userId := ""))
    ensures FromMysqlRow(ToMysqlRow(p) - {"nickname"}) == Some(p.(nickname := ""))
    ensures FromMysqlRow(ToMysqlRow(p) - {"avatar"}) == Some(p.(avatar := ""))
    ensures FromMysqlRow(ToMysqlRow(p) - {"level"}) == Some(p.(level := 0))
    ensures FromMysqlRow(ToMysqlRow(p) - {"created_at"}) == Some(p.(createdAt := 0))
  {
    hide Decimal.Stoi, Decimal.Stoll, Decimal.ToString;
    Decimal.RoundTrip(p.level);
    Decimal.RoundTrip(p.createdAt);
  }

  datatype Shared = Shared(
    users: map<string, UserProfile>, nextUserId: int, mysql: Option<Table>, redis: Option<RS.Kv>)

  datatype CreateStage = WriteMap | WriteTable | WriteCache | Created

  datatype FindStage =
    | ReadCache
    | ReadTable
    | FillCache(profile: UserProfile)
    | FillMap(profile: UserProfile)
    | ReadMap
    | Returned(found: Option<UserProfile>)
    | Threw

  function NewProfile(n: int, nickname: string, now: int): UserProfile {
    UserProfile(UserId(n), if nickname == "" then "anonymous" else nickname, "", 1, now)
  }

  function CacheSet(codec: Codec, s: Shared, p: UserProfile, userId: string): Shared {
    if s.redis.None? then s
    else s.(redis := Some(RS.Step(s.redis.value, RS.Set(CacheKey(userId), codec.print_(p)), 0.0)))
  }

  function CreateAdvance(codec: Codec, s: Shared, p: UserProfile, stage: CreateStage): (Shared, CreateStage) {
    match stage
    case WriteMap => (s.(users := s.users[p.userId := p]), WriteTable)
    case WriteTable =>
      (if s.mysql.None? then s else s.(mysql := Some(Upserted(s.mysql.value, ToMysqlRow(p), KEY_FIELDS))), WriteCache)
    case WriteCache => (CacheSet(codec, s, p, p.userId), Created)
    case Created => (s, Created)
  }

  function CacheGet(s: Shared, userId: string, now: real): Shared {
    if s.redis.None? then s else s.(redis := Some(RS.Step(s.redis.value, RS.Get(CacheKey(userId)), now)))
  }

  function Cached(codec: Codec, s: Shared, userId: string, now: real): Parsed<UserProfile> {
    if s.redis.None? then Discarded
    else
      match RS.GetAnswer(s.redis.value, CacheKey(userId), now)
      case None => Discarded
      case Some(payload) => codec.parse(payload)
  }

  /** The row stored under the id, if that is its id field. */
  function RowFor(s: Shared, userId: string): Option<QueryRow> {
    if s.mysql.None? then None
    else
      var table := s.mysql.value;
      if userId in table && FieldOf(table[userId], "user_id") == userId && "user_id" in table[userId]
          then Some(table[userId])
      else None
  }

  function FindAdvance(codec: Codec, s: Shared, userId: string, stage: FindStage, now: real): (Shared, FindStage) {
    match stage
    case ReadCache =>
      var cached := Cached(codec, s, userId, now);
      (CacheGet(s, userId, now),
       match cached
       case Parsed(p) => Returned(Some(p))
       case Throws => FindStage.Threw
       case Discarded => ReadTable)
    case ReadTable =>
      (match RowFor(s, userId)
       case None => (s, ReadMap)
       case Some(row) =>
         (match FromMysqlRow(row)
          case None => (s, Threw)
          case Some(p) => (s, FillCache(p))))
    case FillCache(p) => (CacheSet(codec, s, p, userId), FillMap(p))
    case FillMap(p) => (s.(users := s.users[userId := p]), Returned(Some(p)))
    case ReadMap => (s, Returned(if userId in s.users then Some(s.users[userId]) else None))
    case Returned(_) => (s, stage)
    case Threw => (s, stage)
  }

  // -------------------------------------------------------------------------------------------
  // The methods, which take their steps one after the other
  // -------------------------------------------------------------------------------------------

  function CreateToEnd(codec: Codec, s: Shared, p: UserProfile, stage: CreateStage): Shared
    decreases match stage case WriteMap => 3 case WriteTable => 2 case WriteCache => 1 case Created => 0
  {
    if stage == Created then s
    else
      var next := CreateAdvance(codec, s, p, stage);
      CreateToEnd(codec, next.0, p, next.1)
  }

  function FindToEnd(codec: Codec, s: Shared, userId: string, stage: FindStage, now: real): (Shared, FindStage)
    decreases match stage
              case ReadCache => 5 case ReadTable => 4 case FillCache(_) => 3 case FillMap(_) => 2
              case ReadMap => 1 case Returned(_) => 0 case Threw => 0
  {
    if stage.Returned? || stage.Threw? then (s, stage)
    else
      var next := FindAdvance(codec, s, userId, stage, now);
      FindToEnd(codec, next.0, userId, next.1, now)
  }

  class UserServiceImpl {
    var users: map<string, UserProfile>
    var nextUserId: int
    const mysql: ConnectionPool?
    const redis: RS.RedisClient?
    const codec: Codec

    function Model(): Shared
      reads this, mysql, redis
    {
      Shared(users, nextUserId,
             if mysql == null then None else Some(TableOf(mysql.tables, "users")),
             if redis == null then None else Some(redis.kv))
    }

    /** The rows of the table sit under their own ids. */
    ghost predicate Valid()
      reads this, mysql
    {
      mysql != null ==> Keyed(TableOf(mysql.tables, "users"), KEY_FIELDS)
    }

    constructor (mysql: ConnectionPool?, redis: RS.RedisClient?, codec: Codec)
      ensures this.mysql == mysql && this.redis == redis && this.codec == codec
      ensures users == map[] && nextUserId == 1
    {
      this.mysql, this.redis, this.codec := mysql, redis, codec;
      users, nextUserId := map[], 1;
    }

    method TableRow(userId: string) returns (row: Option<QueryRow>)
      requires Valid()
      ensures row == RowFor(Model(), userId)
    {
      if mysql == null {
        return None;
      }
      row := mysql.GetRow("users", "user_id", userId);
      ghost var table := TableOf(mysql.tables, "users");
      KeyedById(table, userId);
    }

    method FindUser(userId: string, now: real) returns (found: FindStage)
      requires Valid()
      modifies this, redis
      ensures Valid() && (found.Returned? || found.Threw?)
      ensures (Model(), found) == FindToEnd(codec, old(Model()), userId, ReadCache, now)
    {
      if redis != null {
        var cached := redis.Get(CacheKey(userId), now);
        if cached.Some? {
          var parsed := codec.parse(cached.value);
          if parsed.Parsed? {
            return Returned(Some(parsed.value));
          } else if parsed.Throws? {
            return Threw;
          }
        }
      }
      var row := TableRow(userId);
      if row.Some? {
        var p := FromMysqlRow(row.value);
        if p.None? {
          return Threw;
        }
        if redis != null {
          var done := redis.Set(CacheKey(userId), codec.print_(p.value));
        }
        users := users[userId := p.value];
        FillsToEnd(codec, CacheGet(old(Model()), userId, now), userId, p.value, now);
        return Returned(p);
      }
      if userId in users {
        return Returned(Some(users[userId]));
      }
      return Returned(None);
    }

    method CreateUser(nickname: string, now: int) returns (p: UserProfile)
      requires Valid()
      modifies this, mysql, redis
      ensures Valid()
      ensures p == NewProfile(old(nextUserId), nickname, now)
      ensures p.userId == "user_" + Decimal.ToString(old(nextUserId))
      ensures p.nickname == (if nickname == "" then "anonymous" else nickname) && p.avatar == ""
      ensures p.level == 1 && p.createdAt == now
      ensures nextUserId ==
              if old(nextUserId) == 0x7FFF_FFFF_FFFF_FFFF then -0x8000_0000_0000_0000 else old(nextUserId) + 1
      ensures Model() == CreateToEnd(codec, old(Model()).(nextUserId := FetchAdd(old(nextUserId))), p, WriteMap)
    {
      hide Keyed, Upserted, CreateToEnd, CreateAdvance, ToMysqlRow;
      p := UserProfile(UserId(nextUserId), if nickname == "" then "anonymous" else nickname, "", 1, now);
      CreatesToEnd(codec, Model().(nextUserId := FetchAdd(nextUserId)), p);
      nextUserId := FetchAdd(nextUserId);
      users := users[p.userId := p];
      if mysql != null {
        UpsertKeepsKeyed(TableOf(mysql.tables, "users"), ToMysqlRow(p), KEY_FIELDS);
        var done := mysql.UpsertRow("users", ToMysqlRow(p), KEY_FIELDS);
      }
      if redis != null {
        var done := redis.Set(CacheKey(p.userId), codec.print_(p));
      }
    }
  }

  lemma CreatesToEnd(codec: Codec, s: Shared, p: UserProfile)
    ensures
      var mapped := s.(users := s.users[p.userId := p]);
      var tabled :=
        if s.mysql.None? then mapped
        else mapped.(mysql := Some(Upserted(s.mysql.value, ToMysqlRow(p), KEY_FIELDS)));
      CreateToEnd(codec, s, p, WriteMap) == CacheSet(codec, tabled, p, p.userId)
  {
    hide ToMysqlRow, Upserted;
    var mapped := CreateAdvance(codec, s, p, WriteMap).0;
    var tabled := CreateAdvance(codec, mapped, p, WriteTable).0;
    assert CreateToEnd(codec, tabled, p, WriteCache) == CreateAdvance(codec, tabled, p, WriteCache).0;
    assert CreateToEnd(codec, mapped, p, WriteTable) == CreateToEnd(codec, tabled, p, WriteCache);
  }

  lemma FillsToEnd(codec: Codec, s: Shared, userId: string, p: UserProfile, now: real)
    ensures
      var filled := CacheSet(codec, s, p, userId);
      FindToEnd(codec, s, userId, FillCache(p), now) == (filled.(users := filled.users[userId := p]), Returned(Some(p)))
  {
    var filled := CacheSet(codec, s, p, userId);
    var mapped := filled.(users := filled.users[userId := p]);
    assert FindAdvance(codec, s, userId, FillCache(p), now) == (filled, FillMap(p));
    assert FindAdvance(codec, filled, userId, FillMap(p), now) == (mapped, Returned(Some(p)));
    assert FindToEnd(codec, mapped, userId, Returned(Some(p)), now) == (mapped, Returned(Some(p)));
    assert FindToEnd(codec, filled, userId, FillMap(p), now) == (mapped, Returned(Some(p)));
  }

  /** In a table keyed by id the rows with an id are at most the one stored under it. */
  lemma KeyedById(table: Table, userId: string)
    requires Keyed(table, KEY_FIELDS)
    ensures MatchingKeys(table, map["user_id" := userId])
         == if userId in table && "user_id" in table[userId] && table[userId]["user_id"] == userId then {userId} else {}
  {
    ExactLookup(table, map["user_id" := userId], KEY_FIELDS);
    CompositeOfId(map["user_id" := userId]);
  }

  lemma CompositeOfId(row: QueryRow)
    ensures CompositeKey(row, KEY_FIELDS) == FieldOf(row, "user_id")
  {
    assert KEY_FIELDS[1..] == [];
    assert "" + FieldOf(row, "user_id") == FieldOf(row, "user_id");
    assert CompositeFrom("", row, KEY_FIELDS) == CompositeFrom(FieldOf(row, "user_id"), row, []);
  }

  // -------------------------------------------------------------------------------------------
  // A lookup and a create, tier by tier
  // -------------------------------------------------------------------------------------------

  /** What the cache holds for the id and has not let run out. */
  function Payload(s: Shared, userId: string, now: real): Option<string> {
    if s.redis.Some? && "user:" + userId in s.redis.value && !RS.Expired(s.redis.value["user:" + userId], now)
    then Some(s.redis.value["user:" + userId].value)
    else None
  }

  /** A payload that parses is the answer and nothing is filled back. */
  lemma CachedProfileIsReturned(codec: Codec, s: Shared, userId: string, now: real)
    requires Payload(s, userId, now).Some? && codec.parse(Payload(s, userId, now).value).Parsed?
    ensures
      var whole := FindToEnd(codec, s, userId, ReadCache, now);
      && whole.1 == Returned(Some(codec.parse(Payload(s, userId, now).value).value))
      && whole.0.users == s.users && whole.0.mysql == s.mysql
  {
  }

  /** A payload that makes the parser throw ends the lookup, and so does a row with a number that cannot be
    * read, once the cache has nothing; neither changes map or table. */
  lemma UnreadableProfileThrows(codec: Codec, s: Shared, userId: string, now: real)
    requires
      var payload := Payload(s, userId, now);
      || (payload.Some? && codec.parse(payload.value).Throws?)
      || (&& (payload.Some? ==> codec.parse(payload.value).Discarded?)
          && s.mysql.Some? && userId in s.mysql.value && FromMysqlRow(s.mysql.value[userId]).None?
          && "user_id" in s.mysql.value[userId] && s.mysql.value[userId]["user_id"] == userId)
    ensures
      var whole := FindToEnd(codec, s, userId, ReadCache, now);
      whole.1 == Threw && whole.0.users == s.users && whole.0.mysql == s.mysql
  {
    hide FromMysqlRow;
    var read := CacheGet(s, userId, now);
    var step := FindAdvance(codec, s, userId, ReadCache, now);
    assert step == (read, if Cached(codec, s, userId, now).Throws? then FindStage.Threw else ReadTable);
    assert FindToEnd(codec, s, userId, ReadCache, now) == FindToEnd(codec, read, userId, step.1, now);
  }

  /** Else a row with the id that parses is the answer, and afterwards cache and local map hold it. */
  lemma StoredProfileIsReturned(codec: Codec, s: Shared, userId: string, row: QueryRow, p: UserProfile, now: real)
    requires Payload(s, userId, now).None? || codec.parse(Payload(s, userId, now).value).Discarded?
    requires s.mysql.Some? && userId in s.mysql.value && s.mysql.value[userId] == row
    requires "user_id" in row && row["user_id"] == userId && FromMysqlRow(row) == Some(p)
    ensures
      var whole := FindToEnd(codec, s, userId, ReadCache, now);
      && whole.1 == Returned(Some(p))
      && whole.0.users == s.users[userId := p] && whole.0.mysql == s.mysql
      && (s.redis.Some? ==>
            whole.0.redis.Some? && "user:" + userId in whole.0.redis.value
            && whole.0.redis.value["user:" + userId] == RS.ValueEntry(codec.print_(p), None))
  {
    hide FromMysqlRow;
    var read := CacheGet(s, userId, now);
    assert FindAdvance(codec, s, userId, ReadCache, now) == (read, ReadTable);
    assert RowFor(read, userId) == Some(row);
    assert FindToEnd(codec, s, userId, ReadCache, now) == FindToEnd(codec, read, userId, FillCache(p), now);
    FillsToEnd(codec, read, userId, p, now);
  }

  /** Else the local map decides. */
  lemma MappedProfileIsReturned(codec: Codec, s: Shared, userId: string, now: real)
    requires Payload(s, userId, now).None? || codec.parse(Payload(s, userId, now).value).Discarded?
    requires s.mysql.None? || userId !in s.mysql.value
    ensures
      var whole := FindToEnd(codec, s, userId, ReadCache, now);
      && whole.1 == Returned(if userId in s.users then Some(s.users[userId]) else None)
      && whole.0.users == s.users && whole.0.mysql == s.mysql
  {
    var read := CacheGet(s, userId, now);
    assert FindAdvance(codec, s, userId, ReadCache, now) == (read, ReadTable);
    assert FindToEnd(codec, s, userId, ReadCache, now) == FindToEnd(codec, read, userId, ReadMap, now);
  }

  /** A create leaves its profile in the local map, its row under the id, and its payload in the cache. */
  lemma CreatedIsInEveryTier(codec: Codec, s: Shared, p: UserProfile)
    ensures
      var after := CreateToEnd(codec, s, p, WriteMap);
      && after.users == s.users[p.userId := p] && after.nextUserId == s.nextUserId
      && (s.mysql.Some? ==> after.mysql == Some(s.mysql.value[p.userId := ToMysqlRow(p)]))
      && (s.mysql.None? ==> after.mysql.None?)
      && (s.redis.Some? ==>
            after.redis == Some(s.redis.value["user:" + p.userId := RS.ValueEntry(codec.print_(p), None)]))
      && (s.redis.None? ==> after.redis.None?)
  {
    hide ToMysqlRow, CreateToEnd;
    CompositeOfId(ToMysqlRow(p));
    IdOfRow(p);
    CreatesToEnd(codec, s, p);
  }

  lemma IdOfRow(p: UserProfile)
    ensures FieldOf(ToMysqlRow(p), "user_id") == p.userId
  {
  }
}
