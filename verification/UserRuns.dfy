/** Every interleaving of the steps of any number of CreateUser and FindUser requests, over backends
  * that were empty at the start, with the cache losing keys or getting deadlines at any moment. */
module UserRuns {
  import opened Wrappers
  import opened UserService
  import opened MysqlPool
  import RS = RedisStore
  import Decimal

  /** `due` remembers whether the id was already in the local map when the lookup began. */
  datatype Thread =
    | Creator(profile: UserProfile, create: CreateStage)
    | Finder(userId: string, due: bool, find: FindStage)

  /** `created` records every profile under the id it was created with. */
  datatype State = State(shared: Shared, created: map<string, UserProfile>, threads: seq<Thread>)

  datatype Action =
    | BeginCreate(nickname: string, createdAt: int)
    | BeginFind(userId: string)
    | Advance(thread: nat, now: real)
    | Disturb(kv: RS.Kv)

  predicate Enabled(s: State, action: Action) {
    match action
    case BeginCreate(_, createdAt) => Decimal.FitsInt64(createdAt)
    case BeginFind(_) => true
    case Advance(i, _) => i < |s.threads|
    case Disturb(kv) => s.shared.redis.Some? && RS.Shrinks(s.shared.redis.value, kv)
  }

  function AdvanceThread(codec: Codec, shared: Shared, thread: Thread, now: real): (Shared, Thread) {
    match thread
    case Creator(p, stage) =>
      var next := CreateAdvance(codec, shared, p, stage);
      (next.0, Creator(p, next.1))
    case Finder(userId, due, stage) =>
      var next := FindAdvance(codec, shared, userId, stage, now);
      (next.0, Finder(userId, due, next.1))
  }

  function Step(codec: Codec, s: State, action: Action): State
    requires Enabled(s, action)
  {
    match action
    case BeginCreate(nickname, createdAt) =>
      var p := NewProfile(s.shared.nextUserId, nickname, createdAt);
      State(s.shared.(nextUserId := FetchAdd(s.shared.nextUserId)), s.created[p.userId := p],
          s.threads + [Creator(p, WriteMap)])
    case BeginFind(userId) =>
      s.(threads := s.threads + [Finder(userId, userId in s.shared.users, ReadCache)])
    case Advance(i, now) =>
      var next := AdvanceThread(codec, s.shared, s.threads[i], now);
      s.(shared := next.0, threads := s.threads[i := next.1])
    case Disturb(kv) => s.(shared := s.shared.(redis := Some(kv)))
  }

  function Init(mysql: bool, redis: bool): State {
    State(Shared(map[], 1, if mysql then Some(map[]) else None, if redis then Some(map[]) else None), map[], [])
  }

  ghost predicate IsRun(codec: Codec, mysql: bool, redis: bool, states: seq<State>, trace: seq<Action>) {
    && |states| == |trace| + 1
    && states[0] == Init(mysql, redis)
    && forall n | 0 <= n < |trace| :: Enabled(states[n], trace[n]) && states[n + 1] == Step(codec, states[n], trace[n])
  }

  // -------------------------------------------------------------------------------------------
  // What every step keeps
  // -------------------------------------------------------------------------------------------

  /** The number an id was made from. */
  function Number(userId: string): Option<int> {
    if |userId| < 5 then None else Decimal.Parse(userId[5..])
  }

  lemma NumberOfId(n: int)
    ensures Number(UserId(n)) == Some(n)
  {
    assert UserId(n)[5..] == Decimal.ToString(n);
    Decimal.ParseAfterToString(n);
  }

  ghost predicate IsCreated(created: map<string, UserProfile>, p: UserProfile) {
    p.userId in created && created[p.userId] == p
  }

  /** Profiles carry their own id, made from a number already used, and fit the columns. */
  ghost predicate CreatedKnown(created: map<string, UserProfile>, nextUserId: int) {
    forall id | id in created ::
      && created[id].userId == id
      && Number(id).Some? && Number(id).value < nextUserId
      && created[id].level == 1 && Decimal.FitsInt64(created[id].createdAt)
  }

  ghost predicate MapKnown(users: map<string, UserProfile>, created: map<string, UserProfile>) {
    forall id | id in users :: id in created && users[id] == created[id]
  }

  ghost predicate TableKnown(table: Table, created: map<string, UserProfile>) {
    && Keyed(table, KEY_FIELDS)
    && forall id | id in table :: id in created && table[id] == ToMysqlRow(created[id])
  }

  ghost predicate PayloadKnown(codec: Codec, created: map<string, UserProfile>, k: string, payload: string) {
    && codec.parse(payload).Parsed?
    && IsCreated(created, codec.parse(payload).value)
    && k == CacheKey(codec.parse(payload).value.userId)
  }

  ghost predicate CacheKnown(codec: Codec, kv: RS.Kv, created: map<string, UserProfile>) {
    forall k | k in kv :: PayloadKnown(codec, created, k, kv[k].value)
  }

  /** All tiers hold profiles as created, each under its own id. */
  ghost predicate SharedKnown(codec: Codec, shared: Shared, created: map<string, UserProfile>) {
    && MapKnown(shared.users, created)
    && (shared.mysql.Some? ==> TableKnown(shared.mysql.value, created))
    && (shared.redis.Some? ==> CacheKnown(codec, shared.redis.value, created))
  }

  /** A thread carries a profile as created; a lookup that is due will find its id in the local map. */
  ghost predicate ThreadKnown(thread: Thread, users: map<string, UserProfile>, created: map<string, UserProfile>) {
    match thread
    case Creator(p, stage) => IsCreated(created, p) && (stage != WriteMap ==> p.userId in users)
    case Finder(userId, due, stage) =>
      && (due ==> userId in users)
      && match stage
         case FillCache(p) => IsCreated(created, p) && p.userId == userId
         case FillMap(p) => IsCreated(created, p) && p.userId == userId
         case Returned(Some(p)) => IsCreated(created, p) && p.userId == userId
         case Returned(None) => !due
         case Threw => false
         case _ => true
  }

  ghost predicate NoIdTwice(threads: seq<Thread>) {
    forall i, j | 0 <= i < j < |threads| && threads[i].Creator? && threads[j].Creator? ::
      threads[i].profile.userId != threads[j].profile.userId
  }

  ghost predicate Inv(codec: Codec, s: State) {
    && CreatedKnown(s.created, s.shared.nextUserId)
    && SharedKnown(codec, s.shared, s.created)
    && (forall i | 0 <= i < |s.threads| :: ThreadKnown(s.threads[i], s.shared.users, s.created))
    && NoIdTwice(s.threads)
  }

  // Each tier on its own.

  lemma FillKeepsTable(table: Table, created: map<string, UserProfile>, p: UserProfile)
    requires TableKnown(table, created) && IsCreated(created, p)
    ensures TableKnown(Upserted(table, ToMysqlRow(p), KEY_FIELDS), created)
  {
    CompositeOfId(ToMysqlRow(p));
  }

  lemma FillKeepsCache(codec: Codec, kv: RS.Kv, created: map<string, UserProfile>, p: UserProfile)
    requires codec.Faithful() && CacheKnown(codec, kv, created) && IsCreated(created, p)
    ensures CacheKnown(codec, RS.Step(kv, RS.Set(CacheKey(p.userId), codec.print_(p)), 0.0), created)
  {
    assert codec.parse(codec.print_(p)) == Parsed(p);
  }

  lemma CacheReadIsRight(codec: Codec, shared: Shared, created: map<string, UserProfile>, userId: string, now: real)
    requires SharedKnown(codec, shared, created)
    ensures SharedKnown(codec, CacheGet(shared, userId, now), created)
    ensures
      var cached := Cached(codec, shared, userId, now);
      !cached.Throws? && (cached.Parsed? ==> IsCreated(created, cached.value) && cached.value.userId == userId)
  {
    if Cached(codec, shared, userId, now).Parsed? {
      var p := Cached(codec, shared, userId, now).value;
      assert CacheKey(p.userId)[5..] == p.userId && CacheKey(userId)[5..] == userId;
    }
  }

  lemma TableReadIsRight(
      codec: Codec, shared: Shared, created: map<string, UserProfile>, nextUserId: int, userId: string)
    requires SharedKnown(codec, shared, created) && CreatedKnown(created, nextUserId)
    requires RowFor(shared, userId).Some?
    ensures userId in created && FromMysqlRow(RowFor(shared, userId).value) == Some(created[userId])
  {
    RowRoundTrip(created[userId]);
  }

  lemma CreateAdvanceKeeps(
      codec: Codec, shared: Shared, created: map<string, UserProfile>, p: UserProfile, stage: CreateStage)
    requires codec.Faithful() && SharedKnown(codec, shared, created)
    requires ThreadKnown(Creator(p, stage), shared.users, created)
    ensures
      var next := CreateAdvance(codec, shared, p, stage);
      && SharedKnown(codec, next.0, created)
      && ThreadKnown(Creator(p, next.1), next.0.users, created)
      && next.0.nextUserId == shared.nextUserId
      && shared.users.Keys <= next.0.users.Keys
  {
    hide TableKnown, CacheKnown, ToMysqlRow, CacheKey;
    if stage == WriteTable && shared.mysql.Some? {
      FillKeepsTable(shared.mysql.value, created, p);
    } else if stage == WriteCache && shared.redis.Some? {
      FillKeepsCache(codec, shared.redis.value, created, p);
    }
  }

  lemma FindAdvanceKeeps(
      codec: Codec, shared: Shared, created: map<string, UserProfile>, userId: string, due: bool, stage: FindStage,
          now: real)
    requires codec.Faithful() && SharedKnown(codec, shared, created) && CreatedKnown(created, shared.nextUserId)
    requires ThreadKnown(Finder(userId, due, stage), shared.users, created)
    ensures
      var next := FindAdvance(codec, shared, userId, stage, now);
      && SharedKnown(codec, next.0, created)
      && ThreadKnown(Finder(userId, due, next.1), next.0.users, created)
      && next.0.nextUserId == shared.nextUserId
      && shared.users.Keys <= next.0.users.Keys
  {
    hide SharedKnown, CreatedKnown, FromMysqlRow, CacheKey, RowFor, Cached, CacheGet, CacheSet;
    match stage
    case ReadCache =>
      CacheReadIsRight(codec, shared, created, userId, now);
      CacheGetKeepsRest(shared, userId, now);
    case ReadTable =>
      if RowFor(shared, userId).Some? {
        TableReadIsRight(codec, shared, created, shared.nextUserId, userId);
        CreatedHasItsId(created, shared.nextUserId, userId);
      }
    case FillCache(p) => CacheFillIsRight(codec, shared, created, p);
    case FillMap(p) => MapFillIsRight(codec, shared, created, p);
    case ReadMap =>
      if userId in shared.users {
        MapReadIsRight(codec, shared, created, userId);
        CreatedHasItsId(created, shared.nextUserId, userId);
      }
    case _ =>
  }

  lemma CreatedHasItsId(created: map<string, UserProfile>, nextUserId: int, userId: string)
    requires CreatedKnown(created, nextUserId) && userId in created
    ensures created[userId].userId == userId
  {
  }

  lemma CacheGetKeepsRest(shared: Shared, userId: string, now: real)
    ensures CacheGet(shared, userId, now).users == shared.users
    ensures CacheGet(shared, userId, now).nextUserId == shared.nextUserId
  {
  }

  lemma CacheFillIsRight(codec: Codec, shared: Shared, created: map<string, UserProfile>, p: UserProfile)
    requires codec.Faithful() && SharedKnown(codec, shared, created) && IsCreated(created, p)
    ensures
      var next := CacheSet(codec, shared, p, p.userId);
      SharedKnown(codec, next, created) && next.users == shared.users && next.nextUserId == shared.nextUserId
  {
    hide TableKnown, CacheKnown, CacheKey;
    if shared.redis.Some? {
      FillKeepsCache(codec, shared.redis.value, created, p);
    }
  }

  lemma MapFillIsRight(codec: Codec, shared: Shared, created: map<string, UserProfile>, p: UserProfile)
    requires SharedKnown(codec, shared, created) && IsCreated(created, p)
    ensures SharedKnown(codec, shared.(users := shared.users[p.userId := p]), created)
  {
    hide TableKnown, CacheKnown;
  }

  lemma MapReadIsRight(codec: Codec, shared: Shared, created: map<string, UserProfile>, userId: string)
    requires SharedKnown(codec, shared, created) && userId in shared.users
    ensures userId in created && shared.users[userId] == created[userId]
  {
    hide TableKnown, CacheKnown;
  }

  lemma AdvanceKeeps(codec: Codec, s: State, i: nat, now: real)
    requires codec.Faithful() && Inv(codec, s) && i < |s.threads|
    ensures Inv(codec, Step(codec, s, Advance(i, now)))
  {
    hide SharedKnown, CreatedKnown, CreateAdvance, FindAdvance;
    match s.threads[i]
    case Creator(p, stage) => CreateAdvanceKeeps(codec, s.shared, s.created, p, stage);
    case Finder(userId, due, stage) => FindAdvanceKeeps(codec, s.shared, s.created, userId, due, stage, now);
  }

  lemma MoreCreatedKeeps(codec: Codec, shared: Shared, created: map<string, UserProfile>, p: UserProfile)
    requires SharedKnown(codec, shared, created) && p.userId !in created
    ensures SharedKnown(codec, shared, created[p.userId := p])
  {
    hide CacheKey;
  }

  lemma BeginCreateKeeps(codec: Codec, s: State, nickname: string, createdAt: int)
    requires Inv(codec, s) && Decimal.FitsInt64(createdAt) && s.shared.nextUserId < 0x7FFF_FFFF_FFFF_FFFF
    ensures Inv(codec, Step(codec, s, BeginCreate(nickname, createdAt)))
  {
    hide Number, UserId;
    var p := NewProfile(s.shared.nextUserId, nickname, createdAt);
    NumberOfId(s.shared.nextUserId);
    assert p.userId !in s.created;
    MoreCreatedKeeps(codec, s.shared, s.created, p);
    hide SharedKnown;
  }

  lemma DisturbKeeps(codec: Codec, s: State, kv: RS.Kv)
    requires Inv(codec, s) && Enabled(s, Disturb(kv))
    ensures Inv(codec, Step(codec, s, Disturb(kv)))
  {
    hide CacheKey, Number, TableKnown;
  }

  lemma {:induction false} RunKeepsInv(
      codec: Codec, mysql: bool, redis: bool, states: seq<State>, trace: seq<Action>, n: nat)
    requires codec.Faithful() && IsRun(codec, mysql, redis, states, trace)
    requires n <= |trace| < 0x7FFF_FFFF_FFFF_FFFF
    ensures Inv(codec, states[n]) && states[n].shared.nextUserId <= n + 1
  {
    hide CreatedKnown, SharedKnown, ThreadKnown, NoIdTwice;
    if n == 0 {
      StartsInv(codec, mysql, redis);
    } else {
      RunKeepsInv(codec, mysql, redis, states, trace, n - 1);
      assert Enabled(states[n - 1], trace[n - 1]);
      OneStepKeepsInv(codec, states[n - 1], trace[n - 1]);
    }
  }

  lemma StartsInv(codec: Codec, mysql: bool, redis: bool)
    ensures Inv(codec, Init(mysql, redis))
  {
  }

  lemma OneStepKeepsInv(codec: Codec, s: State, action: Action)
    requires codec.Faithful() && Inv(codec, s) && Enabled(s, action) && s.shared.nextUserId < 0x7FFF_FFFF_FFFF_FFFF
    ensures Inv(codec, Step(codec, s, action)) && Step(codec, s, action).shared.nextUserId <= s.shared.nextUserId + 1
  {
    hide CreatedKnown, SharedKnown;
    match action
    case BeginCreate(nickname, createdAt) => BeginCreateKeeps(codec, s, nickname, createdAt);
    case BeginFind(userId) =>
    case Advance(i, now) =>
      AdvanceKeeps(codec, s, i, now);
      AdvanceKeepsCounter(codec, s.shared, s.threads[i], now);
    case Disturb(kv) => DisturbKeeps(codec, s, kv);
  }

  lemma AdvanceKeepsCounter(codec: Codec, shared: Shared, thread: Thread, now: real)
    ensures AdvanceThread(codec, shared, thread, now).0.nextUserId == shared.nextUserId
  {
  }

  // -------------------------------------------------------------------------------------------
  // What a lookup answers
  // -------------------------------------------------------------------------------------------

  /** Under every interleaving a finished lookup returned nothing or exactly the profile created under
    * its id, and it never failed on a row. */
  lemma LookupsAreRight(codec: Codec, mysql: bool, redis: bool, states: seq<State>, trace: seq<Action>, n: nat, i: nat)
    requires codec.Faithful() && IsRun(codec, mysql, redis, states, trace)
    requires n <= |trace| < 0x7FFF_FFFF_FFFF_FFFF
    requires i < |states[n].threads| && states[n].threads[i].Finder?
    ensures
      var t := states[n].threads[i];
      && t.find != Threw
      && (t.find.Returned? && t.find.found.Some? ==>
            t.userId in states[n].created && t.find.found.value == states[n].created[t.userId])
  {
    RunKeepsInv(codec, mysql, redis, states, trace, n);
    hide CreatedKnown, SharedKnown;
    assert ThreadKnown(states[n].threads[i], states[n].shared.users, states[n].created);
  }

  /** No two creates of a run get the same id. */
  lemma IdsNeverRepeat(
      codec: Codec, mysql: bool, redis: bool, states: seq<State>, trace: seq<Action>, n: nat, i: nat, j: nat)
    requires codec.Faithful() && IsRun(codec, mysql, redis, states, trace)
    requires n <= |trace| < 0x7FFF_FFFF_FFFF_FFFF
    requires i < j < |states[n].threads| && states[n].threads[i].Creator? && states[n].threads[j].Creator?
    ensures states[n].threads[i].profile.userId != states[n].threads[j].profile.userId
  {
    RunKeepsInv(codec, mysql, redis, states, trace, n);
    hide CreatedKnown, SharedKnown, ThreadKnown;
  }

  lemma {:induction false} ThreadsKeepTheirTask(
      codec: Codec, mysql: bool, redis: bool, states: seq<State>, trace: seq<Action>, n: nat, m: nat, i: nat)
    requires IsRun(codec, mysql, redis, states, trace) && n <= m <= |trace| && i < |states[n].threads|
    ensures i < |states[m].threads|
    ensures states[n].threads[i].Finder? ==>
      states[m].threads[i].Finder? && states[m].threads[i].userId == states[n].threads[i].userId
      && states[m].threads[i].due == states[n].threads[i].due
    ensures states[n].threads[i].Creator? ==>
      states[m].threads[i].Creator? && states[m].threads[i].profile == states[n].threads[i].profile
  {
    hide CreateAdvance, FindAdvance;
    if n < m {
      ThreadsKeepTheirTask(codec, mysql, redis, states, trace, n, m - 1, i);
      assert Enabled(states[m - 1], trace[m - 1]);
    }
  }

  lemma StepKeepsCreated(codec: Codec, s: State, action: Action, p: UserProfile)
    requires Inv(codec, s) && Enabled(s, action) && IsCreated(s.created, p)
    ensures IsCreated(Step(codec, s, action).created, p)
  {
    hide Number, UserId, SharedKnown, CreateAdvance, FindAdvance;
    NumberOfId(s.shared.nextUserId);
  }

  lemma {:induction false} CreatedStays(
      codec: Codec, mysql: bool, redis: bool, states: seq<State>, trace: seq<Action>, n: nat, m: nat, p: UserProfile)
    requires codec.Faithful() && IsRun(codec, mysql, redis, states, trace)
    requires n <= m <= |trace| < 0x7FFF_FFFF_FFFF_FFFF
    requires IsCreated(states[n].created, p)
    ensures IsCreated(states[m].created, p)
  {
    hide Inv, Step, IsCreated;
    if n < m {
      CreatedStays(codec, mysql, redis, states, trace, n, m - 1, p);
      RunKeepsInv(codec, mysql, redis, states, trace, m - 1);
      assert Enabled(states[m - 1], trace[m - 1]);
      StepKeepsCreated(codec, states[m - 1], trace[m - 1], p);
    }
  }

  /** Once a create has done its map write, every lookup of its id that begins later returns its
    * profile when it finishes, whichever backends are there and whatever happens in between. */
  lemma LaterLookupsFindTheUser(
      codec: Codec, mysql: bool, redis: bool, states: seq<State>, trace: seq<Action>, n: nat, m: nat, creator: nat)
    requires codec.Faithful() && IsRun(codec, mysql, redis, states, trace)
    requires n < m <= |trace| < 0x7FFF_FFFF_FFFF_FFFF
    requires creator < |states[n].threads| && states[n].threads[creator].Creator?
    requires states[n].threads[creator].create != WriteMap
    requires trace[n] == BeginFind(states[n].threads[creator].profile.userId)
    ensures
      var i := |states[n].threads|;
      && i < |states[m].threads|
      && (states[m].threads[i].Finder? && states[m].threads[i].find.Returned? ==>
            states[m].threads[i].find == Returned(Some(states[n].threads[creator].profile)))
      && states[m].threads[i].Finder?
  {
    hide CreatedKnown, SharedKnown, Step, IsCreated;
    var p, i := states[n].threads[creator].profile, |states[n].threads|;
    RunKeepsInv(codec, mysql, redis, states, trace, n);
    RunKeepsInv(codec, mysql, redis, states, trace, m);
    assert ThreadKnown(states[n].threads[creator], states[n].shared.users, states[n].created);
    LookupBegins(codec, states[n], p.userId);
    ThreadsKeepTheirTask(codec, mysql, redis, states, trace, n + 1, m, i);
    CreatedStays(codec, mysql, redis, states, trace, n, m, p);
    ProfileIsUnique(states[m].created, p);
    assert ThreadKnown(states[m].threads[i], states[m].shared.users, states[m].created);
  }

  lemma LookupBegins(codec: Codec, s: State, userId: string)
    ensures Step(codec, s, BeginFind(userId)).threads
        == s.threads + [Finder(userId, userId in s.shared.users, ReadCache)]
  {
  }

  lemma ProfileIsUnique(created: map<string, UserProfile>, p: UserProfile)
    requires IsCreated(created, p)
    ensures forall q | IsCreated(created, q) && q.userId == p.userId :: q == p
  {
  }

  // -------------------------------------------------------------------------------------------
  // Once found, always found
  // -------------------------------------------------------------------------------------------

  /** Whatever a lookup can come upon is in the local map already: creates write it first. */
  ghost predicate TiersLanded(codec: Codec, shared: Shared) {
    && (shared.mysql.Some? ==> forall id | id in shared.mysql.value :: id in shared.users)
    && (shared.redis.Some? ==> forall k | k in shared.redis.value && codec.parse(shared.redis.value[k].value).Parsed? ::
          codec.parse(shared.redis.value[k].value).value.userId in shared.users)
  }

  ghost predicate ThreadLanded(thread: Thread, users: map<string, UserProfile>) {
    thread.Finder? ==>
      match thread.find
      case FillCache(_) => thread.userId in users
      case FillMap(_) => thread.userId in users
      case Returned(found) => found.Some? ==> thread.userId in users
      case _ => true
  }

  ghost predicate Landed(codec: Codec, s: State) {
    && TiersLanded(codec, s.shared)
    && forall i | 0 <= i < |s.threads| :: ThreadLanded(s.threads[i], s.shared.users)
  }

  lemma CreateAdvanceLands(
      codec: Codec, shared: Shared, created: map<string, UserProfile>, p: UserProfile, stage: CreateStage)
    requires codec.Faithful() && TiersLanded(codec, shared) && ThreadKnown(Creator(p, stage), shared.users, created)
    ensures
      var next := CreateAdvance(codec, shared, p, stage);
      TiersLanded(codec, next.0) && shared.users.Keys <= next.0.users.Keys
  {
    hide ToMysqlRow, CacheKey;
    CompositeOfId(ToMysqlRow(p));
    assert codec.parse(codec.print_(p)) == Parsed(p);
    IdOfRow(p);
  }

  lemma FindAdvanceLands(
      codec: Codec, shared: Shared, created: map<string, UserProfile>, userId: string, due: bool, stage: FindStage,
      now: real)
    requires codec.Faithful() && TiersLanded(codec, shared) && SharedKnown(codec, shared, created)
    requires ThreadKnown(Finder(userId, due, stage), shared.users, created)
    requires ThreadLanded(Finder(userId, due, stage), shared.users)
    ensures
      var next := FindAdvance(codec, shared, userId, stage, now);
      && TiersLanded(codec, next.0) && shared.users.Keys <= next.0.users.Keys
      && ThreadLanded(Finder(userId, due, next.1), next.0.users)
  {
    hide FromMysqlRow, ToMysqlRow, CacheKey, TableKnown;
    match stage
    case ReadCache =>
      CacheReadIsRight(codec, shared, created, userId, now);
    case FillCache(p) =>
      assert codec.parse(codec.print_(p)) == Parsed(p);
    case _ =>
  }

  lemma StepKeepsLanded(codec: Codec, s: State, action: Action)
    requires codec.Faithful() && Inv(codec, s) && Enabled(s, action) && Landed(codec, s)
    ensures Landed(codec, Step(codec, s, action))
  {
    hide SharedKnown, CreatedKnown, TiersLanded, CreateAdvance, FindAdvance, NoIdTwice;
    match action
    case Advance(i, now) =>
      match s.threads[i] {
        case Creator(p, stage) => CreateAdvanceLands(codec, s.shared, s.created, p, stage);
        case Finder(userId, due, stage) => FindAdvanceLands(codec, s.shared, s.created, userId, due, stage, now);
      }
    case _ => TiersStayLanded(codec, s, action);
  }

  lemma TiersStayLanded(codec: Codec, s: State, action: Action)
    requires Enabled(s, action) && !action.Advance? && TiersLanded(codec, s.shared)
    ensures TiersLanded(codec, Step(codec, s, action).shared)
  {
    hide Number, UserId;
  }

  lemma {:induction false} RunKeepsLanded(
      codec: Codec, mysql: bool, redis: bool, states: seq<State>, trace: seq<Action>, n: nat)
    requires codec.Faithful() && IsRun(codec, mysql, redis, states, trace)
    requires n <= |trace| < 0x7FFF_FFFF_FFFF_FFFF
    ensures Landed(codec, states[n])
  {
    hide Inv, Step;
    if n > 0 {
      RunKeepsLanded(codec, mysql, redis, states, trace, n - 1);
      RunKeepsInv(codec, mysql, redis, states, trace, n - 1);
      assert Enabled(states[n - 1], trace[n - 1]);
      StepKeepsLanded(codec, states[n - 1], trace[n - 1]);
    }
  }

  /** Once any lookup has returned a profile, every lookup of its id that begins later returns the same
    * when it finishes, whatever is still under way and whatever the cache loses. */
  lemma FoundStaysFound(
      codec: Codec, mysql: bool, redis: bool, states: seq<State>, trace: seq<Action>, n: nat, m: nat, finder: nat)
    requires codec.Faithful() && IsRun(codec, mysql, redis, states, trace)
    requires n < m <= |trace| < 0x7FFF_FFFF_FFFF_FFFF
    requires finder < |states[n].threads| && states[n].threads[finder].Finder?
    requires states[n].threads[finder].find.Returned? && states[n].threads[finder].find.found.Some?
    requires trace[n] == BeginFind(states[n].threads[finder].userId)
    ensures
      var i := |states[n].threads|;
      && i < |states[m].threads| && states[m].threads[i].Finder?
      && (states[m].threads[i].find.Returned? ==> states[m].threads[i].find == states[n].threads[finder].find)
  {
    hide CreatedKnown, SharedKnown, TiersLanded, Step, IsCreated;
    var t, i := states[n].threads[finder], |states[n].threads|;
    RunKeepsInv(codec, mysql, redis, states, trace, n);
    RunKeepsInv(codec, mysql, redis, states, trace, m);
    RunKeepsLanded(codec, mysql, redis, states, trace, n);
    assert ThreadKnown(t, states[n].shared.users, states[n].created) && ThreadLanded(t, states[n].shared.users);
    LookupBegins(codec, states[n], t.userId);
    ThreadsKeepTheirTask(codec, mysql, redis, states, trace, n + 1, m, i);
    CreatedStays(codec, mysql, redis, states, trace, n, m, t.find.found.value);
    ProfileIsUnique(states[m].created, t.find.found.value);
    assert ThreadKnown(states[m].threads[i], states[m].shared.users, states[m].created);
  }

  // -------------------------------------------------------------------------------------------
  // What the profiles say
  // -------------------------------------------------------------------------------------------

  /** Creates among the first `n` actions. */
  function Creates(trace: seq<Action>, n: nat): nat
    requires n <= |trace|
  {
    if n == 0 then 0 else Creates(trace, n - 1) + (if trace[n - 1].BeginCreate? then 1 else 0)
  }

  /** The profile of the create that is action `k`: it is the (1 + Creates(trace, k))-th of the run. */
  function ProfileOf(trace: seq<Action>, k: nat): UserProfile
    requires k < |trace| && trace[k].BeginCreate?
  {
    UserProfile(
      "user_" + Decimal.ToString(1 + Creates(trace, k)),
      if trace[k].nickname == "" then "anonymous" else trace[k].nickname, "", 1, trace[k].createdAt)
  }

  lemma {:induction false} CounterCountsCreates(
      codec: Codec, mysql: bool, redis: bool, states: seq<State>, trace: seq<Action>, n: nat)
    requires IsRun(codec, mysql, redis, states, trace) && n <= |trace| < 0x7FFF_FFFF_FFFF_FFFF
    ensures states[n].shared.nextUserId == 1 + Creates(trace, n) <= n + 1
  {
    hide AdvanceThread;
    if n > 0 {
      CounterCountsCreates(codec, mysql, redis, states, trace, n - 1);
      assert Enabled(states[n - 1], trace[n - 1]);
      if trace[n - 1].Advance? {
        AdvanceKeepsCounter(codec, states[n - 1].shared, states[n - 1].threads[trace[n - 1].thread], trace[n - 1].now);
      }
    }
  }

  /** The thread of a create carries the profile its arguments ask for. */
  lemma CreateCarriesItsProfile(
      codec: Codec, mysql: bool, redis: bool, states: seq<State>, trace: seq<Action>, k: nat, m: nat)
    requires IsRun(codec, mysql, redis, states, trace) && k < m <= |trace| < 0x7FFF_FFFF_FFFF_FFFF
    requires trace[k].BeginCreate?
    ensures
      var i := |states[k].threads|;
      && i < |states[m].threads| && states[m].threads[i].Creator?
      && states[m].threads[i].profile == ProfileOf(trace, k)
  {
    hide Step, IsRun, ProfileOf, NewProfile, Creates;
    CounterCountsCreates(codec, mysql, redis, states, trace, k);
    ProfileIsNew(trace, k);
    StepAt(codec, mysql, redis, states, trace, k);
    CreateBegins(codec, states[k], trace[k].nickname, trace[k].createdAt);
    ThreadsKeepTheirTask(codec, mysql, redis, states, trace, k + 1, m, |states[k].threads|);
  }

  lemma StepAt(codec: Codec, mysql: bool, redis: bool, states: seq<State>, trace: seq<Action>, k: nat)
    requires IsRun(codec, mysql, redis, states, trace) && k < |trace|
    ensures |states| == |trace| + 1 && Enabled(states[k], trace[k])
    ensures states[k + 1] == Step(codec, states[k], trace[k])
  {
    hide Step, Init;
  }

  lemma CreateBegins(codec: Codec, s: State, nickname: string, createdAt: int)
    requires Enabled(s, BeginCreate(nickname, createdAt))
    ensures Step(codec, s, BeginCreate(nickname, createdAt)).threads
         == s.threads + [Creator(NewProfile(s.shared.nextUserId, nickname, createdAt), WriteMap)]
  {
  }

  /** Every created profile comes from one create of the run and carries its nickname and its time. */
  lemma {:induction false} ProfilesComeFromCreates(
      codec: Codec, mysql: bool, redis: bool, states: seq<State>, trace: seq<Action>, n: nat, id: string)
    returns (k: nat)
    requires IsRun(codec, mysql, redis, states, trace) && n <= |trace| < 0x7FFF_FFFF_FFFF_FFFF
    requires id in states[n].created
    ensures k < n && trace[k].BeginCreate? && states[n].created[id] == ProfileOf(trace, k)
  {
    hide Step, IsRun, ProfileOf, NewProfile, UserId, Creates, Enabled;
    NothingCreatedYet(codec, mysql, redis, states, trace);
    StepAt(codec, mysql, redis, states, trace, n - 1);
    CounterCountsCreates(codec, mysql, redis, states, trace, n - 1);
    CreatedByStep(codec, states[n - 1], trace[n - 1], id);
    if trace[n - 1].BeginCreate? && id == UserId(states[n - 1].shared.nextUserId) {
      ProfileIsNew(trace, n - 1);
      k := n - 1;
    } else {
      k := ProfilesComeFromCreates(codec, mysql, redis, states, trace, n - 1, id);
    }
  }

  lemma ProfileIsNew(trace: seq<Action>, k: nat)
    requires k < |trace| && trace[k].BeginCreate?
    ensures ProfileOf(trace, k) == NewProfile(1 + Creates(trace, k), trace[k].nickname, trace[k].createdAt)
  {
    hide Creates;
  }

  lemma NothingCreatedYet(codec: Codec, mysql: bool, redis: bool, states: seq<State>, trace: seq<Action>)
    requires IsRun(codec, mysql, redis, states, trace)
    ensures |states| == |trace| + 1 && states[0].created == map[]
  {
  }

  lemma CreatedByStep(codec: Codec, s: State, action: Action, id: string)
    requires Enabled(s, action) && id in Step(codec, s, action).created
    ensures
      var profile := Step(codec, s, action).created[id];
      if action.BeginCreate? && id == UserId(s.shared.nextUserId) then
        profile == NewProfile(s.shared.nextUserId, action.nickname, action.createdAt)
      else id in s.created && profile == s.created[id]
  {
    hide AdvanceThread;
  }

  /** Under every interleaving a lookup that returned a profile returned that of one create of the run,
    * the one whose id was asked for. */
  lemma FoundIsOfOneCreate(
      codec: Codec, mysql: bool, redis: bool, states: seq<State>, trace: seq<Action>, n: nat, i: nat)
    returns (k: nat)
    requires codec.Faithful() && IsRun(codec, mysql, redis, states, trace)
    requires n <= |trace| < 0x7FFF_FFFF_FFFF_FFFF
    requires i < |states[n].threads| && states[n].threads[i].Finder?
    requires states[n].threads[i].find.Returned? && states[n].threads[i].find.found.Some?
    ensures k < n && trace[k].BeginCreate?
    ensures states[n].threads[i].find == Returned(Some(ProfileOf(trace, k)))
    ensures ProfileOf(trace, k).userId == states[n].threads[i].userId
  {
    LookupsAreRight(codec, mysql, redis, states, trace, n, i);
    var id := states[n].threads[i].userId;
    k := ProfilesComeFromCreates(codec, mysql, redis, states, trace, n, id);
    RunKeepsInv(codec, mysql, redis, states, trace, n);
    CreatedHasItsId(states[n].created, states[n].shared.nextUserId, id);
  }

  /** From the call to the answer: once the create that is action `k` has done its map write, every lookup
    * of its id that begins later returns its nickname, its time and the rest of its profile. */
  lemma CreatedUserIsFound(
      codec: Codec, mysql: bool, redis: bool, states: seq<State>, trace: seq<Action>, k: nat, n: nat, m: nat)
    requires codec.Faithful() && IsRun(codec, mysql, redis, states, trace)
    requires k < n < m <= |trace| < 0x7FFF_FFFF_FFFF_FFFF && trace[k].BeginCreate?
    requires |states[k].threads| < |states[n].threads| && states[n].threads[|states[k].threads|].Creator?
    requires states[n].threads[|states[k].threads|].create != WriteMap
    requires trace[n] == BeginFind("user_" + Decimal.ToString(1 + Creates(trace, k)))
    ensures
      var i := |states[n].threads|;
      && i < |states[m].threads| && states[m].threads[i].Finder?
      && (states[m].threads[i].find.Returned? ==>
            states[m].threads[i].find == Returned(Some(ProfileOf(trace, k))))
  {
    CreateCarriesItsProfile(codec, mysql, redis, states, trace, k, n);
    LaterLookupsFindTheUser(codec, mysql, redis, states, trace, n, m, |states[k].threads|);
  }
}
