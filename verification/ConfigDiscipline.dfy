/** When overlapping publishes and finds of the configuration service are harmless. A discipline says
  * which operations at one address a caller keeps apart; operations at other addresses overlap freely. */
module ConfigDiscipline {
  import opened Wrappers
  import opened ConfigKeys
  import opened ConfigService
  import opened MysqlPool
  import opened ConfigOverlap
  import CR = ConfigRuns
  import RS = RedisStore
  import Decimal

  /** `publishesApart`: no publish of an address begins while another publish of it is unfinished.
    * `findsApart`: no publish of an address begins while a find of it is unfinished, nor the other way round. */
  datatype Discipline = Discipline(publishesApart: bool, findsApart: bool)

  predicate PublishesAt(t: Thread, a: Address) {
    t.Publisher? && AddressOf(t.entry) == a
  }

  predicate FindsAt(t: Thread, a: Address) {
    t.Finder? && t.address == a
  }

  predicate PublishPending(threads: seq<Thread>, a: Address) {
    exists i | 0 <= i < |threads| :: PublishesAt(threads[i], a) && threads[i].publish != Published
  }

  predicate FindPending(threads: seq<Thread>, a: Address) {
    exists i | 0 <= i < |threads| :: FindsAt(threads[i], a) && !threads[i].find.Returned?
  }

  /** What may begin at address `a`. */
  predicate Obeys(d: Discipline, a: Address, threads: seq<Thread>, action: Action) {
    match action
    case BeginPublish(e) =>
      Normal(AddressOf(e)) == a ==>
        && (d.publishesApart ==> !PublishPending(threads, a))
        && (d.findsApart ==> !FindPending(threads, a))
    case BeginFind(asked) => Normal(asked) == a && d.findsApart ==> !PublishPending(threads, a)
    case _ => true
  }

  ghost predicate Disciplined(d: Discipline, a: Address, states: seq<State>, trace: seq<Action>)
    requires |states| == |trace| + 1
  {
    forall n | 0 <= n < |trace| :: Obeys(d, a, states[n].threads, trace[n])
  }

  ghost predicate Inside(addresses: iset<Address>, action: Action) {
    match action
    case BeginPublish(e) => Normal(AddressOf(e)) in addresses
    case BeginFind(asked) => Normal(asked) in addresses
    case _ => true
  }

  ghost predicate Over(addresses: iset<Address>, trace: seq<Action>) {
    forall n | 0 <= n < |trace| :: Inside(addresses, trace[n])
  }

  // -------------------------------------------------------------------------------------------
  // The last publish of an address
  // -------------------------------------------------------------------------------------------

  /** Threads are listed in the order in which they began. */
  function LastPublish(threads: seq<Thread>, a: Address): (r: Option<nat>)
    ensures r.Some? ==> r.value < |threads| && PublishesAt(threads[r.value], a)
    ensures forall j | (if r.Some? then r.value + 1 else 0) <= j < |threads| :: !PublishesAt(threads[j], a)
  {
    if |threads| == 0 then None
    else if PublishesAt(threads[|threads| - 1], a) then Some(|threads| - 1)
    else LastPublish(threads[..|threads| - 1], a)
  }

  function Latest(threads: seq<Thread>, a: Address): Option<ConfigEntry> {
    match LastPublish(threads, a)
    case None => None
    case Some(i) => Some(threads[i].entry)
  }

  function LatestAnswer(threads: seq<Thread>, a: Address): Found {
    match Latest(threads, a)
    case None => Missing
    case Some(e) => Entry(e)
  }

  lemma LastOfAppend(threads: seq<Thread>, t: Thread, a: Address)
    ensures LastPublish(threads + [t], a) == if PublishesAt(t, a) then Some(|threads|) else LastPublish(threads, a)
  {
    assert (threads + [t])[..|threads|] == threads;
  }

  lemma LastOfUpdate(threads: seq<Thread>, i: nat, t: Thread, a: Address)
    requires i < |threads| && (PublishesAt(t, a) <==> PublishesAt(threads[i], a))
    ensures LastPublish(threads[i := t], a) == LastPublish(threads, a)
  {
    var before, after := LastPublish(threads, a), LastPublish(threads[i := t], a);
    assert forall j | 0 <= j < |threads| :: PublishesAt(threads[i := t][j], a) <==> PublishesAt(threads[j], a);
  }

  /** A step keeps the task of every thread. */
  lemma AdvanceKeepsTask(codec: Codec, s: State, i: nat, now: real, a: Address)
    requires i < |s.threads|
    ensures
      var next := Step(codec, s, Advance(i, now));
      && |next.threads| == |s.threads|
      && (forall j | 0 <= j < |s.threads| && j != i :: next.threads[j] == s.threads[j])
      && (PublishesAt(next.threads[i], a) <==> PublishesAt(s.threads[i], a))
      && (FindsAt(next.threads[i], a) <==> FindsAt(s.threads[i], a))
      && (s.threads[i].Publisher? ==> next.threads[i].Publisher? && next.threads[i].entry == s.threads[i].entry)
      && LastPublish(next.threads, a) == LastPublish(s.threads, a)
      && Latest(next.threads, a) == Latest(s.threads, a)
  {
    hide LastPublish, PublishAdvance, FindAdvance;
    var t := AdvanceThread(codec, s.store, s.threads[i], now).1;
    LastOfUpdate(s.threads, i, t, a);
  }

  // -------------------------------------------------------------------------------------------
  // What the tiers hold for one address
  // -------------------------------------------------------------------------------------------

  /** Only the last publish of the address can be unfinished. */
  ghost predicate OnlyLast(threads: seq<Thread>, a: Address) {
    forall i | 0 <= i < |threads| && PublishesAt(threads[i], a) && threads[i].publish != Published ::
      LastPublish(threads, a) == Some(i)
  }

  ghost predicate FindsWait(threads: seq<Thread>, a: Address) {
    FindPending(threads, a) ==> !PublishPending(threads, a)
  }

  /** From its map write on, the last publish is what the local map holds. */
  ghost predicate MapFresh(s: State, a: Address) {
    match LastPublish(s.threads, a)
    case None => StoreKey(a) !in s.store.entries
    case Some(i) =>
      s.threads[i].publish != WriteMap ==>
        StoreKey(a) in s.store.entries && s.store.entries[StoreKey(a)] == s.threads[i].entry
  }

  /** From its table write on, the row found is that of the last publish; unless `kept`, it may be gone. */
  ghost predicate RowFresh(s: State, a: Address, kept: bool) {
    match LastPublish(s.threads, a)
    case None => Stored(s.store, a).None?
    case Some(i) =>
      s.threads[i].publish == WriteCache || s.threads[i].publish == Published ==>
        || Stored(s.store, a) == Some(ToMysqlRow(s.threads[i].entry))
        || (!kept && Stored(s.store, a).None?)
  }

  /** Once it has finished, a cached payload is its entry. */
  ghost predicate CacheFresh(codec: Codec, s: State, a: Address) {
    s.store.redis.Some? && CacheKey(a) in s.store.redis.value ==>
      match LastPublish(s.threads, a)
      case None => false
      case Some(i) =>
        s.threads[i].publish == Published ==>
          codec.parse(s.store.redis.value[CacheKey(a)].value) == Parsed(s.threads[i].entry)
  }

  /** What a find is about to fill in is the last publish. */
  ghost predicate FillsFresh(threads: seq<Thread>, a: Address) {
    forall i | 0 <= i < |threads| && FindsAt(threads[i], a)
        && (threads[i].find.FillCache? || threads[i].find.FillMap?) ::
      Latest(threads, a) == Some(threads[i].find.entry)
  }

  ghost predicate NoFills(threads: seq<Thread>) {
    forall i | 0 <= i < |threads| && threads[i].Finder? :: !threads[i].find.FillCache? && !threads[i].find.FillMap?
  }

  /** No other address with a publish or a find has the store key of `a`. */
  ghost predicate OwnStoreKey(addresses: iset<Address>, a: Address) {
    forall b | b in addresses && b != a && Publishable(b) :: StoreKey(b) != StoreKey(a)
  }

  ghost predicate OwnCacheKey(addresses: iset<Address>, a: Address) {
    forall b | b in addresses && b != a && Publishable(b) :: CacheKey(b) != CacheKey(a)
  }

  ghost predicate OwnCompositeKey(addresses: iset<Address>, a: Address) {
    forall b | b in addresses && b != a && Publishable(a) && Publishable(b) ::
      CompositeKey(Filters(b), KEY_FIELDS) != CompositeKey(Filters(a), KEY_FIELDS)
  }

  /** Threads work inside the set of addresses, and whatever is written is publishable. */
  ghost predicate ThreadsInside(addresses: iset<Address>, threads: seq<Thread>) {
    forall i | 0 <= i < |threads| ::
      match threads[i]
      case Publisher(e, _) => AddressOf(e) in addresses && Publishable(AddressOf(e)) && Decimal.FitsInt64(e.version)
      case Finder(b, _, stage) =>
        && b in addresses
        && (stage.FillCache? || stage.FillMap? ==> AddressOf(stage.entry) == b && Publishable(b))
  }

  // -------------------------------------------------------------------------------------------
  // One thread advances
  // -------------------------------------------------------------------------------------------

  lemma AdvanceKeepsOrder(codec: Codec, s: State, i: nat, now: real, a: Address)
    requires i < |s.threads|
    ensures
      var next := Step(codec, s, Advance(i, now));
      && (OnlyLast(s.threads, a) ==> OnlyLast(next.threads, a))
      && (FindsWait(s.threads, a) ==> FindsWait(next.threads, a))
      && (PublishPending(next.threads, a) ==> PublishPending(s.threads, a))
      && (FindPending(next.threads, a) ==> FindPending(s.threads, a))
  {
    hide LastPublish, Latest;
    AdvanceKeepsTask(codec, s, i, now, a);
    var next := Step(codec, s, Advance(i, now));
    assert PublishesAt(next.threads[i], a) && next.threads[i].publish != Published ==>
             s.threads[i].publish != Published;
    assert FindsAt(next.threads[i], a) && !next.threads[i].find.Returned? ==> !s.threads[i].find.Returned?;
  }

  lemma EntriesAfter(codec: Codec, s: Store, t: Thread, now: real)
    ensures
      AdvanceThread(codec, s, t, now).0.entries ==
        match t
        case Publisher(e, WriteMap) => s.entries[StoreKey(AddressOf(e)) := e]
        case Finder(b, _, FillMap(e)) => s.entries[StoreKey(b) := e]
        case _ => s.entries
  {
    hide StoreKey, CacheKey;
  }

  lemma TableAfter(codec: Codec, s: Store, t: Thread, now: real)
    ensures
      AdvanceThread(codec, s, t, now).0.mysql ==
        if t.Publisher? && t.publish == WriteTable && s.mysql.Some?
        then Some(Upserted(s.mysql.value, ToMysqlRow(t.entry), KEY_FIELDS))
        else s.mysql
  {
    hide StoreKey, CacheKey, ToMysqlRow;
  }

  lemma CacheAfter(codec: Codec, s: Store, t: Thread, now: real, k: string)
    ensures
      var kv := AdvanceThread(codec, s, t, now).0.redis;
      && kv.Some? == s.redis.Some?
      && (kv.Some? && k in kv.value ==>
            if t.Publisher? && t.publish == WriteCache && k == CacheKey(AddressOf(t.entry))
            then kv.value[k].value == codec.print_(t.entry)
            else if t.Finder? && t.find.FillCache? && k == CacheKey(t.address)
            then kv.value[k].value == codec.print_(t.find.entry)
            else k in s.redis.value && kv.value[k] == s.redis.value[k])
  {
    hide StoreKey, CacheKey;
  }

  lemma AdvanceKeepsMapFresh(codec: Codec, s: State, i: nat, now: real, addresses: iset<Address>, a: Address)
    requires i < |s.threads| && ThreadsInside(addresses, s.threads) && OwnStoreKey(addresses, a)
    requires OnlyLast(s.threads, a) && FillsFresh(s.threads, a) && MapFresh(s, a)
    ensures MapFresh(Step(codec, s, Advance(i, now)), a)
  {
    hide LastPublish, StoreKey, CacheKey;
    AdvanceKeepsTask(codec, s, i, now, a);
    EntriesAfter(codec, s.store, s.threads[i], now);
  }

  /** A row upserted for another address leaves the row of `a` alone or takes its place in the table. */
  lemma UpsertElsewhere(s: Store, e: ConfigEntry, a: Address)
    requires s.mysql.Some? && AddressOf(e) != a
    ensures
      var next := s.(mysql := Some(Upserted(s.mysql.value, ToMysqlRow(e), KEY_FIELDS)));
      if CompositeKey(Filters(AddressOf(e)), KEY_FIELDS) == CompositeKey(Filters(a), KEY_FIELDS)
      then Stored(next, a).None?
      else Stored(next, a) == Stored(s, a)
  {
    CR.RowMatchesItsAddress(e);
  }

  lemma UpsertHere(s: Store, e: ConfigEntry)
    requires s.mysql.Some?
    ensures
      var next := s.(mysql := Some(Upserted(s.mysql.value, ToMysqlRow(e), KEY_FIELDS)));
      Stored(next, AddressOf(e)) == Some(ToMysqlRow(e))
  {
    CR.RowMatchesItsAddress(e);
  }

  lemma StoredNeedsTheTable(s: Store, t: Store, a: Address)
    requires s.mysql == t.mysql
    ensures Stored(s, a) == Stored(t, a)
  {
  }

  lemma AdvanceKeepsRowFresh(
      codec: Codec, s: State, i: nat, now: real, addresses: iset<Address>, a: Address, kept: bool)
    requires i < |s.threads| && ThreadsInside(addresses, s.threads)
        && (kept ==> OwnCompositeKey(addresses, a) && s.store.mysql.Some?)
    requires OnlyLast(s.threads, a) && RowFresh(s, a, kept)
    ensures RowFresh(Step(codec, s, Advance(i, now)), a, kept)
  {
    hide LastPublish, Stored, ToMysqlRow, CompositeKey, Filters, Upserted;
    AdvanceKeepsTask(codec, s, i, now, a);
    var t, next := s.threads[i], Step(codec, s, Advance(i, now));
    TableAfter(codec, s.store, t, now);
    if t.Publisher? && t.publish == WriteTable && s.store.mysql.Some? {
      var filed := s.store.(mysql := next.store.mysql);
      StoredNeedsTheTable(filed, next.store, a);
      if AddressOf(t.entry) == a {
        UpsertHere(s.store, t.entry);
      } else {
        UpsertElsewhere(s.store, t.entry, a);
      }
    } else {
      StoredNeedsTheTable(s.store, next.store, a);
      if s.store.mysql.None? {
        StoredNeedsATable(s.store, a);
      }
    }
  }

  lemma StoredNeedsATable(s: Store, a: Address)
    requires s.mysql.None?
    ensures Stored(s, a).None?
  {
  }

  lemma AdvanceKeepsCacheFresh(codec: Codec, s: State, i: nat, now: real, addresses: iset<Address>, a: Address)
    requires codec.Faithful() && i < |s.threads| && ThreadsInside(addresses, s.threads) && OwnCacheKey(addresses, a)
    requires OnlyLast(s.threads, a) && FillsFresh(s.threads, a) && CacheFresh(codec, s, a)
    ensures CacheFresh(codec, Step(codec, s, Advance(i, now)), a)
  {
    hide LastPublish, CacheKey;
    AdvanceKeepsTask(codec, s, i, now, a);
    CacheAfter(codec, s.store, s.threads[i], now, CacheKey(a));
    var t := s.threads[i];
    assert t.Publisher? ==> codec.parse(codec.print_(t.entry)) == Parsed(t.entry);
    assert t.Finder? && t.find.FillCache? ==> codec.parse(codec.print_(t.find.entry)) == Parsed(t.find.entry);
  }

  /** Reading the table while the last publish is finished can only bring up that publish. */
  lemma AdvanceKeepsFillsFresh(codec: Codec, s: State, i: nat, now: real, a: Address)
    requires i < |s.threads| && FillsFresh(s.threads, a) && RowFresh(s, a, false)
    requires forall k | 0 <= k < |s.threads| && s.threads[k].Publisher? :: Decimal.FitsInt64(s.threads[k].entry.version)
    requires FindsAt(s.threads[i], a) && s.threads[i].find.ReadTable? ==>
               s.store.mysql.None? || !PublishPending(s.threads, a)
    ensures FillsFresh(Step(codec, s, Advance(i, now)).threads, a)
  {
    hide LastPublish, Stored, ToMysqlRow, FromMysqlRow;
    AdvanceKeepsTask(codec, s, i, now, a);
    var t, last := s.threads[i], LastPublish(s.threads, a);
    if FindsAt(t, a) && t.find.ReadTable? {
      if s.store.mysql.None? {
        StoredNeedsATable(s.store, a);
      } else if last.Some? {
        RowRoundTrip(s.threads[last.value].entry);
      }
    }
  }

  /** Something was published where a find is about to fill in. */
  ghost predicate FillsHeard(threads: seq<Thread>, a: Address) {
    forall i | 0 <= i < |threads| && FindsAt(threads[i], a)
        && (threads[i].find.FillCache? || threads[i].find.FillMap?) ::
      LastPublish(threads, a).Some?
  }

  ghost predicate MapHeard(s: State, a: Address) {
    StoreKey(a) in s.store.entries ==> LastPublish(s.threads, a).Some?
  }

  lemma AdvanceKeepsHeard(codec: Codec, s: State, i: nat, now: real, addresses: iset<Address>, a: Address)
    requires i < |s.threads| && ThreadsInside(addresses, s.threads) && OwnStoreKey(addresses, a)
    requires FillsHeard(s.threads, a) && MapHeard(s, a) && RowFresh(s, a, true)
    ensures
      var next := Step(codec, s, Advance(i, now));
      FillsHeard(next.threads, a) && MapHeard(next, a)
  {
    hide LastPublish, StoreKey, CacheKey, Stored, FromMysqlRow;
    AdvanceKeepsTask(codec, s, i, now, a);
    EntriesAfter(codec, s.store, s.threads[i], now);
  }

  // -------------------------------------------------------------------------------------------
  // Every step
  // -------------------------------------------------------------------------------------------

  /** The local map follows the last publish. This takes publishes apart, and finds apart unless there
    * is no database to fill back from. */
  ghost predicate MapMode(s: State, a: Address) {
    && OnlyLast(s.threads, a)
    && MapFresh(s, a)
    && RowFresh(s, a, false)
    && FillsFresh(s.threads, a)
    && if s.store.mysql.Some? then FindsWait(s.threads, a) else NoFills(s.threads)
  }

  /** The database alone follows it: a find may still fill an old entry into the map, which is read
    * only if there is no row. */
  ghost predicate RowMode(s: State, a: Address) {
    && OnlyLast(s.threads, a)
    && RowFresh(s, a, true)
    && FillsHeard(s.threads, a)
    && MapHeard(s, a)
  }

  lemma AdvanceKeepsNoFills(codec: Codec, s: State, i: nat, now: real)
    requires i < |s.threads| && s.store.mysql.None? && NoFills(s.threads)
    ensures NoFills(Step(codec, s, Advance(i, now)).threads)
  {
    hide StoreKey, CacheKey;
  }

  lemma AdvanceKeepsMapMode(codec: Codec, s: State, i: nat, now: real, addresses: iset<Address>, a: Address)
    requires i < |s.threads| && ThreadsInside(addresses, s.threads) && OwnStoreKey(addresses, a) && MapMode(s, a)
    ensures MapMode(Step(codec, s, Advance(i, now)), a)
  {
    hide LastPublish, Latest, MapFresh, RowFresh, FillsFresh, OnlyLast, NoFills, StoreKey, CacheKey, PublishAdvance,
        FindAdvance;
    AdvanceKeepsOrder(codec, s, i, now, a);
    AdvanceKeepsMapFresh(codec, s, i, now, addresses, a);
    AdvanceKeepsRowFresh(codec, s, i, now, addresses, a, false);
    assert FindsAt(s.threads[i], a) && s.threads[i].find.ReadTable? ==> FindPending(s.threads, a);
    AdvanceKeepsFillsFresh(codec, s, i, now, a);
    TableAfter(codec, s.store, s.threads[i], now);
    if s.store.mysql.None? {
      AdvanceKeepsNoFills(codec, s, i, now);
    }
  }

  lemma BeginKeepsMapMode(codec: Codec, s: State, action: Action, d: Discipline, a: Address)
    requires action.BeginPublish? || action.BeginFind?
    requires Enabled(s, action) && Obeys(d, a, s.threads, action) && MapMode(s, a)
    requires d.publishesApart && (d.findsApart || s.store.mysql.None?)
    ensures MapMode(Step(codec, s, action), a)
  {
    hide LastPublish, StoreKey, CacheKey, Stored;
    var next := Step(codec, s, action);
    var t := next.threads[|s.threads|];
    assert next.threads == s.threads + [t];
    LastOfAppend(s.threads, t, a);
    StoredNeedsTheTable(s.store, next.store, a);
    assert FindPending(s.threads, a) || FindsAt(t, a) || !FindPending(next.threads, a);
    assert PublishPending(s.threads, a) || PublishesAt(t, a) || !PublishPending(next.threads, a);
  }

  lemma DisturbKeepsMapMode(codec: Codec, s: State, kv: RS.Kv, a: Address)
    requires Enabled(s, Disturb(kv)) && MapMode(s, a)
    ensures MapMode(Step(codec, s, Disturb(kv)), a)
  {
    hide LastPublish, StoreKey, CacheKey, Stored;
    StoredNeedsTheTable(s.store, Step(codec, s, Disturb(kv)).store, a);
  }

  lemma StepKeepsMapMode(codec: Codec, s: State, action: Action, addresses: iset<Address>, d: Discipline, a: Address)
    requires Enabled(s, action) && Obeys(d, a, s.threads, action) && ThreadsInside(addresses, s.threads)
    requires OwnStoreKey(addresses, a) && d.publishesApart && (d.findsApart || s.store.mysql.None?) && MapMode(s, a)
    ensures MapMode(Step(codec, s, action), a)
  {
    hide MapMode, Obeys, Step;
    match action
    case Advance(i, now) => AdvanceKeepsMapMode(codec, s, i, now, addresses, a);
    case Disturb(kv) => DisturbKeepsMapMode(codec, s, kv, a);
    case _ => BeginKeepsMapMode(codec, s, action, d, a);
  }

  lemma StepKeepsRowMode(codec: Codec, s: State, action: Action, addresses: iset<Address>, d: Discipline, a: Address)
    requires Enabled(s, action) && Obeys(d, a, s.threads, action) && ThreadsInside(addresses, s.threads)
    requires OwnStoreKey(addresses, a) && OwnCompositeKey(addresses, a) && d.publishesApart
    requires s.store.mysql.Some? && s.store.redis.None? && RowMode(s, a)
    ensures RowMode(Step(codec, s, action), a)
  {
    hide LastPublish, StoreKey, CacheKey, Stored, PublishAdvance, FindAdvance, CompositeKey, OwnCompositeKey;
    var next := Step(codec, s, action);
    match action
    case Advance(i, now) =>
      AdvanceKeepsOrder(codec, s, i, now, a);
      AdvanceKeepsRowFresh(codec, s, i, now, addresses, a, true);
      AdvanceKeepsHeard(codec, s, i, now, addresses, a);
    case Disturb(_) =>
    case _ =>
      var t := next.threads[|s.threads|];
      assert next.threads == s.threads + [t];
      LastOfAppend(s.threads, t, a);
      StoredNeedsTheTable(s.store, next.store, a);
  }

  lemma StepKeepsCacheFresh(codec: Codec, s: State, action: Action, addresses: iset<Address>, a: Address)
    requires codec.Faithful() && Enabled(s, action) && ThreadsInside(addresses, s.threads) && OwnCacheKey(addresses, a)
    requires OnlyLast(s.threads, a) && FillsFresh(s.threads, a) && CacheFresh(codec, s, a)
    ensures CacheFresh(codec, Step(codec, s, action), a)
  {
    hide LastPublish, StoreKey, CacheKey, PublishAdvance, FindAdvance, FillsFresh;
    match action
    case Advance(i, now) => AdvanceKeepsCacheFresh(codec, s, i, now, addresses, a);
    case Disturb(_) =>
    case _ =>
      var next := Step(codec, s, action);
      var t := next.threads[|s.threads|];
      assert next.threads == s.threads + [t];
      LastOfAppend(s.threads, t, a);
  }

  // -------------------------------------------------------------------------------------------
  // Every run
  // -------------------------------------------------------------------------------------------

  ghost predicate AddressesInside(addresses: iset<Address>, threads: seq<Thread>) {
    forall i | 0 <= i < |threads| ::
      match threads[i]
      case Publisher(e, _) => AddressOf(e) in addresses
      case Finder(b, _, _) => b in addresses
  }

  lemma StepStaysInside(codec: Codec, s: State, action: Action, addresses: iset<Address>)
    requires Enabled(s, action) && Inside(addresses, action) && AddressesInside(addresses, s.threads)
    ensures AddressesInside(addresses, Step(codec, s, action).threads)
    ensures Step(codec, s, action).store.mysql.Some? == s.store.mysql.Some?
  {
    hide StoreKey, CacheKey, Stored;
  }

  lemma KnownThreadsInside(codec: Codec, redis: bool, addresses: iset<Address>, s: State)
    requires Inv(codec, redis, s) && AddressesInside(addresses, s.threads)
    ensures ThreadsInside(addresses, s.threads)
  {
    hide StoreKnown, StoreKey, CacheKey;
    forall i | 0 <= i < |s.threads|
      ensures ThreadsInside(addresses, [s.threads[i]])
    {
      assert ThreadKnown(s.threads[i], redis, s.store.entries, s.stamped);
    }
    assert forall i | 0 <= i < |s.threads| ::
        ThreadsInside(addresses, [s.threads[i]]) && [s.threads[i]][0] == s.threads[i];
  }

  lemma {:induction false} RunStaysInside(
      codec: Codec, backends: CR.Backends, addresses: iset<Address>, states: seq<State>, trace: seq<Action>, n: nat)
    requires codec.Faithful() && IsRun(codec, backends, states, trace) && Over(addresses, trace)
    requires n <= |trace| < 0x7FFF_FFFF_FFFF_FFFF
    ensures AddressesInside(addresses, states[n].threads) && ThreadsInside(addresses, states[n].threads)
    ensures states[n].store.mysql.Some? == backends.mysql && states[n].store.redis.Some? == backends.redis
  {
    hide Inv, Step, ThreadsInside, AddressesInside;
    if n == 0 {
      InitInside(backends, addresses);
    } else {
      RunStaysInside(codec, backends, addresses, states, trace, n - 1);
      assert Enabled(states[n - 1], trace[n - 1]) && Inside(addresses, trace[n - 1]);
      StepStaysInside(codec, states[n - 1], trace[n - 1], addresses);
    }
    RunKeepsInv(codec, backends, states, trace, n);
    InvFixesTheCache(codec, backends.redis, states[n]);
    KnownThreadsInside(codec, backends.redis, addresses, states[n]);
  }

  lemma InitInside(backends: CR.Backends, addresses: iset<Address>)
    ensures AddressesInside(addresses, Init(backends).threads)
    ensures Init(backends).store.mysql.Some? == backends.mysql
  {
  }

  lemma InvFixesTheCache(codec: Codec, redis: bool, s: State)
    requires Inv(codec, redis, s)
    ensures s.store.redis.Some? == redis
  {
  }

  lemma {:induction false} RunKeepsMapMode(
      codec: Codec, backends: CR.Backends, addresses: iset<Address>, d: Discipline, a: Address,
      states: seq<State>, trace: seq<Action>, n: nat)
    requires codec.Faithful() && IsRun(codec, backends, states, trace) && Over(addresses, trace)
        && Disciplined(d, a, states, trace)
    requires n <= |trace| < 0x7FFF_FFFF_FFFF_FFFF && OwnStoreKey(addresses, a)
    requires d.publishesApart && (d.findsApart || !backends.mysql)
    ensures MapMode(states[n], a)
    ensures OwnCacheKey(addresses, a) ==> CacheFresh(codec, states[n], a)
  {
    hide Step, MapMode, CacheFresh, OwnStoreKey, OwnCacheKey, ThreadsInside, AddressesInside, Obeys;
    if n == 0 {
      StartsFresh(codec, backends, a);
    } else {
      RunKeepsMapMode(codec, backends, addresses, d, a, states, trace, n - 1);
      RunStaysInside(codec, backends, addresses, states, trace, n - 1);
      assert Enabled(states[n - 1], trace[n - 1]) && Obeys(d, a, states[n - 1].threads, trace[n - 1]);
      StepKeepsMapMode(codec, states[n - 1], trace[n - 1], addresses, d, a);
      if OwnCacheKey(addresses, a) {
        MapModeParts(states[n - 1], a);
        StepKeepsCacheFresh(codec, states[n - 1], trace[n - 1], addresses, a);
      }
    }
  }

  lemma MapModeParts(s: State, a: Address)
    requires MapMode(s, a)
    ensures OnlyLast(s.threads, a) && FillsFresh(s.threads, a)
  {
  }

  lemma StartsFresh(codec: Codec, backends: CR.Backends, a: Address)
    ensures MapMode(Init(backends), a) && RowMode(Init(backends), a) && CacheFresh(codec, Init(backends), a)
  {
    hide StoreKey, CacheKey;
  }

  lemma {:induction false} RunKeepsRowMode(
      codec: Codec, addresses: iset<Address>, d: Discipline, a: Address, states: seq<State>, trace: seq<Action>, n: nat)
    requires codec.Faithful() && IsRun(codec, CR.Backends(true, false), states, trace)
    requires Over(addresses, trace) && Disciplined(d, a, states, trace) && n <= |trace| < 0x7FFF_FFFF_FFFF_FFFF
    requires OwnStoreKey(addresses, a) && OwnCompositeKey(addresses, a) && d.publishesApart
    ensures RowMode(states[n], a)
  {
    hide Step, RowMode, OwnStoreKey, OwnCompositeKey, ThreadsInside, AddressesInside, Obeys;
    if n == 0 {
      StartsFresh(codec, CR.Backends(true, false), a);
    } else {
      RunKeepsRowMode(codec, addresses, d, a, states, trace, n - 1);
      RunStaysInside(codec, CR.Backends(true, false), addresses, states, trace, n - 1);
      assert Enabled(states[n - 1], trace[n - 1]) && Obeys(d, a, states[n - 1].threads, trace[n - 1]);
      StepKeepsRowMode(codec, states[n - 1], trace[n - 1], addresses, d, a);
    }
  }

  // -------------------------------------------------------------------------------------------
  // What a find reads
  // -------------------------------------------------------------------------------------------

  /** Whatever tier a find reaches holds the last publish of the address; unless `byRow`, the local map
    * does in any case. */
  ghost predicate Right(codec: Codec, s: State, a: Address, byRow: bool) {
    match Latest(s.threads, a)
    case None =>
      && StoreKey(a) !in s.store.entries
      && Stored(s.store, a).None?
      && (s.store.redis.Some? ==> CacheKey(a) !in s.store.redis.value)
    case Some(e) =>
      && Decimal.FitsInt64(e.version)
      && (Stored(s.store, a) == Some(ToMysqlRow(e)) || (!byRow && Stored(s.store, a).None?))
      && (!byRow ==> StoreKey(a) in s.store.entries && s.store.entries[StoreKey(a)] == e)
      && (s.store.redis.Some? && CacheKey(a) in s.store.redis.value ==>
            codec.parse(s.store.redis.value[CacheKey(a)].value) == Parsed(e))
  }

  lemma SettledIsRight(codec: Codec, addresses: iset<Address>, s: State, a: Address)
    requires ThreadsInside(addresses, s.threads) && !PublishPending(s.threads, a)
    ensures MapMode(s, a) && CacheFresh(codec, s, a) ==> Right(codec, s, a, false)
    ensures RowMode(s, a) && s.store.redis.None? ==> Right(codec, s, a, true)
  {
    hide LastPublish, StoreKey, CacheKey, Stored, FillsFresh, NoFills, FindsWait, OnlyLast;
  }

  /** Where a find stands that has seen nothing but right tiers. */
  ghost predicate OnTrack(thread: Thread, threads: seq<Thread>, a: Address, byRow: bool)
    requires thread.Finder?
  {
    match thread.find
    case ReadCache => true
    case ReadTable => true
    case FillCache(e) => Latest(threads, a) == Some(e)
    case FillMap(e) => Latest(threads, a) == Some(e)
    case ReadMap => byRow ==> Latest(threads, a).None?
    case Returned(found) => found == LatestAnswer(threads, a)
  }

  lemma RightTiersAnswer(codec: Codec, s: State, i: nat, now: real, a: Address, byRow: bool)
    requires i < |s.threads| && FindsAt(s.threads[i], a) && Right(codec, s, a, byRow)
        && OnTrack(s.threads[i], s.threads, a, byRow)
    ensures
      var next := Step(codec, s, Advance(i, now));
      FindsAt(next.threads[i], a) && OnTrack(next.threads[i], next.threads, a, byRow)
  {
    hide LastPublish, StoreKey, CacheKey, Stored, ToMysqlRow, FromMysqlRow;
    AdvanceKeepsTask(codec, s, i, now, a);
    var latest := Latest(s.threads, a);
    if latest.Some? {
      RowRoundTrip(latest.value);
    }
  }

  /** A step that leaves no publish of the address unfinished keeps a find of it on track. */
  lemma StepKeepsOnTrack(codec: Codec, s: State, action: Action, i: nat, a: Address, byRow: bool)
    requires Enabled(s, action) && i < |s.threads| && FindsAt(s.threads[i], a)
    requires Right(codec, s, a, byRow) && OnTrack(s.threads[i], s.threads, a, byRow)
    requires !PublishPending(Step(codec, s, action).threads, a)
    ensures
      var next := Step(codec, s, action);
      && i < |next.threads| && FindsAt(next.threads[i], a) && OnTrack(next.threads[i], next.threads, a, byRow)
      && Latest(next.threads, a) == Latest(s.threads, a)
  {
    hide LastPublish, Right, StoreKey, CacheKey, PublishAdvance, FindAdvance;
    var next := Step(codec, s, action);
    match action
    case Advance(j, now) =>
      AdvanceKeepsTask(codec, s, j, now, a);
      if i == j {
        RightTiersAnswer(codec, s, i, now, a, byRow);
      }
    case Disturb(_) =>
    case _ =>
      var t := next.threads[|s.threads|];
      assert next.threads == s.threads + [t];
      assert !PublishesAt(next.threads[|s.threads|], a);
      LastOfAppend(s.threads, t, a);
  }

  /** A find of the address begins at step `n`, and up to step `m` no publish of it is unfinished. */
  ghost predicate Undisturbed(a: Address, states: seq<State>, trace: seq<Action>, n: nat, m: nat)
    requires n < m <= |trace| && |states| == |trace| + 1
  {
    && trace[n].BeginFind? && Normal(trace[n].asked) == a
    && forall k | n <= k <= m :: !PublishPending(states[k].threads, a)
  }

  /** Whenever such a find has returned, it returned the last publish of its address. */
  ghost predicate ReadsTheLatest(a: Address, states: seq<State>, trace: seq<Action>)
    requires |states| == |trace| + 1
  {
    forall n: nat, m: nat | n < m <= |trace| && Undisturbed(a, states, trace, n, m) ::
      var i := |states[n].threads|;
      i < |states[m].threads| && FindsAt(states[m].threads[i], a) &&
      (states[m].threads[i].find.Returned? ==> states[m].threads[i].find.found == LatestAnswer(states[m].threads, a))
  }

  lemma FindStarts(codec: Codec, s: State, asked: Address)
    ensures
      var a, next := Normal(asked), Step(codec, s, BeginFind(asked));
      && |next.threads| == |s.threads| + 1
      && FindsAt(next.threads[|s.threads|], a)
      && next.threads[|s.threads|].find == ReadCache
      && Latest(next.threads, a) == Latest(s.threads, a)
  {
    hide LastPublish, StoreKey;
    var next := Step(codec, s, BeginFind(asked));
    LastOfAppend(s.threads, next.threads[|s.threads|], Normal(asked));
  }

  lemma {:induction false} UndisturbedFinds(
      codec: Codec, backends: CR.Backends, a: Address, byRow: bool, states: seq<State>, trace: seq<Action>,
      n: nat, m: nat)
    requires IsRun(codec, backends, states, trace) && n < m <= |trace| && Undisturbed(a, states, trace, n, m)
    requires forall k | n <= k < m :: Right(codec, states[k], a, byRow)
    ensures
      var i := |states[n].threads|;
      && i < |states[m].threads| && FindsAt(states[m].threads[i], a)
      && OnTrack(states[m].threads[i], states[m].threads, a, byRow)
      && Latest(states[m].threads, a) == Latest(states[n].threads, a)
  {
    hide Step, Right, PublishPending, Latest;
    assert Enabled(states[m - 1], trace[m - 1]);
    if m == n + 1 {
      FindStarts(codec, states[n], trace[n].asked);
    } else {
      UndisturbedFinds(codec, backends, a, byRow, states, trace, n, m - 1);
      assert Right(codec, states[m - 1], a, byRow) && !PublishPending(states[m].threads, a);
      StepKeepsOnTrack(codec, states[m - 1], trace[m - 1], |states[n].threads|, a, byRow);
    }
  }

  // -------------------------------------------------------------------------------------------
  // Which disciplines the backends tolerate
  // -------------------------------------------------------------------------------------------

  ghost predicate CompositesApart(addresses: iset<Address>) {
    forall a | a in addresses :: OwnCompositeKey(addresses, a)
  }

  /** Publishes of an address must be kept apart in any case. Finds may overlap them where nothing is
    * filled back, or where only the map is and a row, once written, is never lost to another address. */
  ghost predicate Tolerates(backends: CR.Backends, addresses: iset<Address>, d: Discipline) {
    && d.publishesApart
    && (d.findsApart || !backends.mysql || (!backends.redis && CompositesApart(addresses)))
  }

  lemma SeparateKeys(backends: CR.Backends, addresses: iset<Address>, a: Address)
    requires CR.Separate(backends, addresses) && a in addresses
    ensures OwnStoreKey(addresses, a) && (backends.redis ==> OwnCacheKey(addresses, a))
  {
    hide StoreKey, CacheKey;
  }

  lemma NoCacheIsFresh(codec: Codec, s: State, a: Address)
    requires s.store.redis.None?
    ensures CacheFresh(codec, s, a)
  {
  }

  lemma SettledRunIsRight(
      codec: Codec, backends: CR.Backends, addresses: iset<Address>, d: Discipline, a: Address,
      states: seq<State>, trace: seq<Action>, n: nat, byRow: bool)
    requires codec.Faithful() && CR.Separate(backends, addresses) && a in addresses
    requires IsRun(codec, backends, states, trace) && Over(addresses, trace) && Disciplined(d, a, states, trace)
    requires n <= |trace| < 0x7FFF_FFFF_FFFF_FFFF && !PublishPending(states[n].threads, a) && d.publishesApart
    requires if byRow then backends == CR.Backends(true, false) && CompositesApart(addresses)
             else d.findsApart || !backends.mysql
    ensures Right(codec, states[n], a, byRow)
  {
    hide Step, Right, MapMode, RowMode, CacheFresh, OwnStoreKey, OwnCacheKey, OwnCompositeKey, ThreadsInside,
        CR.Separate;
    SeparateKeys(backends, addresses, a);
    RunStaysInside(codec, backends, addresses, states, trace, n);
    if byRow {
      RunKeepsRowMode(codec, addresses, d, a, states, trace, n);
    } else {
      RunKeepsMapMode(codec, backends, addresses, d, a, states, trace, n);
      if !backends.redis {
        NoCacheIsFresh(codec, states[n], a);
      }
    }
    SettledIsRight(codec, addresses, states[n], a);
  }

  /** Under a tolerated discipline at one address, whatever overlaps elsewhere, every find of it during
    * which no publish of it is unfinished returns the last entry published there. */
  lemma ToleratedOverlap(
      codec: Codec, backends: CR.Backends, addresses: iset<Address>, d: Discipline, a: Address,
      states: seq<State>, trace: seq<Action>)
    requires codec.Faithful() && CR.Separate(backends, addresses) && a in addresses && Tolerates(backends, addresses, d)
    requires IsRun(codec, backends, states, trace) && Over(addresses, trace) && Disciplined(d, a, states, trace)
    requires |trace| < 0x7FFF_FFFF_FFFF_FFFF
    ensures ReadsTheLatest(a, states, trace)
  {
    hide Step, Right, PublishPending, Latest, CompositesApart, CR.Separate;
    var byRow := !d.findsApart && backends.mysql;
    forall n: nat, m: nat | n < m <= |trace| && Undisturbed(a, states, trace, n, m)
      ensures
        var i := |states[n].threads|;
        i < |states[m].threads| && FindsAt(states[m].threads[i], a) &&
        (states[m].threads[i].find.Returned? ==> states[m].threads[i].find.found == LatestAnswer(states[m].threads, a))
    {
      forall k | n <= k < m
        ensures Right(codec, states[k], a, byRow)
      {
        SettledRunIsRight(codec, backends, addresses, d, a, states, trace, k, byRow);
      }
      UndisturbedFinds(codec, backends, a, byRow, states, trace, n, m);
    }
  }

  /** A find that has not returned keeps publishes of its address from beginning. */
  lemma FindHoldsPublishesBack(codec: Codec, s: State, action: Action, d: Discipline, i: nat, a: Address)
    requires Enabled(s, action) && Obeys(d, a, s.threads, action) && d.findsApart
    requires i < |s.threads| && FindsAt(s.threads[i], a) && !s.threads[i].find.Returned?
        && !PublishPending(s.threads, a)
    ensures !PublishPending(Step(codec, s, action).threads, a)
  {
    hide LastPublish, StoreKey, CacheKey, PublishAdvance, FindAdvance;
    assert FindPending(s.threads, a);
    match action
    case Advance(j, now) => AdvanceKeepsOrder(codec, s, j, now, a);
    case _ =>
  }

  lemma ReturnedStays(codec: Codec, s: State, action: Action, i: nat, a: Address)
    requires Enabled(s, action) && i < |s.threads| && FindsAt(s.threads[i], a) && s.threads[i].find.Returned?
    ensures i < |Step(codec, s, action).threads| && Step(codec, s, action).threads[i] == s.threads[i]
  {
    hide StoreKey, CacheKey;
  }

  /** The find that begins at step `n` has returned what was last published then, or is on track with
    * nothing published since. */
  ghost predicate HoldsTheLatest(a: Address, before: State, after: State) {
    var i := |before.threads|;
    && i < |after.threads| && FindsAt(after.threads[i], a)
    && if after.threads[i].find.Returned? then after.threads[i].find.found == LatestAnswer(before.threads, a)
       else
         && !PublishPending(after.threads, a)
         && OnTrack(after.threads[i], after.threads, a, false)
         && Latest(after.threads, a) == Latest(before.threads, a)
  }

  /** With publishes and finds of an address kept apart, every finished find of it, on any backends and
    * whatever overlaps elsewhere, returned the last entry published there before it began. */
  lemma {:induction false} EveryFindReturnsTheLatest(
      codec: Codec, backends: CR.Backends, addresses: iset<Address>, a: Address,
      states: seq<State>, trace: seq<Action>, n: nat, m: nat)
    requires codec.Faithful() && CR.Separate(backends, addresses) && a in addresses
    requires IsRun(codec, backends, states, trace) && Over(addresses, trace)
        && Disciplined(Discipline(true, true), a, states, trace)
    requires n < m <= |trace| < 0x7FFF_FFFF_FFFF_FFFF && trace[n].BeginFind? && Normal(trace[n].asked) == a
    ensures HoldsTheLatest(a, states[n], states[m])
  {
    hide Step, Right, PublishPending, Latest, CR.Separate;
    assert Enabled(states[m - 1], trace[m - 1])
        && Obeys(Discipline(true, true), a, states[m - 1].threads, trace[m - 1]);
    if m == n + 1 {
      FindStarts(codec, states[n], trace[n].asked);
      FindStartsSettled(codec, states[n], trace[n].asked);
    } else {
      EveryFindReturnsTheLatest(codec, backends, addresses, a, states, trace, n, m - 1);
      var i := |states[n].threads|;
      if states[m - 1].threads[i].find.Returned? {
        ReturnedStays(codec, states[m - 1], trace[m - 1], i, a);
      } else {
        SettledRunIsRight(codec, backends, addresses, Discipline(true, true), a, states, trace, m - 1, false);
        FindHoldsPublishesBack(codec, states[m - 1], trace[m - 1], Discipline(true, true), i, a);
        StepKeepsOnTrack(codec, states[m - 1], trace[m - 1], i, a, false);
      }
    }
  }

  lemma FindStartsSettled(codec: Codec, s: State, asked: Address)
    requires !PublishPending(s.threads, Normal(asked))
    ensures !PublishPending(Step(codec, s, BeginFind(asked)).threads, Normal(asked))
  {
    hide StoreKey;
  }
}
