/** What a find of the configuration service may return when publishes of its address overlap it. Under
  * a tolerated discipline an address behaves like a regular register: a find returns the last entry whose
  * publish had finished when it began, or one whose publish was under way meanwhile. */
module ConfigRegular {
  import opened Wrappers
  import opened ConfigKeys
  import opened ConfigService
  import opened MysqlPool
  import opened ConfigOverlap
  import opened ConfigDiscipline
  import CR = ConfigRuns
  import RS = RedisStore

  predicate FinishedAt(t: Thread, a: Address) {
    PublishesAt(t, a) && t.publish == Published
  }

  /** The last publish of the address that has finished, in the order in which publishes began. */
  function LastFinished(threads: seq<Thread>, a: Address): (r: Option<nat>)
    ensures r.Some? ==> r.value < |threads| && FinishedAt(threads[r.value], a)
    ensures forall j | (if r.Some? then r.value + 1 else 0) <= j < |threads| :: !FinishedAt(threads[j], a)
  {
    if |threads| == 0 then None
    else if FinishedAt(threads[|threads| - 1], a) then Some(|threads| - 1)
    else LastFinished(threads[..|threads| - 1], a)
  }

  /** The entry is that of a publish of the address, not one before `floor`. */
  ghost predicate NotBefore(threads: seq<Thread>, a: Address, e: ConfigEntry, floor: Option<nat>) {
    exists j :: 0 <= j < |threads| && PublishesAt(threads[j], a) && threads[j].entry == e
                && (floor.Some? ==> floor.value <= j)
  }

  /** Every publish that had finished is still there, finished. */
  ghost predicate Continues(before: seq<Thread>, after: seq<Thread>, a: Address) {
    && |before| <= |after|
    && (forall j | 0 <= j < |before| && PublishesAt(before[j], a) ::
          PublishesAt(after[j], a) && after[j].entry == before[j].entry)
    && (forall j | 0 <= j < |before| && FinishedAt(before[j], a) :: FinishedAt(after[j], a))
  }

  lemma NotBeforeStays(before: seq<Thread>, after: seq<Thread>, a: Address, e: ConfigEntry, floor: Option<nat>)
    requires Continues(before, after, a) && NotBefore(before, a, e, floor)
    ensures NotBefore(after, a, e, floor)
  {
    var j :| 0 <= j < |before| && PublishesAt(before[j], a) && before[j].entry == e
             && (floor.Some? ==> floor.value <= j);
    assert PublishesAt(after[j], a);
  }

  /** Only the last publish of an address can finish, and then it is the last finished one. */
  lemma FinishedMoves(before: seq<Thread>, after: seq<Thread>, a: Address)
    requires Continues(before, after, a)
    requires forall j | 0 <= j < |after| && FinishedAt(after[j], a) :: j < |before| && FinishedAt(before[j], a)
    ensures LastFinished(after, a) == LastFinished(before, a)
  {
    var was, now := LastFinished(before, a), LastFinished(after, a);
    assert was.Some? ==> FinishedAt(after[was.value], a);
  }

  lemma StepContinues(codec: Codec, s: State, action: Action, a: Address)
    requires Enabled(s, action)
    ensures Continues(s.threads, Step(codec, s, action).threads, a)
  {
    hide StoreKey, CacheKey, Stored, Cached;
  }

  // -------------------------------------------------------------------------------------------
  // What the tiers hold, while a publish is under way too
  // -------------------------------------------------------------------------------------------

  ghost predicate MapRegular(s: State, a: Address) {
    var finished := LastFinished(s.threads, a);
    && (finished.Some? ==> StoreKey(a) in s.store.entries)
    && (StoreKey(a) in s.store.entries ==> NotBefore(s.threads, a, s.store.entries[StoreKey(a)], finished))
  }

  ghost predicate CacheRegular(codec: Codec, s: State, a: Address) {
    s.store.redis.Some? && CacheKey(a) in s.store.redis.value ==>
      var parsed := codec.parse(s.store.redis.value[CacheKey(a)].value);
      parsed.Parsed? && NotBefore(s.threads, a, parsed.value, LastFinished(s.threads, a))
  }

  ghost predicate RowRegular(s: State, a: Address) {
    var finished, row := LastFinished(s.threads, a), Stored(s.store, a);
    && (finished.Some? ==> row.Some?)
    && (row.Some? ==>
          FromMysqlRow(row.value).Some? && NotBefore(s.threads, a, FromMysqlRow(row.value).value, finished))
  }

  /** Beside a row-keeping database the map, and what is filled into it, is only known to be published. */
  ghost predicate FillsPublished(s: State, a: Address) {
    && (StoreKey(a) in s.store.entries ==> NotBefore(s.threads, a, s.store.entries[StoreKey(a)], None))
    && forall i | 0 <= i < |s.threads| && FindsAt(s.threads[i], a)
                  && (s.threads[i].find.FillCache? || s.threads[i].find.FillMap?) ::
         NotBefore(s.threads, a, s.threads[i].find.entry, None)
  }

  /** A publish that does not finish in this step leaves the last finished one. */
  lemma AdvanceMovesFinished(codec: Codec, s: State, i: nat, now: real, a: Address)
    requires i < |s.threads| && OnlyLast(s.threads, a)
    ensures
      var next, t := Step(codec, s, Advance(i, now)), s.threads[i];
      LastFinished(next.threads, a) ==
        if PublishesAt(t, a) && t.publish == WriteCache then Some(i) else LastFinished(s.threads, a)
  {
    hide LastPublish, LastFinished, StoreKey, CacheKey, FindAdvance;
    AdvanceKeepsTask(codec, s, i, now, a);
    StepContinues(codec, s, Advance(i, now), a);
    var next, t := Step(codec, s, Advance(i, now)), s.threads[i];
    if PublishesAt(t, a) && t.publish == WriteCache {
      assert FinishedAt(next.threads[i], a);
      assert LastPublish(next.threads, a) == Some(i);
      assert forall j | i < j < |next.threads| :: !PublishesAt(next.threads[j], a);
    } else {
      FinishedMoves(s.threads, next.threads, a);
    }
  }

  lemma BeginMovesFinished(codec: Codec, s: State, action: Action, a: Address)
    requires Enabled(s, action) && !action.Advance?
    ensures LastFinished(Step(codec, s, action).threads, a) == LastFinished(s.threads, a)
  {
    hide LastFinished, StoreKey, CacheKey;
    StepContinues(codec, s, action, a);
    FinishedMoves(s.threads, Step(codec, s, action).threads, a);
  }

  /** The unfinished publish is not before any finished one. */
  lemma UnfinishedIsLast(threads: seq<Thread>, a: Address, i: nat)
    requires i < |threads| && OnlyLast(threads, a) && PublishesAt(threads[i], a) && threads[i].publish != Published
    ensures NotBefore(threads, a, threads[i].entry, LastFinished(threads, a))
    ensures NotBefore(threads, a, threads[i].entry, Some(i)) && NotBefore(threads, a, threads[i].entry, None)
  {
    hide LastPublish, LastFinished;
    assert LastPublish(threads, a) == Some(i);
  }

  lemma AdvanceKeepsMapRegular(codec: Codec, s: State, i: nat, now: real, addresses: iset<Address>, a: Address)
    requires i < |s.threads| && ThreadsInside(addresses, s.threads) && OwnStoreKey(addresses, a)
    requires OnlyLast(s.threads, a) && MapFresh(s, a) && NoFills(s.threads) && MapRegular(s, a)
    ensures MapRegular(Step(codec, s, Advance(i, now)), a)
  {
    hide LastPublish, LastFinished, StoreKey, CacheKey, PublishAdvance, FindAdvance, NotBefore, Continues;
    var next, t := Step(codec, s, Advance(i, now)), s.threads[i];
    StepContinues(codec, s, Advance(i, now), a);
    AdvanceMovesFinished(codec, s, i, now, a);
    EntriesAfter(codec, s.store, t, now);
    if PublishesAt(t, a) && t.publish != Published {
      UnfinishedIsLast(s.threads, a, i);
      NotBeforeStays(s.threads, next.threads, a, t.entry, Some(i));
      NotBeforeStays(s.threads, next.threads, a, t.entry, LastFinished(s.threads, a));
    }
    if StoreKey(a) in s.store.entries {
      NotBeforeStays(s.threads, next.threads, a, s.store.entries[StoreKey(a)], LastFinished(s.threads, a));
    }
  }

  lemma AdvanceKeepsCacheRegular(codec: Codec, s: State, i: nat, now: real, addresses: iset<Address>, a: Address)
    requires codec.Faithful() && i < |s.threads| && ThreadsInside(addresses, s.threads) && OwnCacheKey(addresses, a)
    requires OnlyLast(s.threads, a) && NoFills(s.threads) && CacheRegular(codec, s, a)
    ensures CacheRegular(codec, Step(codec, s, Advance(i, now)), a)
  {
    hide LastPublish, LastFinished, StoreKey, CacheKey, NotBefore, Continues;
    var next, t, k := Step(codec, s, Advance(i, now)), s.threads[i], CacheKey(a);
    StepContinues(codec, s, Advance(i, now), a);
    AdvanceMovesFinished(codec, s, i, now, a);
    CacheAfter(codec, s.store, t, now, k);
    if PublishesAt(t, a) && t.publish == WriteCache {
      UnfinishedIsLast(s.threads, a, i);
      NotBeforeStays(s.threads, next.threads, a, t.entry, Some(i));
      assert codec.parse(codec.print_(t.entry)) == Parsed(t.entry);
      CacheOfFinished(codec, s.store, t.entry, now);
    } else if s.store.redis.Some? && k in s.store.redis.value {
      var parsed := codec.parse(s.store.redis.value[k].value);
      NotBeforeStays(s.threads, next.threads, a, parsed.value, LastFinished(s.threads, a));
    }
  }

  lemma CacheOfFinished(codec: Codec, s: Store, e: ConfigEntry, now: real)
    ensures
      var kv := AdvanceThread(codec, s, Publisher(e, WriteCache), now).0.redis;
      kv.Some? && CacheKey(AddressOf(e)) in kv.value ==> kv.value[CacheKey(AddressOf(e))].value == codec.print_(e)
  {
    hide CacheKey;
  }

  lemma AdvanceKeepsRowRegular(codec: Codec, s: State, i: nat, now: real, addresses: iset<Address>, a: Address)
    requires i < |s.threads| && ThreadsInside(addresses, s.threads) && OwnCompositeKey(addresses, a)
    requires s.store.mysql.Some? && OnlyLast(s.threads, a) && RowFresh(s, a, true) && RowRegular(s, a)
    ensures RowRegular(Step(codec, s, Advance(i, now)), a)
  {
    hide LastPublish, LastFinished, StoreKey, CacheKey, Stored, ToMysqlRow, FromMysqlRow, CompositeKey, Filters,
         Upserted, PublishAdvance, FindAdvance, NotBefore, Continues;
    var next, t := Step(codec, s, Advance(i, now)), s.threads[i];
    StepContinues(codec, s, Advance(i, now), a);
    AdvanceMovesFinished(codec, s, i, now, a);
    ConfigDiscipline.TableAfter(codec, s.store, t, now);
    if PublishesAt(t, a) && t.publish != Published {
      UnfinishedIsLast(s.threads, a, i);
      NotBeforeStays(s.threads, next.threads, a, t.entry, Some(i));
      NotBeforeStays(s.threads, next.threads, a, t.entry, LastFinished(s.threads, a));
      RowRoundTrip(t.entry);
    }
    if Stored(s.store, a).Some? {
      var e := FromMysqlRow(Stored(s.store, a).value).value;
      NotBeforeStays(s.threads, next.threads, a, e, LastFinished(s.threads, a));
      PublishedIsPublishable(s.threads, addresses, a, e, LastFinished(s.threads, a));
    }
    if t.Publisher? && t.publish == WriteTable {
      var filed := s.store.(mysql := next.store.mysql);
      StoredNeedsTheTable(filed, next.store, a);
      if AddressOf(t.entry) == a {
        UpsertHere(s.store, t.entry);
      } else {
        UpsertElsewhere(s.store, t.entry, a);
        assert AddressOf(t.entry) in addresses && Publishable(AddressOf(t.entry));
      }
    } else {
      StoredNeedsTheTable(s.store, next.store, a);
    }
  }

  lemma PublishedIsPublishable(
      threads: seq<Thread>, addresses: iset<Address>, a: Address, e: ConfigEntry, floor: Option<nat>)
    requires ThreadsInside(addresses, threads) && NotBefore(threads, a, e, floor)
    ensures Publishable(a)
  {
  }

  lemma AdvanceKeepsFillsPublished(codec: Codec, s: State, i: nat, now: real, addresses: iset<Address>, a: Address)
    requires i < |s.threads| && ThreadsInside(addresses, s.threads) && OwnStoreKey(addresses, a)
    requires RowRegular(s, a) && FillsPublished(s, a)
    ensures FillsPublished(Step(codec, s, Advance(i, now)), a)
  {
    hide LastFinished, StoreKey, CacheKey, Stored, FromMysqlRow, PublishAdvance, NotBefore, Continues;
    var next, t := Step(codec, s, Advance(i, now)), s.threads[i];
    StepContinues(codec, s, Advance(i, now), a);
    EntriesAfter(codec, s.store, t, now);
    forall e | NotBefore(s.threads, a, e, None)
      ensures NotBefore(next.threads, a, e, None)
    {
      NotBeforeStays(s.threads, next.threads, a, e, None);
    }
    if PublishesAt(t, a) {
      PublisherCounts(s.threads, a, i);
    }
    if Stored(s.store, a).Some? {
      Loosen(s.threads, a, FromMysqlRow(Stored(s.store, a).value).value, LastFinished(s.threads, a));
    }
  }

  lemma PublisherCounts(threads: seq<Thread>, a: Address, i: nat)
    requires i < |threads| && PublishesAt(threads[i], a)
    ensures NotBefore(threads, a, threads[i].entry, None)
  {
  }

  lemma Loosen(threads: seq<Thread>, a: Address, e: ConfigEntry, floor: Option<nat>)
    requires NotBefore(threads, a, e, floor)
    ensures NotBefore(threads, a, e, None)
  {
  }

  // -------------------------------------------------------------------------------------------
  // Every step and every run
  // -------------------------------------------------------------------------------------------

  /** Where finds may overlap publishes: without a database the map and the cache, with one but no cache
    * the row. */
  ghost predicate Regular(codec: Codec, s: State, a: Address) {
    if s.store.mysql.None? then MapRegular(s, a) && CacheRegular(codec, s, a)
    else s.store.redis.None? && RowRegular(s, a) && FillsPublished(s, a)
  }

  /** A step that is no progress of a thread changes no tier but the cache, which only shrinks. */
  lemma BeginKeepsRegular(codec: Codec, s: State, action: Action, a: Address)
    requires Enabled(s, action) && !action.Advance? && Regular(codec, s, a)
    ensures Regular(codec, Step(codec, s, action), a)
  {
    hide LastFinished, StoreKey, CacheKey, Stored, FromMysqlRow, NotBefore, Continues;
    var next := Step(codec, s, action);
    StepContinues(codec, s, action, a);
    BeginMovesFinished(codec, s, action, a);
    StoredNeedsTheTable(s.store, next.store, a);
    forall e, floor | NotBefore(s.threads, a, e, floor)
      ensures NotBefore(next.threads, a, e, floor)
    {
      NotBeforeStays(s.threads, next.threads, a, e, floor);
    }
    NewcomersFillNothing(codec, s, action);
  }

  lemma NewcomersFillNothing(codec: Codec, s: State, action: Action)
    requires Enabled(s, action) && !action.Advance?
    ensures
      var next := Step(codec, s, action);
      forall i | 0 <= i < |next.threads| :: if i < |s.threads| then next.threads[i] == s.threads[i]
                                            else next.threads[i].Finder? ==> next.threads[i].find == ReadCache
  {
    hide StoreKey;
  }

  lemma StepKeepsRegular(codec: Codec, s: State, action: Action, addresses: iset<Address>, a: Address)
    requires codec.Faithful() && Enabled(s, action) && ThreadsInside(addresses, s.threads) && OwnStoreKey(addresses, a)
    requires if s.store.mysql.None? then MapMode(s, a) && (s.store.redis.Some? ==> OwnCacheKey(addresses, a))
             else RowMode(s, a) && OwnCompositeKey(addresses, a)
    requires Regular(codec, s, a)
    ensures Regular(codec, Step(codec, s, action), a)
  {
    hide Step, MapRegular, CacheRegular, RowRegular, FillsPublished, OwnStoreKey, OwnCacheKey, OwnCompositeKey,
         MapFresh, RowFresh, OnlyLast, NoFills, ThreadsInside;
    match action
    case Advance(i, now) =>
      BackendsStay(codec, s, i, now);
      if s.store.mysql.None? {
        AdvanceKeepsMapRegular(codec, s, i, now, addresses, a);
        if s.store.redis.Some? {
          AdvanceKeepsCacheRegular(codec, s, i, now, addresses, a);
        } else {
          NoCacheIsRegular(codec, Step(codec, s, action), a);
        }
      } else {
        AdvanceKeepsRowRegular(codec, s, i, now, addresses, a);
        AdvanceKeepsFillsPublished(codec, s, i, now, addresses, a);
      }
    case _ => BeginKeepsRegular(codec, s, action, a);
  }

  lemma BackendsStay(codec: Codec, s: State, i: nat, now: real)
    requires i < |s.threads|
    ensures Step(codec, s, Advance(i, now)).store.mysql.Some? == s.store.mysql.Some?
    ensures Step(codec, s, Advance(i, now)).store.redis.Some? == s.store.redis.Some?
  {
    hide StoreKey, CacheKey, Stored;
  }

  lemma NoCacheIsRegular(codec: Codec, s: State, a: Address)
    requires s.store.redis.None?
    ensures CacheRegular(codec, s, a)
  {
  }

  lemma StartsRegular(codec: Codec, backends: CR.Backends, a: Address)
    requires !backends.mysql || !backends.redis
    ensures Regular(codec, Init(backends), a)
  {
    hide StoreKey, CacheKey;
  }

  lemma {:induction false} RunKeepsRegular(
      codec: Codec, backends: CR.Backends, addresses: iset<Address>, d: Discipline, a: Address,
      states: seq<State>, trace: seq<Action>, n: nat)
    requires codec.Faithful() && CR.Separate(backends, addresses) && a in addresses && d.publishesApart
    requires !backends.mysql || (!backends.redis && CompositesApart(addresses))
    requires IsRun(codec, backends, states, trace) && Over(addresses, trace) && Disciplined(d, a, states, trace)
    requires n <= |trace| < 0x7FFF_FFFF_FFFF_FFFF
    ensures Regular(codec, states[n], a)
  {
    hide Step, Regular, MapMode, RowMode, CacheFresh, OwnStoreKey, OwnCacheKey, OwnCompositeKey, ThreadsInside,
         AddressesInside, CR.Separate, Obeys;
    if n == 0 {
      StartsRegular(codec, backends, a);
    } else {
      RunKeepsRegular(codec, backends, addresses, d, a, states, trace, n - 1);
      SeparateKeys(backends, addresses, a);
      RunStaysInside(codec, backends, addresses, states, trace, n - 1);
      if backends.mysql {
        RunKeepsRowMode(codec, addresses, d, a, states, trace, n - 1);
      } else {
        RunKeepsMapMode(codec, backends, addresses, d, a, states, trace, n - 1);
      }
      assert Enabled(states[n - 1], trace[n - 1]);
      StepKeepsRegular(codec, states[n - 1], trace[n - 1], addresses, a);
    }
  }

  // -------------------------------------------------------------------------------------------
  // What a find returns
  // -------------------------------------------------------------------------------------------

  /** Where a find stands that began when `floor` was the last finished publish of its address. */
  ghost predicate OnCourse(thread: Thread, threads: seq<Thread>, a: Address, floor: Option<nat>, byRow: bool)
    requires thread.Finder?
  {
    match thread.find
    case ReadCache => true
    case ReadTable => true
    case FillCache(e) => NotBefore(threads, a, e, floor)
    case FillMap(e) => NotBefore(threads, a, e, floor)
    case ReadMap => byRow ==> floor.None?
    case Returned(Missing) => floor.None?
    case Returned(Entry(e)) => NotBefore(threads, a, e, floor)
    case Returned(Threw) => false
  }

  ghost predicate StillFinished(threads: seq<Thread>, a: Address, floor: Option<nat>) {
    floor.Some? ==> floor.value < |threads| && FinishedAt(threads[floor.value], a)
  }

  /** What is not before the last finished publish is not before any that has finished. */
  lemma Lower(threads: seq<Thread>, a: Address, e: ConfigEntry, floor: Option<nat>)
    requires StillFinished(threads, a, floor)
    ensures NotBefore(threads, a, e, LastFinished(threads, a)) ==> NotBefore(threads, a, e, floor)
  {
  }

  lemma RegularCacheAnswers(codec: Codec, s: State, a: Address, now: real, floor: Option<nat>)
    requires CacheRegular(codec, s, a) && StillFinished(s.threads, a, floor)
    ensures !Cached(codec, s.store, a, now).Throws?
    ensures Cached(codec, s.store, a, now).Parsed? ==>
              NotBefore(s.threads, a, Cached(codec, s.store, a, now).value, floor)
  {
    hide LastFinished, CacheKey, NotBefore;
    var cached := Cached(codec, s.store, a, now);
    if !cached.Discarded? {
      Lower(s.threads, a, codec.parse(s.store.redis.value[CacheKey(a)].value).value, floor);
    }
  }

  lemma RegularTiersAnswer(codec: Codec, s: State, i: nat, now: real, a: Address, floor: Option<nat>)
    requires i < |s.threads| && FindsAt(s.threads[i], a) && Regular(codec, s, a) && StillFinished(s.threads, a, floor)
    requires OnCourse(s.threads[i], s.threads, a, floor, s.store.mysql.Some?)
    ensures
      var next := FindAdvance(codec, s.store, a, s.threads[i].find, now);
      OnCourse(Finder(a, false, next.1), s.threads, a, floor, s.store.mysql.Some?)
  {
    hide LastFinished, StoreKey, CacheKey, FromMysqlRow, NotBefore, StillFinished, Stored, Cached, CacheRegular;
    if s.store.mysql.None? {
      StoredNeedsATable(s.store, a);
      RegularCacheAnswers(codec, s, a, now, floor);
    } else {
      NoCacheIsRegular(codec, s, a);
      RegularCacheAnswers(codec, s, a, now, floor);
      if Stored(s.store, a).Some? {
        Lower(s.threads, a, FromMysqlRow(Stored(s.store, a).value).value, floor);
      }
    }
    if StoreKey(a) in s.store.entries {
      Lower(s.threads, a, s.store.entries[StoreKey(a)], floor);
    }
    FloorIsFinished(s.threads, a, floor);
  }

  lemma FloorIsFinished(threads: seq<Thread>, a: Address, floor: Option<nat>)
    requires StillFinished(threads, a, floor)
    ensures floor.Some? ==> LastFinished(threads, a).Some?
  {
  }

  /** Any step keeps a find of the address on course. */
  lemma StepKeepsOnCourse(codec: Codec, s: State, action: Action, i: nat, a: Address, floor: Option<nat>)
    requires Enabled(s, action) && i < |s.threads| && FindsAt(s.threads[i], a)
    requires Regular(codec, s, a) && StillFinished(s.threads, a, floor)
    requires OnCourse(s.threads[i], s.threads, a, floor, s.store.mysql.Some?)
    ensures
      var next := Step(codec, s, action);
      && StillFinished(next.threads, a, floor)
      && i < |next.threads| && FindsAt(next.threads[i], a)
      && OnCourse(next.threads[i], next.threads, a, floor, s.store.mysql.Some?)
  {
    hide LastFinished, Regular, StoreKey, CacheKey, PublishAdvance, FindAdvance, NotBefore;
    var next := Step(codec, s, action);
    StepContinues(codec, s, action, a);
    forall e | NotBefore(s.threads, a, e, floor)
      ensures NotBefore(next.threads, a, e, floor)
    {
      NotBeforeStays(s.threads, next.threads, a, e, floor);
    }
    if action.Advance? && action.thread == i {
      RegularTiersAnswer(codec, s, i, action.now, a, floor);
    }
  }

  /** Whatever overlaps it, a find that has returned gives an entry published at its address, at or after
    * the last publish that had finished when it began; it misses only if none had. */
  ghost predicate ReturnsRegularly(a: Address, before: State, after: State) {
    var i, floor := |before.threads|, LastFinished(before.threads, a);
    && i < |after.threads| && FindsAt(after.threads[i], a)
    && (after.threads[i].find.Returned? ==>
          match after.threads[i].find.found
          case Missing => floor.None?
          case Entry(e) => NotBefore(after.threads, a, e, floor)
          case Threw => false)
  }

  lemma {:induction false} OverlappedFinds(
      codec: Codec, backends: CR.Backends, addresses: iset<Address>, d: Discipline, a: Address,
      states: seq<State>, trace: seq<Action>, n: nat, m: nat)
    requires codec.Faithful() && CR.Separate(backends, addresses) && a in addresses && d.publishesApart
    requires !backends.mysql || (!backends.redis && CompositesApart(addresses))
    requires IsRun(codec, backends, states, trace) && Over(addresses, trace) && Disciplined(d, a, states, trace)
    requires n < m <= |trace| < 0x7FFF_FFFF_FFFF_FFFF && trace[n].BeginFind? && Normal(trace[n].asked) == a
    ensures
      var i, floor := |states[n].threads|, LastFinished(states[n].threads, a);
      && StillFinished(states[m].threads, a, floor)
      && i < |states[m].threads| && FindsAt(states[m].threads[i], a)
      && OnCourse(states[m].threads[i], states[m].threads, a, floor, backends.mysql)
  {
    hide Step, Regular, LastFinished, NotBefore, CR.Separate, CompositesApart, AddressesInside, ThreadsInside;
    assert Enabled(states[m - 1], trace[m - 1]);
    if m == n + 1 {
      FindStarts(codec, states[n], trace[n].asked);
      StepContinues(codec, states[n], trace[n], a);
    } else {
      OverlappedFinds(codec, backends, addresses, d, a, states, trace, n, m - 1);
      RunKeepsRegular(codec, backends, addresses, d, a, states, trace, m - 1);
      RunStaysInside(codec, backends, addresses, states, trace, m - 1);
      StepKeepsOnCourse(
        codec, states[m - 1], trace[m - 1], |states[n].threads|, a, LastFinished(states[n].threads, a));
    }
  }

  /** With nothing unfinished the last publish is the last finished one. */
  lemma SettledIsFinished(threads: seq<Thread>, a: Address)
    requires !PublishPending(threads, a)
    ensures LastFinished(threads, a) == LastPublish(threads, a)
  {
    var finished, last := LastFinished(threads, a), LastPublish(threads, a);
    assert last.Some? ==> FinishedAt(threads[last.value], a);
  }

  lemma {:induction false} RunContinues(
      codec: Codec, backends: CR.Backends, a: Address, states: seq<State>, trace: seq<Action>, n: nat, m: nat)
    requires IsRun(codec, backends, states, trace) && n <= m <= |trace|
    ensures Continues(states[n].threads, states[m].threads, a)
  {
    hide Step;
    if n < m {
      RunContinues(codec, backends, a, states, trace, n, m - 1);
      assert Enabled(states[m - 1], trace[m - 1]);
      StepContinues(codec, states[m - 1], trace[m - 1], a);
    }
  }

  /** Under any tolerated discipline at an address, every find of it is regular, whatever publishes of the
    * address overlap it and whatever happens elsewhere. */
  lemma ToleratedFindsAreRegular(
      codec: Codec, backends: CR.Backends, addresses: iset<Address>, d: Discipline, a: Address,
      states: seq<State>, trace: seq<Action>, n: nat, m: nat)
    requires codec.Faithful() && CR.Separate(backends, addresses) && a in addresses && Tolerates(backends, addresses, d)
    requires IsRun(codec, backends, states, trace) && Over(addresses, trace) && Disciplined(d, a, states, trace)
    requires n < m <= |trace| < 0x7FFF_FFFF_FFFF_FFFF && trace[n].BeginFind? && Normal(trace[n].asked) == a
    ensures ReturnsRegularly(a, states[n], states[m])
  {
    hide Step, LastFinished, LastPublish, CR.Separate, CompositesApart, PublishPending, NotBefore, Continues;
    if d.findsApart {
      assert d == Discipline(true, true) && Obeys(d, a, states[n].threads, trace[n]);
      EveryFindReturnsTheLatest(codec, backends, addresses, a, states, trace, n, m);
      SettledIsFinished(states[n].threads, a);
      RunContinues(codec, backends, a, states, trace, n, m);
      LatestCounts(states[n].threads, a);
      if LastPublish(states[n].threads, a).Some? {
        var latest := Latest(states[n].threads, a).value;
        NotBeforeStays(states[n].threads, states[m].threads, a, latest, LastPublish(states[n].threads, a));
      }
    } else {
      OverlappedFinds(codec, backends, addresses, d, a, states, trace, n, m);
    }
  }

  lemma LatestCounts(threads: seq<Thread>, a: Address)
    ensures
      var last := LastPublish(threads, a);
      && last.Some? == Latest(threads, a).Some?
      && (last.Some? ==> NotBefore(threads, a, Latest(threads, a).value, last))
  {
  }
}
