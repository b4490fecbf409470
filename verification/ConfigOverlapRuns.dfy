/** Runs that go wrong when the operations of the configuration service overlap, and with them the exact
  * condition under which they do not. */
module ConfigOverlapRuns {
  import opened Wrappers
  import opened ConfigKeys
  import opened ConfigService
  import opened MysqlPool
  import opened ConfigOverlap
  import opened ConfigDiscipline
  import CR = ConfigRuns
  import RS = RedisStore

  datatype Setting = Setting(codec: Codec, backends: CR.Backends, addresses: iset<Address>, d: Discipline)

  datatype Run = Run(states: seq<State>, trace: seq<Action>)

  /** A run over the addresses that keeps the discipline at each of them. */
  ghost predicate Admitted(x: Setting, r: Run) {
    && IsRun(x.codec, x.backends, r.states, r.trace)
    && Over(x.addresses, r.trace)
    && forall a | a in x.addresses :: Disciplined(x.d, a, r.states, r.trace)
  }

  function Last(r: Run): State
    requires |r.states| > 0
  {
    r.states[|r.states| - 1]
  }

  /** Nothing is unfinished. */
  predicate Quiet(s: State) {
    forall i | 0 <= i < |s.threads| ::
      match s.threads[i]
      case Publisher(_, stage) => stage == Published
      case Finder(_, _, stage) => stage.Returned?
  }

  lemma Start(x: Setting) returns (r: Run)
    ensures Admitted(x, r) && r.trace == [] && r.states == [Init(x.backends)]
  {
    r := Run([Init(x.backends)], []);
  }

  /** `next` goes on from `r`. */
  ghost predicate Continues(next: Run, r: Run) {
    && |r.states| == |r.trace| + 1 && |next.states| == |next.trace| + 1
    && |r.trace| <= |next.trace| && next.trace[..|r.trace|] == r.trace && next.states[..|r.states|] == r.states
  }

  lemma Extend(x: Setting, r: Run, action: Action) returns (next: Run)
    requires Admitted(x, r) && Enabled(Last(r), action) && Inside(x.addresses, action)
    requires forall a | a in x.addresses :: Obeys(x.d, a, Last(r).threads, action)
    ensures Admitted(x, next) && Continues(next, r)
    ensures next.trace == r.trace + [action] && next.states == r.states + [Step(x.codec, Last(r), action)]
  {
    hide Step, Init, Obeys, Inside;
    next := Run(r.states + [Step(x.codec, Last(r), action)], r.trace + [action]);
    forall a | a in x.addresses
      ensures Disciplined(x.d, a, next.states, next.trace)
    {
      assert Disciplined(x.d, a, r.states, r.trace);
    }
  }

  /** An operation under way goes on, which every discipline allows. */
  lemma ExtendAdvance(x: Setting, r: Run, i: nat) returns (next: Run)
    requires Admitted(x, r) && |r.states| > 0 && i < |Last(r).threads|
    ensures Admitted(x, next) && Continues(next, r) && |next.states| > 0
    ensures next.trace == r.trace + [Advance(i, 0.0)]
    ensures
      var s, after := Last(r), AdvanceThread(x.codec, Last(r).store, Last(r).threads[i], 0.0);
      Last(next) == s.(store := after.0, threads := s.threads[i := after.1])
  {
    hide Admitted, AdvanceThread;
    next := Extend(x, r, Advance(i, 0.0));
  }

  /** A publisher takes its three steps with nobody in between. */
  lemma ExtendPublish(x: Setting, r: Run, i: nat, e: ConfigEntry) returns (next: Run)
    requires Admitted(x, r) && |r.states| > 0 && i < |Last(r).threads| && Last(r).threads[i] == Publisher(e, WriteMap)
    ensures Admitted(x, next) && Continues(next, r) && |next.trace| == |r.trace| + 3
    ensures
      var s := Last(r);
      Last(next) == State(PublishToEnd(x.codec, s.store, e, WriteMap), s.stamped,
          s.threads[i := Publisher(e, Published)])
  {
    hide Admitted, StoreKey, CacheKey, ToMysqlRow, Stored;
    next := ExtendAdvance(x, r, i);
    next := ExtendAdvance(x, next, i);
    next := ExtendAdvance(x, next, i);
    PublishInThree(x.codec, Last(r).store, e);
  }

  lemma FindInFour(codec: Codec, s: Store, a: Address, now: real)
    ensures
      var one := FindAdvance(codec, s, a, ReadCache, now);
      var two := FindAdvance(codec, one.0, a, one.1, now);
      var three := FindAdvance(codec, two.0, a, two.1, now);
      var four := FindAdvance(codec, three.0, a, three.1, now);
      four.1.Returned? && four == FindToEnd(codec, s, a, ReadCache, now)
  {
    hide StoreKey, CacheKey, Stored, Cached, FromMysqlRow, AfterCacheRead, CacheSet, Remember;
    var one := FindAdvance(codec, s, a, ReadCache, now);
    var two := FindAdvance(codec, one.0, a, one.1, now);
    var three := FindAdvance(codec, two.0, a, two.1, now);
    var four := FindAdvance(codec, three.0, a, three.1, now);
    assert one.1.Returned? || one.1.ReadTable?;
    assert two.1.Returned? || two.1.ReadMap? || two.1.FillCache?;
    assert three.1.Returned? || three.1.FillMap?;
    assert FindToEnd(codec, one.0, a, one.1, now) == FindToEnd(codec, two.0, a, two.1, now);
    assert FindToEnd(codec, two.0, a, two.1, now) == FindToEnd(codec, three.0, a, three.1, now);
    assert FindToEnd(codec, three.0, a, three.1, now) == four;
  }

  lemma PendingOfFinder(threads: seq<Thread>, t: Thread, a: Address)
    requires t.Finder?
    ensures PublishPending(threads + [t], a) == PublishPending(threads, a)
    ensures LatestAnswer(threads + [t], a) == LatestAnswer(threads, a)
  {
    hide LastPublish;
    LastOfAppend(threads, t, a);
    if PublishPending(threads, a) {
      var i :| 0 <= i < |threads| && PublishesAt(threads[i], a) && threads[i].publish != Published;
      assert (threads + [t])[i] == threads[i];
    }
  }

  lemma ExtendBeginFind(x: Setting, r: Run, a: Address) returns (next: Run)
    requires Admitted(x, r) && |r.states| > 0 && a in x.addresses && a.env != "" && !PublishPending(Last(r).threads, a)
    ensures Admitted(x, next) && Continues(next, r) && |next.trace| == |r.trace| + 1
    ensures Undisturbed(a, next.states, next.trace, |r.trace|, |next.trace|)
    ensures Last(next).store == Last(r).store
    ensures Last(next).threads == Last(r).threads + [Finder(a, StoreKey(a) in Last(r).store.entries, ReadCache)]
  {
    hide Admitted, StoreKey, PublishPending;
    assert Normal(a) == a;
    PendingOfFinder(Last(r).threads, Finder(a, StoreKey(a) in Last(r).store.entries, ReadCache), a);
    next := Extend(x, r, BeginFind(a));
    assert next.states[|r.trace|] == Last(r) && next.states[|r.trace| + 1] == Last(next);
  }

  /** A find begins with no publish of its address unfinished and runs undisturbed. */
  lemma ExtendFind(x: Setting, r: Run, a: Address) returns (next: Run)
    requires Admitted(x, r) && |r.states| > 0 && a in x.addresses && a.env != "" && !PublishPending(Last(r).threads, a)
    ensures Admitted(x, next) && Continues(next, r) && |next.trace| == |r.trace| + 5
    ensures Undisturbed(a, next.states, next.trace, |r.trace|, |next.trace|)
    ensures
      var s, whole := Last(r), FindStep(x.codec, Last(r).store, a, 0.0);
      && Last(next).store == whole.0
      && Last(next).threads == s.threads + [Finder(a, StoreKey(a) in s.store.entries, Returned(whole.1))]
  {
    hide Admitted, FindAdvance, FindStep, FindToEnd, StoreKey, CacheKey, PublishPending, LatestAnswer, Obeys,
         Undisturbed;
    var s, i := Last(r), |Last(r).threads|;
    var due := StoreKey(a) in s.store.entries;
    var t := |r.trace|;
    next := ExtendBeginFind(x, r, a);
    next := ExtendFinder(x, next, s.threads, a, due, ReadCache, t);
    next := ExtendFinder(x, next, s.threads, a, due, Last(next).threads[i].find, t);
    next := ExtendFinder(x, next, s.threads, a, due, Last(next).threads[i].find, t);
    next := ExtendFinder(x, next, s.threads, a, due, Last(next).threads[i].find, t);
    FindInFour(x.codec, s.store, a, 0.0);
    FindStepsAreTheFind(x.codec, s.store, a, 0.0);
  }

  /** One more step of the find that is the newest thread. */
  lemma ExtendFinder(x: Setting, r: Run, others: seq<Thread>, a: Address, due: bool, stage: FindStage, begun: nat)
    returns (next: Run)
    requires Admitted(x, r) && |r.states| > 0 && Last(r).threads == others + [Finder(a, due, stage)]
    requires begun < |r.trace| && Undisturbed(a, r.states, r.trace, begun, |r.trace|) && !PublishPending(others, a)
    ensures Admitted(x, next) && Continues(next, r) && |next.trace| == |r.trace| + 1
    ensures Undisturbed(a, next.states, next.trace, begun, |next.trace|)
    ensures
      var step := FindAdvance(x.codec, Last(r).store, a, stage, 0.0);
      Last(next).store == step.0 && Last(next).threads == others + [Finder(a, due, step.1)]
  {
    hide Admitted, FindAdvance, StoreKey, PublishPending;
    next := Extend(x, r, Advance(|others|, 0.0));
    assert Last(next).threads == others + [Last(next).threads[|others|]];
    PendingOfFinder(others, Last(next).threads[|others|], a);
    forall k | begun <= k <= |next.trace|
      ensures !PublishPending(next.states[k].threads, a)
    {
      assert k <= |r.trace| ==> next.states[k] == r.states[k];
      assert k == |next.trace| ==> next.states[k] == Last(next);
    }
  }

  // -------------------------------------------------------------------------------------------
  // Two publishes of one address
  // -------------------------------------------------------------------------------------------

  lemma LatestIs(threads: seq<Thread>, a: Address, i: nat)
    requires i < |threads| && PublishesAt(threads[i], a) && forall j | i < j < |threads| :: !PublishesAt(threads[j], a)
    ensures LatestAnswer(threads, a) == Entry(threads[i].entry)
  {
    var last := LastPublish(threads, a);
    assert last.Some? && last.value == i;
  }

  /** Two publishes at one address claim versions 1 and 2; the second writes everything before the
    * first does. With any backends version 1 is then in every tier, and a find returns it. */
  lemma OlderVersionWins(x: Setting, a: Address) returns (r: Run)
    requires x.codec.Faithful() && a in x.addresses && Publishable(a) && a.env != "" && !x.d.publishesApart
    ensures Admitted(x, r) && Quiet(Last(r)) && |r.trace| < 20
    ensures EntryAt(a, 1) in Last(r).stamped && EntryAt(a, 2) in Last(r).stamped
    ensures FindStep(x.codec, Last(r).store, a, 0.0).1 == Entry(EntryAt(a, 1))
    ensures LatestAnswer(Last(r).threads, a) == Entry(EntryAt(a, 2)) && !PublishPending(Last(r).threads, a)
  {
    hide PublishToEnd, FindStep, Admitted, StoreKey, CacheKey, LastPublish;
    var e := EntryAt(a, 0);
    r := Start(x);
    r := Extend(x, r, BeginPublish(e));
    r := Extend(x, r, BeginPublish(e));
    assert Last(r).threads == [Publisher(EntryAt(a, 1), WriteMap), Publisher(EntryAt(a, 2), WriteMap)];
    r := ExtendPublish(x, r, 1, EntryAt(a, 2));
    ghost var second := Last(r).store;
    r := ExtendPublish(x, r, 0, EntryAt(a, 1));
    LastWritesAreFound(x.codec, second, EntryAt(a, 1), 0.0);
    LatestIs(Last(r).threads, a, 1);
  }

  // -------------------------------------------------------------------------------------------
  // A find and a publish of one address
  // -------------------------------------------------------------------------------------------

  /** Version 1 is in the map and in the database. */
  lemma FirstInTheTable(x: Setting, a: Address) returns (r: Run)
    requires a in x.addresses && Publishable(a) && a.env != "" && x.backends.mysql
    ensures Admitted(x, r) && |r.states| > 0 && |r.trace| == 3
    ensures
      var s := Last(r);
      && s.stamped == {EntryAt(a, 1)} && s.threads == [Publisher(EntryAt(a, 1), WriteCache)]
      && s.store.entries == map[StoreKey(a) := EntryAt(a, 1)] && s.store.nextVersion == 2
      && s.store.mysql.Some? && Stored(s.store, a) == Some(ToMysqlRow(EntryAt(a, 1)))
      && s.store.redis == if x.backends.redis then Some(map[]) else None
  {
    hide StoreKey, CacheKey, ToMysqlRow, FromMysqlRow, Admitted, Stored, Upserted;
    r := Start(x);
    r := Extend(x, r, BeginPublish(EntryAt(a, 0)));
    r := ExtendAdvance(x, r, 0);
    UpsertHere(Last(r).store, EntryAt(a, 1));
    r := ExtendAdvance(x, r, 0);
  }

  /** A find that missed the cache holds its row. */
  lemma FindHoldsTheRow(x: Setting, a: Address) returns (r: Run)
    requires a in x.addresses && Publishable(a) && a.env != "" && x.backends.mysql && !x.d.findsApart
    ensures Admitted(x, r) && |r.states| > 0 && |r.trace| == 6
    ensures
      var s := Last(r);
      && s.store.mysql.Some? && s.store.redis.Some? == x.backends.redis && s.store.nextVersion == 2
      && s.stamped == {EntryAt(a, 1)} && s.store.entries == map[StoreKey(a) := EntryAt(a, 1)]
      && |s.threads| == 2 && s.threads[0] == Publisher(EntryAt(a, 1), WriteCache)
      && FindsAt(s.threads[1], a) && s.threads[1].find == FillCache(EntryAt(a, 1))
  {
    hide StoreKey, CacheKey, ToMysqlRow, FromMysqlRow, Admitted, Stored;
    r := FirstInTheTable(x, a);
    ghost var tabled := Last(r).store;
    r := Extend(x, r, BeginFind(a));
    r := ExtendAdvance(x, r, 1);
    StoredNeedsTheTable(tabled, Last(r).store, a);
    RowRoundTrip(EntryAt(a, 1));
    r := ExtendAdvance(x, r, 1);
  }

  /** With that row in a find's hands, version 2 is published completely. */
  lemma PublishedBehindTheFind(x: Setting, a: Address) returns (r: Run)
    requires a in x.addresses && Publishable(a) && a.env != "" && x.backends.mysql && !x.d.findsApart
    ensures Admitted(x, r) && |r.states| > 0 && |r.trace| == 11
    ensures
      var s := Last(r);
      && s.stamped == {EntryAt(a, 1), EntryAt(a, 2)}
      && s.store.entries == map[StoreKey(a) := EntryAt(a, 2)]
      && Stored(s.store, a) == Some(ToMysqlRow(EntryAt(a, 2)))
      && s.store.mysql.Some? && s.store.redis.Some? == x.backends.redis && s.store.nextVersion == 3
      && |s.threads| == 3 && s.threads[0] == Publisher(EntryAt(a, 1), Published)
      && FindsAt(s.threads[1], a) && s.threads[1].find == FillCache(EntryAt(a, 1))
      && s.threads[2] == Publisher(EntryAt(a, 2), Published)
  {
    hide PublishToEnd, FindStep, StoreKey, CacheKey, ToMysqlRow, FromMysqlRow, Admitted, Stored;
    r := FindHoldsTheRow(x, a);
    r := ExtendAdvance(x, r, 0);
    r := Extend(x, r, BeginPublish(EntryAt(a, 0)));
    PublishLeavesItsRow(x.codec, Last(r).store, EntryAt(a, 2));
    r := ExtendPublish(x, r, 2, EntryAt(a, 2));
  }

  /** Then the find fills the cache and the local map back: version 1 is in front of the newer row. */
  lemma BackFillBringsBackTheOld(x: Setting, a: Address) returns (r: Run)
    requires x.codec.Faithful() && a in x.addresses && Publishable(a) && a.env != "" && x.backends.mysql
        && !x.d.findsApart
    ensures Admitted(x, r) && Quiet(Last(r)) && |r.trace| == 13
    ensures
      var s := Last(r);
      && EntryAt(a, 1) in s.stamped && EntryAt(a, 2) in s.stamped
      && StoreKey(a) in s.store.entries && s.store.entries[StoreKey(a)] == EntryAt(a, 1)
      && Stored(s.store, a) == Some(ToMysqlRow(EntryAt(a, 2)))
      && (x.backends.redis ==> FindStep(x.codec, s.store, a, 0.0).1 == Entry(EntryAt(a, 1)))
      && LatestAnswer(s.threads, a) == Entry(EntryAt(a, 2)) && !PublishPending(s.threads, a)
      && s.store.mysql.Some? && s.store.redis.Some? == x.backends.redis && s.store.nextVersion == 3
      && |s.threads| == 3 && PublishesAt(s.threads[2], a) && s.threads[2].entry == EntryAt(a, 2)
  {
    hide FindStep, StoreKey, CacheKey, ToMysqlRow, FromMysqlRow, Admitted, Stored, LastPublish;
    r := PublishedBehindTheFind(x, a);
    ghost var published := Last(r).store;
    if x.backends.redis {
      FilledIsFound(x.codec, published, EntryAt(a, 1), 0.0);
    }
    r := ExtendAdvance(x, r, 1);
    r := ExtendAdvance(x, r, 1);
    assert Last(r).store == Remember(CacheSet(x.codec, published, a, EntryAt(a, 1)), a, EntryAt(a, 1));
    StoredNeedsTheTable(published, Last(r).store, a);
    LatestIs(Last(r).threads, a, 2);
  }

  /** Without a cache the old entry in the map shows once another address takes the row's place. */
  lemma LostRowShowsTheOld(x: Setting, a: Address, b: Address) returns (r: Run)
    requires x.codec.Faithful() && a in x.addresses && Publishable(a) && a.env != ""
    requires x.backends == CR.Backends(true, false) && !x.d.findsApart
    requires b in x.addresses && Publishable(b) && b.env != "" && a != b && StoreKey(a) != StoreKey(b)
    requires CompositeKey(Filters(a), KEY_FIELDS) == CompositeKey(Filters(b), KEY_FIELDS)
    ensures Admitted(x, r) && Quiet(Last(r)) && |r.trace| < 24
    ensures FindStep(x.codec, Last(r).store, a, 0.0).1 == Entry(EntryAt(a, 1))
    ensures LatestAnswer(Last(r).threads, a) == Entry(EntryAt(a, 2)) && !PublishPending(Last(r).threads, a)
  {
    hide PublishToEnd, StoreKey, CacheKey, ToMysqlRow, FromMysqlRow, Admitted, Stored, LastPublish, CompositeKey,
        Filters, Upserted;
    r := BackFillBringsBackTheOld(x, a);
    r := Extend(x, r, BeginPublish(EntryAt(b, 0)));
    ghost var before := Last(r).store;
    PublishTakesTheRow(x.codec, before, EntryAt(b, 3), a);
    r := ExtendPublish(x, r, 3, EntryAt(b, 3));
    LatestIs(Last(r).threads, a, 2);
  }

  lemma PublishTakesTheRow(codec: Codec, s: Store, e: ConfigEntry, a: Address)
    requires s.mysql.Some? && s.redis.None? && AddressOf(e) != a && StoreKey(AddressOf(e)) != StoreKey(a)
    requires CompositeKey(Filters(AddressOf(e)), KEY_FIELDS) == CompositeKey(Filters(a), KEY_FIELDS)
    ensures
      var after := PublishToEnd(codec, s, e, WriteMap);
      && Stored(after, a).None? && after.redis.None?
      && (StoreKey(a) in s.entries ==>
            StoreKey(a) in after.entries && after.entries[StoreKey(a)] == s.entries[StoreKey(a)])
  {
    hide StoreKey, CacheKey, Stored, ToMysqlRow, Upserted, CompositeKey, Filters;
    PublishInThree(codec, s, e);
    UpsertElsewhere(s, e, a);
    var after := PublishToEnd(codec, s, e, WriteMap);
    StoredNeedsTheTable(s.(mysql := Some(Upserted(s.mysql.value, ToMysqlRow(e), KEY_FIELDS))), after, a);
  }

  // -------------------------------------------------------------------------------------------
  // Map and row in different orders
  // -------------------------------------------------------------------------------------------

  /** Two overlapping publishes have written the local map in the order of their versions. */
  lemma BothInTheMap(x: Setting, a: Address) returns (r: Run)
    requires a in x.addresses && Publishable(a) && a.env != "" && !x.d.publishesApart
    ensures Admitted(x, r) && |r.states| > 0 && |r.trace| == 4
    ensures
      var s := Last(r);
      && s.store == CR.Fresh(x.backends).(entries := map[StoreKey(a) := EntryAt(a, 2)], nextVersion := 3)
      && s.threads == [Publisher(EntryAt(a, 1), WriteTable), Publisher(EntryAt(a, 2), WriteTable)]
  {
    hide StoreKey, CacheKey, ToMysqlRow, Admitted;
    r := Start(x);
    r := Extend(x, r, BeginPublish(EntryAt(a, 0)));
    r := Extend(x, r, BeginPublish(EntryAt(a, 0)));
    assert Last(r).threads == [Publisher(EntryAt(a, 1), WriteMap), Publisher(EntryAt(a, 2), WriteMap)];
    r := ExtendAdvance(x, r, 0);
    r := ExtendAdvance(x, r, 1);
    assert Last(r).store.entries == map[StoreKey(a) := EntryAt(a, 2)];
  }

  /** They write the table in the other order. */
  lemma MapAndRowDisagree(x: Setting, a: Address) returns (r: Run)
    requires a in x.addresses && Publishable(a) && a.env != "" && x.backends.mysql && !x.d.publishesApart
    ensures Admitted(x, r) && |r.states| > 0 && |r.trace| == 8
    ensures
      var s := Last(r);
      && s.store.entries == map[StoreKey(a) := EntryAt(a, 2)]
      && Stored(s.store, a) == Some(ToMysqlRow(EntryAt(a, 1)))
      && s.store.mysql.Some? && s.store.redis.Some? == x.backends.redis
      && s.threads == [Publisher(EntryAt(a, 1), Published), Publisher(EntryAt(a, 2), Published)]
  {
    hide StoreKey, CacheKey, ToMysqlRow, FromMysqlRow, Admitted, Stored, Upserted, Obeys;
    r := BothInTheMap(x, a);
    r := ExtendAdvance(x, r, 1);
    UpsertHere(Last(r).store, EntryAt(a, 1));
    r := ExtendAdvance(x, r, 0);
    ghost var tabled := Last(r).store;
    r := ExtendAdvance(x, r, 0);
    r := ExtendAdvance(x, r, 1);
    StoredNeedsTheTable(tabled, Last(r).store, a);
  }

  /** Later, with the cache emptied if there is one, a find gets hold of the older row. */
  lemma FindHoldsTheOlderRow(x: Setting, a: Address) returns (r: Run)
    requires a in x.addresses && Publishable(a) && a.env != "" && x.backends.mysql && !x.d.publishesApart
    ensures Admitted(x, r) && |r.states| > 0 && |r.trace| < 20
    ensures
      var s := Last(r);
      && s.store.entries == map[StoreKey(a) := EntryAt(a, 2)]
      && |s.threads| == 3 && FindsAt(s.threads[2], a) && s.threads[2].find == FillCache(EntryAt(a, 1))
      && s.threads[0].Publisher? && s.threads[0].publish == Published
      && s.threads[1].Publisher? && s.threads[1].publish == Published
  {
    hide StoreKey, CacheKey, ToMysqlRow, FromMysqlRow, Admitted, Stored;
    r := MapAndRowDisagree(x, a);
    ghost var quiet := Last(r).store;
    if x.backends.redis {
      r := Extend(x, r, Disturb(map[]));
    }
    r := Extend(x, r, BeginFind(a));
    r := ExtendAdvance(x, r, 2);
    StoredNeedsTheTable(quiet, Last(r).store, a);
    RowRoundTrip(EntryAt(a, 1));
    r := ExtendAdvance(x, r, 2);
  }

  // -------------------------------------------------------------------------------------------
  // Exactly which disciplines are tolerated
  // -------------------------------------------------------------------------------------------

  ghost predicate AllReadTheLatest(x: Setting) {
    forall r: Run, a | Admitted(x, r) && |r.trace| < 0x7FFF_FFFF_FFFF_FFFF && a in x.addresses ::
      ReadsTheLatest(a, r.states, r.trace)
  }

  lemma FindAtTheEnd(x: Setting, r: Run, a: Address, wrong: Found)
    requires Admitted(x, r) && |r.states| > 0 && |r.trace| < 100 && a in x.addresses && a.env != ""
    requires !PublishPending(Last(r).threads, a)
    requires FindStep(x.codec, Last(r).store, a, 0.0).1 == wrong != LatestAnswer(Last(r).threads, a)
    ensures !AllReadTheLatest(x)
  {
    hide Admitted, FindStep, StoreKey, PublishPending, LatestAnswer;
    var next := ExtendFind(x, r, a);
    var n, m := |r.trace|, |next.trace|;
    assert next.states[n] == Last(r) && Last(next) == next.states[m];
    PendingOfFinder(Last(r).threads, Last(next).threads[|Last(r).threads|], a);
    assert Undisturbed(a, next.states, next.trace, n, m);
    assert !ReadsTheLatest(a, next.states, next.trace);
  }

  /** Over addresses that share no keys in use, one of them publishable: in every run that keeps the
    * discipline every undisturbed find returns the last entry published at its address, exactly when
    * publishes of an address are kept apart and either finds are kept apart from them too, or there is
    * no database, or there is no cache and no two addresses share a composite row key. */
  lemma OverlapIsToleratedExactly(x: Setting, a: Address)
    requires x.codec.Faithful() && CR.Separate(x.backends, x.addresses) && forall b | b in x.addresses :: b.env != ""
    requires a in x.addresses && Publishable(a)
    ensures AllReadTheLatest(x) <==> Tolerates(x.backends, x.addresses, x.d)
  {
    hide ReadsTheLatest, Disciplined, Over, FindStep, LatestAnswer, PublishPending, Quiet, StoreKey, CompositeKey,
        Stored;
    if Tolerates(x.backends, x.addresses, x.d) {
      forall r: Run, b | Admitted(x, r) && |r.trace| < 0x7FFF_FFFF_FFFF_FFFF && b in x.addresses
        ensures ReadsTheLatest(b, r.states, r.trace)
      {
        ToleratedOverlap(x.codec, x.backends, x.addresses, x.d, b, r.states, r.trace);
      }
    } else if !x.d.publishesApart {
      var r := OlderVersionWins(x, a);
      FindAtTheEnd(x, r, a, Entry(EntryAt(a, 1)));
    } else if x.backends.redis {
      var r := BackFillBringsBackTheOld(x, a);
      FindAtTheEnd(x, r, a, Entry(EntryAt(a, 1)));
    } else {
      var b, c :| b in x.addresses && c in x.addresses && c != b && Publishable(b) && Publishable(c)
                  && CompositeKey(Filters(c), KEY_FIELDS) == CompositeKey(Filters(b), KEY_FIELDS);
      var r := LostRowShowsTheOld(x, b, c);
      FindAtTheEnd(x, r, b, Entry(EntryAt(b, 1)));
    }
  }
}
