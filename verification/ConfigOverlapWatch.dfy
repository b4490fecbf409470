/** The folding watch client over one namespace while publishes and finds overlap, and exactly which
  * disciplines keep it level with BatchGetConfig. */
module ConfigOverlapWatch {
  import opened Wrappers
  import opened ConfigKeys
  import opened ConfigService
  import opened ConfigDiscipline
  import opened CO = ConfigOverlap
  import OR = ConfigOverlapRuns
  import CW = ConfigWatch
  import CR = ConfigRuns
  import RS = RedisStore

  /** The discipline `d` holds at every address of the namespace. `watchesApart`: no watch while a
    * publish of the namespace has claimed its version but not written the local map. */
  datatype Setting = Setting(
    codec: Codec, backends: CR.Backends, addresses: iset<Address>, ns: string, d: Discipline, watchesApart: bool)

  datatype Action =
    | Serve(action: CO.Action)
    | Watch(updates: seq<ConfigEntry>)

  datatype State = State(service: CO.State, client: CW.Client)

  datatype Run = Run(states: seq<State>, trace: seq<Action>)

  predicate MapWritePending(threads: seq<Thread>, ns: string) {
    exists i | 0 <= i < |threads| :: threads[i].Publisher? && threads[i].entry.ns == ns
        && threads[i].publish == WriteMap
  }

  predicate Enabled(ns: string, s: State, action: Action) {
    match action
    case Serve(inner) => CO.Enabled(s.service, inner)
    case Watch(updates) => (set e | e in updates) == Collected(s.service.store.entries, ns, s.client.cursor)
  }

  function Step(codec: Codec, ns: string, s: State, action: Action): State
    requires Enabled(ns, s, action)
  {
    match action
    case Serve(inner) => s.(service := CO.Step(codec, s.service, inner))
    case Watch(updates) => s.(client := CW.Fold(s.client, updates))
  }

  ghost predicate Permitted(x: Setting, s: State, action: Action) {
    match action
    case Serve(inner) =>
      && Inside(x.addresses, inner)
      && forall a | a in x.addresses && a.ns == x.ns :: Obeys(x.d, a, s.service.threads, inner)
    case Watch(_) => x.watchesApart ==> !MapWritePending(s.service.threads, x.ns)
  }

  function Init(backends: CR.Backends): State {
    State.State(CO.Init(backends), CW.Client(map[], 0))
  }

  ghost predicate Admitted(x: Setting, r: Run) {
    && |r.states| == |r.trace| + 1
    && r.states[0] == Init(x.backends)
    && forall n | 0 <= n < |r.trace| ::
         && Enabled(x.ns, r.states[n], r.trace[n])
         && Permitted(x, r.states[n], r.trace[n])
         && r.states[n + 1] == Step(x.codec, x.ns, r.states[n], r.trace[n])
  }

  ghost predicate Mirrors(ns: string, s: State) {
    CW.MirrorsMap(ns, s.service.store.entries, s.client.view)
  }

  ghost predicate EveryWatchMirrors(x: Setting, r: Run)
    requires |r.states| == |r.trace| + 1
  {
    forall n | 0 <= n < |r.trace| && r.trace[n].Watch? :: Mirrors(x.ns, r.states[n + 1])
  }

  /** Watches must wait for map writes in any case; with a database to fill back from, the publishes and
    * finds of an address of the namespace must be kept apart too. */
  predicate Tolerates(x: Setting) {
    x.watchesApart && (x.backends.mysql ==> x.d.publishesApart && x.d.findsApart)
  }

  // -------------------------------------------------------------------------------------------
  // What every step keeps
  // -------------------------------------------------------------------------------------------

  predicate Held(entries: map<string, ConfigEntry>, a: Address) {
    StoreKey(a) in entries && AddressOf(entries[StoreKey(a)]) == a
  }

  /** The client lacks nothing of the local map up to its cursor and holds no address that is not in it. */
  ghost predicate CaughtUp(ns: string, entries: map<string, ConfigEntry>, client: CW.Client) {
    && (forall a | a in client.view :: a.ns == ns && Held(entries, a) && AddressOf(client.view[a]) == a)
    && (forall a | Held(entries, a) && a.ns == ns && entries[StoreKey(a)].version <= client.cursor ::
          a in client.view && client.view[a] == entries[StoreKey(a)])
  }

  /** Map writes still to come in the namespace carry versions the client has not passed. */
  ghost predicate LateWritesAreNew(ns: string, threads: seq<Thread>, cursor: int) {
    forall i | 0 <= i < |threads| && threads[i].Publisher? && threads[i].entry.ns == ns
        && threads[i].publish == WriteMap ::
      threads[i].entry.version > cursor
  }

  /** Fills still to come in the namespace change nothing in the local map. */
  ghost predicate FillsAreIdle(ns: string, s: CO.State) {
    forall i | 0 <= i < |s.threads| && s.threads[i].Finder? && s.threads[i].find.FillMap?
        && s.threads[i].address.ns == ns ::
      && StoreKey(s.threads[i].address) in s.store.entries
      && s.store.entries[StoreKey(s.threads[i].address)] == s.threads[i].find.entry
  }

  ghost predicate StampedInside(addresses: iset<Address>, stamped: set<ConfigEntry>) {
    forall e | e in stamped :: AddressOf(e) in addresses
  }

  ghost predicate MapModes(x: Setting, s: CO.State) {
    if x.backends.mysql then forall a | a in x.addresses && a.ns == x.ns && Publishable(a) :: MapMode(s, a)
    else s.store.mysql.None? && NoFills(s.threads)
  }

  ghost predicate ServiceInv(x: Setting, s: CO.State) {
    && CO.Inv(x.codec, x.backends.redis, s)
    && AddressesInside(x.addresses, s.threads)
    && StampedInside(x.addresses, s.stamped)
    && MapModes(x, s)
  }

  ghost predicate ClientInv(x: Setting, s: State) {
    && 0 <= s.client.cursor < s.service.store.nextVersion
    && CaughtUp(x.ns, s.service.store.entries, s.client)
    && LateWritesAreNew(x.ns, s.service.threads, s.client.cursor)
  }

  lemma OwnInNamespace(x: Setting, a: Address)
    requires CW.NamespaceSeparate(x.addresses, x.ns) && a in x.addresses && a.ns == x.ns && Publishable(a)
    ensures OwnStoreKey(x.addresses, a)
  {
    hide StoreKey;
  }

  /** A pending fill of the namespace writes what the local map already holds. */
  lemma FillsIdle(x: Setting, s: CO.State)
    requires ServiceInv(x, s)
    ensures FillsAreIdle(x.ns, s)
  {
    hide StoreKey, CacheKey, CO.StoreKnown, LastPublish;
    KnownThreadsInside(x.codec, x.backends.redis, x.addresses, s);
    forall i | 0 <= i < |s.threads| && s.threads[i].Finder? && s.threads[i].find.FillMap?
        && s.threads[i].address.ns == x.ns
      ensures StoreKey(s.threads[i].address) in s.store.entries
      ensures s.store.entries[StoreKey(s.threads[i].address)] == s.threads[i].find.entry
    {
      var a := s.threads[i].address;
      assert Publishable(a) && a in x.addresses && x.backends.mysql;
      assert MapMode(s, a) && FindsAt(s.threads[i], a);
      assert FindPending(s.threads, a);
      var last := LastPublish(s.threads, a).value;
      assert PublishesAt(s.threads[last], a) && s.threads[last].publish == Published;
    }
  }

  lemma ServeKeepsService(x: Setting, s: CO.State, action: CO.Action)
    requires x.codec.Faithful() && CW.NamespaceSeparate(x.addresses, x.ns) && Tolerates(x)
    requires ServiceInv(x, s) && CO.Enabled(s, action) && 1 <= s.store.nextVersion < 0x7FFF_FFFF_FFFF_FFFF
    requires Inside(x.addresses, action) && forall a | a in x.addresses && a.ns == x.ns ::
        Obeys(x.d, a, s.threads, action)
    ensures ServiceInv(x, CO.Step(x.codec, s, action))
  {
    hide CO.Inv, CO.Step, AddressesInside, MapMode, StampedInside, CW.NamespaceSeparate, OwnStoreKey, NoFills, Obeys;
    StepKeepsInv(x.codec, x.backends.redis, s, action);
    StepStaysInside(x.codec, s, action, x.addresses);
    StampedStaysInside(x, s, action);
    KnownThreadsInside(x.codec, x.backends.redis, x.addresses, s);
    if x.backends.mysql {
      forall a | a in x.addresses && a.ns == x.ns && Publishable(a)
        ensures MapMode(CO.Step(x.codec, s, action), a)
      {
        OwnInNamespace(x, a);
        StepKeepsMapMode(x.codec, s, action, x.addresses, x.d, a);
      }
    } else {
      StepKeepsNoFills(x.codec, s, action);
    }
  }

  lemma StampedStaysInside(x: Setting, s: CO.State, action: CO.Action)
    requires CO.Enabled(s, action) && Inside(x.addresses, action) && StampedInside(x.addresses, s.stamped)
    ensures StampedInside(x.addresses, CO.Step(x.codec, s, action).stamped)
  {
    hide StoreKey, CacheKey;
  }

  lemma StepKeepsNoFills(codec: Codec, s: CO.State, action: CO.Action)
    requires CO.Enabled(s, action) && s.store.mysql.None? && NoFills(s.threads)
    ensures NoFills(CO.Step(codec, s, action).threads)
  {
    hide StoreKey, CacheKey, PublishAdvance, FindAdvance;
    match action
    case Advance(i, now) => AdvanceKeepsNoFills(codec, s, i, now);
    case _ =>
  }

  /** Writing an entry the client has not passed, or one that is there already, leaves it caught up. */
  lemma WriteKeepsCaughtUp(x: Setting, entries: map<string, ConfigEntry>, client: CW.Client, b: Address, e: ConfigEntry)
    requires CW.NamespaceSeparate(x.addresses, x.ns) && CaughtUp(x.ns, entries, client)
    requires forall a | Held(entries, a) :: a in x.addresses && Publishable(a)
    requires AddressOf(e) == b && b in x.addresses && Publishable(b)
    requires b.ns == x.ns ==> e.version > client.cursor || (StoreKey(b) in entries && entries[StoreKey(b)] == e)
    ensures CaughtUp(x.ns, entries[StoreKey(b) := e], client)
  {
    hide StoreKey;
    var next := entries[StoreKey(b) := e];
    forall a | a in client.view
      ensures Held(next, a)
    {
      assert Held(entries, a);
    }
    forall a | Held(next, a) && a.ns == x.ns && next[StoreKey(a)].version <= client.cursor
      ensures a in client.view && client.view[a] == next[StoreKey(a)]
    {
      if a != b {
        assert StoreKey(a) != StoreKey(b);
        assert Held(entries, a);
      } else {
        assert Held(entries, a);
      }
    }
  }

  lemma HeldIsStamped(x: Setting, s: CO.State)
    requires ServiceInv(x, s)
    ensures forall a | Held(s.store.entries, a) :: a in x.addresses && Publishable(a)
    ensures forall k | k in s.store.entries ::
              Held(s.store.entries, AddressOf(s.store.entries[k]))
                  && 1 <= s.store.entries[k].version < s.store.nextVersion
  {
    hide StoreKey, CO.TableKnown, CO.CacheKnown, MapModes;
  }

  lemma ServeKeepsClient(x: Setting, s: State, action: CO.Action)
    requires CW.NamespaceSeparate(x.addresses, x.ns) && ServiceInv(x, s.service) && ClientInv(x, s)
    requires CO.Enabled(s.service, action) && 1 <= s.service.store.nextVersion < 0x7FFF_FFFF_FFFF_FFFF
    ensures ClientInv(x, s.(service := CO.Step(x.codec, s.service, action)))
  {
    hide StoreKey, CacheKey, CO.StoreKnown, MapModes, CaughtUp, Held, PublishAdvance, FindAdvance, CW.NamespaceSeparate;
    HeldIsStamped(x, s.service);
    FillsIdle(x, s.service);
    KnownThreadsInside(x.codec, x.backends.redis, x.addresses, s.service);
    match action
    case Advance(i, now) =>
      var t := s.service.threads[i];
      EntriesAfter(x.codec, s.service.store, t, now);
      WritesStayNew(x, s, i, now);
      if t.Publisher? && t.publish == WriteMap {
        WriteKeepsCaughtUp(x, s.service.store.entries, s.client, AddressOf(t.entry), t.entry);
      } else if t.Finder? && t.find.FillMap? {
        WriteKeepsCaughtUp(x, s.service.store.entries, s.client, t.address, t.find.entry);
      }
    case _ =>
  }

  lemma WritesStayNew(x: Setting, s: State, i: nat, now: real)
    requires i < |s.service.threads| && LateWritesAreNew(x.ns, s.service.threads, s.client.cursor)
    ensures
      var next := CO.Step(x.codec, s.service, CO.Advance(i, now));
      LateWritesAreNew(x.ns, next.threads, s.client.cursor) && next.store.nextVersion == s.service.store.nextVersion
  {
    hide StoreKey, CacheKey, Stored, Cached;
  }

  // -------------------------------------------------------------------------------------------
  // A watch
  // -------------------------------------------------------------------------------------------

  /** The local map by address. */
  ghost function ByAddress(entries: map<string, ConfigEntry>): map<Address, ConfigEntry>
    requires forall k | k in entries :: k == StoreKey(AddressOf(entries[k]))
  {
    map k | k in entries :: AddressOf(entries[k]) := entries[k]
  }

  lemma ByAddressIsHeld(entries: map<string, ConfigEntry>)
    requires forall k | k in entries :: k == StoreKey(AddressOf(entries[k]))
    ensures forall a :: a in ByAddress(entries) <==> Held(entries, a)
    ensures forall a | Held(entries, a) :: ByAddress(entries)[a] == entries[StoreKey(a)]
    ensures forall e :: CR.IsLatest(ByAddress(entries), e) <==> exists k :: k in entries && entries[k] == e
  {
    hide StoreKey;
  }

  lemma CollectedByAddress(entries: map<string, ConfigEntry>, ns: string, since: int)
    requires forall k | k in entries :: k == StoreKey(AddressOf(entries[k]))
    ensures forall e :: e in Collected(entries, ns, since) <==>
              CR.IsLatest(ByAddress(entries), e) && e.ns == ns && e.version > since
  {
    hide StoreKey;
    ByAddressIsHeld(entries);
  }

  /** Every entry of the local map is under its own key and has a version below the bound. */
  ghost predicate Filed(entries: map<string, ConfigEntry>, bound: int) {
    forall k | k in entries :: k == StoreKey(AddressOf(entries[k])) && 1 <= entries[k].version < bound
  }

  /** Folding what was collected makes the view the namespace's part of the local map. */
  lemma FoldLevelsWithMap(
      ns: string, entries: map<string, ConfigEntry>, client: CW.Client, updates: seq<ConfigEntry>, bound: int)
    requires Filed(entries, bound) && CaughtUp(ns, entries, client)
    requires (set e | e in updates) == Collected(entries, ns, client.cursor)
    ensures CW.Level(ns, ByAddress(entries), CW.FoldView(client.view, updates))
  {
    hide StoreKey, CW.FoldView, CW.Level, Collected, ByAddress;
    ByAddressIsHeld(entries);
    CollectedByAddress(entries, ns, client.cursor);
    assert forall e :: e in updates <==> e in (set e | e in updates);
    assert forall a | a in ByAddress(entries) :: AddressOf(ByAddress(entries)[a]) == a;
    CW.FoldLevels(ns, ByAddress(entries), client, updates);
  }

  lemma LevelIsCaughtUp(ns: string, entries: map<string, ConfigEntry>, client: CW.Client, bound: int)
    requires Filed(entries, bound) && CW.Level(ns, ByAddress(entries), client.view)
    ensures CaughtUp(ns, entries, client) && CW.MirrorsMap(ns, entries, client.view)
  {
    hide StoreKey, CW.MirrorsMap, Collected, ByAddress;
    ByAddressIsHeld(entries);
    CollectedByAddress(entries, ns, -1);
    assert forall a | a in ByAddress(entries) ::
        AddressOf(ByAddress(entries)[a]) == a && ByAddress(entries)[a].version > -1;
    CW.LevelMirrorsMap(ns, entries, ByAddress(entries), client.view);
  }

  lemma CursorStaysBelow(
      ns: string, entries: map<string, ConfigEntry>, cursor: int, updates: seq<ConfigEntry>, bound: int)
    requires Filed(entries, bound) && 0 <= cursor < bound && (set e | e in updates) == Collected(entries, ns, cursor)
    ensures 0 <= CW.LargestVersion(cursor, updates) < bound
  {
    hide StoreKey, CW.LargestVersion;
    forall e | e in updates
      ensures e.version < bound
    {
      assert e in (set e | e in updates) && e in Collected(entries, ns, cursor);
    }
    CW.LargestVersionBounds(cursor, updates, bound);
  }

  lemma WatchCatchesUp(x: Setting, s: State, updates: seq<ConfigEntry>)
    requires ServiceInv(x, s.service) && ClientInv(x, s) && Enabled(x.ns, s, Watch(updates))
    requires !MapWritePending(s.service.threads, x.ns)
    ensures
      var next := Step(x.codec, x.ns, s, Watch(updates));
      ClientInv(x, next) && Mirrors(x.ns, next)
  {
    hide StoreKey, CacheKey, ServiceInv, CW.FoldView, CW.LargestVersion, CW.Level, CW.MirrorsMap, Collected,
        ByAddress, Filed, CaughtUp;
    var entries, bound := s.service.store.entries, s.service.store.nextVersion;
    LocalMapIsFiled(x, s.service);
    FoldLevelsWithMap(x.ns, entries, s.client, updates, bound);
    CursorStaysBelow(x.ns, entries, s.client.cursor, updates, bound);
    LevelIsCaughtUp(x.ns, entries, CW.Fold(s.client, updates), bound);
  }

  lemma LocalMapIsFiled(x: Setting, s: CO.State)
    requires ServiceInv(x, s)
    ensures Filed(s.store.entries, s.store.nextVersion)
  {
    hide StoreKey, CO.TableKnown, CO.CacheKnown, MapModes;
  }

  lemma {:induction false} RunKeepsInv(x: Setting, r: Run, n: nat)
    requires x.codec.Faithful() && CW.NamespaceSeparate(x.addresses, x.ns) && Tolerates(x)
    requires Admitted(x, r) && n <= |r.trace| < 0x7FFF_FFFF_FFFF_FFFF
    ensures ServiceInv(x, r.states[n].service) && ClientInv(x, r.states[n])
    ensures 1 <= r.states[n].service.store.nextVersion <= n + 1
    ensures n > 0 && r.trace[n - 1].Watch? ==> Mirrors(x.ns, r.states[n])
  {
    hide ServiceInv, ClientInv, Mirrors, CO.Step, CO.Enabled, CW.NamespaceSeparate, CW.Fold;
    if n == 0 {
      StartsInv(x);
    } else {
      RunKeepsInv(x, r, n - 1);
      var s := r.states[n - 1];
      assert Enabled(x.ns, s, r.trace[n - 1]) && Permitted(x, s, r.trace[n - 1]);
      match r.trace[n - 1]
      case Serve(inner) =>
        ServeKeepsService(x, s.service, inner);
        ServeKeepsClient(x, s, inner);
        ServiceVersions(x, s.service, inner);
      case Watch(updates) =>
        WatchCatchesUp(x, s, updates);
    }
  }

  lemma ServiceVersions(x: Setting, s: CO.State, action: CO.Action)
    requires x.codec.Faithful() && ServiceInv(x, s) && CO.Enabled(s, action)
        && 1 <= s.store.nextVersion < 0x7FFF_FFFF_FFFF_FFFF
    ensures s.store.nextVersion <= CO.Step(x.codec, s, action).store.nextVersion <= s.store.nextVersion + 1
  {
    hide CO.Inv, CO.Step;
    StepKeepsInv(x.codec, x.backends.redis, s, action);
  }

  lemma StartsInv(x: Setting)
    ensures ServiceInv(x, Init(x.backends).service) && ClientInv(x, Init(x.backends))
  {
    hide StoreKey, CacheKey;
    forall a {
      StartsFresh(x.codec, x.backends, a);
    }
  }

  /** Under a tolerated discipline the client is level with BatchGetConfig after every watch. */
  lemma ToleratedWatch(x: Setting, r: Run)
    requires x.codec.Faithful() && CW.NamespaceSeparate(x.addresses, x.ns) && Tolerates(x)
    requires Admitted(x, r) && |r.trace| < 0x7FFF_FFFF_FFFF_FFFF
    ensures EveryWatchMirrors(x, r)
  {
    hide Mirrors, ServiceInv, ClientInv, CW.NamespaceSeparate;
    forall n | 0 <= n < |r.trace| && r.trace[n].Watch?
      ensures Mirrors(x.ns, r.states[n + 1])
    {
      RunKeepsInv(x, r, n + 1);
    }
  }

  // -------------------------------------------------------------------------------------------
  // Runs that lose track
  // -------------------------------------------------------------------------------------------

  function Last(r: Run): State
    requires |r.states| > 0
  {
    r.states[|r.states| - 1]
  }

  lemma Extend(x: Setting, r: Run, action: Action) returns (next: Run)
    requires Admitted(x, r) && Enabled(x.ns, Last(r), action) && Permitted(x, Last(r), action)
    ensures Admitted(x, next) && |next.states| > 0 && Last(next) == Step(x.codec, x.ns, Last(r), action)
    ensures next.trace == r.trace + [action] && next.states == r.states + [Last(next)]
  {
    hide Step, Permitted, Enabled;
    next := Run(r.states + [Step(x.codec, x.ns, Last(r), action)], r.trace + [action]);
  }

  /** A run of the service alone, with a client that has not watched yet. */
  lemma {:induction false} Lift(x: Setting, r: OR.Run) returns (w: Run)
    requires OR.Admitted(OR.Setting(x.codec, x.backends, x.addresses, x.d), r)
    ensures Admitted(x, w) && |w.states| > 0 && |w.trace| == |r.trace|
    ensures Last(w) == State.State(OR.Last(r), CW.Client(map[], 0))
    decreases |r.trace|
  {
    hide CO.Step, CO.Init, Obeys, Inside;
    if |r.trace| == 0 {
      w := Run([Init(x.backends)], []);
    } else {
      var n := |r.trace| - 1;
      var before := OR.Run(r.states[..n + 1], r.trace[..n]);
      forall a | a in x.addresses
        ensures Disciplined(x.d, a, before.states, before.trace)
        ensures Obeys(x.d, a, r.states[n].threads, r.trace[n])
      {
        assert Disciplined(x.d, a, r.states, r.trace);
      }
      w := Lift(x, before);
      assert OR.Last(before) == r.states[n];
      w := Extend(x, w, Serve(r.trace[n]));
    }
  }

  ghost predicate AllMirror(x: Setting) {
    forall r: Run | Admitted(x, r) && |r.trace| < 0x7FFF_FFFF_FFFF_FFFF :: EveryWatchMirrors(x, r)
  }

  /** The run ends with a watch after which BatchGetConfig has `e`, and the client has not. */
  ghost predicate EndsBehind(x: Setting, r: Run, e: ConfigEntry) {
    && Admitted(x, r) && 0 < |r.trace| < 100 && r.trace[|r.trace| - 1].Watch?
    && e in Collected(Last(r).service.store.entries, x.ns, -1)
    && (AddressOf(e) !in Last(r).client.view || Last(r).client.view[AddressOf(e)] != e)
  }

  lemma BehindIsNoMirror(x: Setting, r: Run, e: ConfigEntry)
    requires EndsBehind(x, r, e)
    ensures !AllMirror(x)
  {
    hide Step, Permitted, Enabled, Collected;
    var n := |r.trace| - 1;
    assert !Mirrors(x.ns, Last(r));
    assert r.trace[n].Watch? && r.states[n + 1] == Last(r);
    assert !EveryWatchMirrors(x, r);
  }

  /** A last watch delivers nothing while the local map holds something else at an address. */
  lemma ExtendBehind(x: Setting, r: Run, a: Address) returns (next: Run)
    requires |r.states| > 0 && Admitted(x, r) && |r.trace| < 99 && a.ns == x.ns
    requires !MapWritePending(Last(r).service.threads, x.ns)
    requires Collected(Last(r).service.store.entries, x.ns, Last(r).client.cursor) == {}
    requires Held(Last(r).service.store.entries, a) && Last(r).service.store.entries[StoreKey(a)].version > -1
    requires a !in Last(r).client.view || Last(r).client.view[a] != Last(r).service.store.entries[StoreKey(a)]
    ensures EndsBehind(x, next, Last(r).service.store.entries[StoreKey(a)])
    ensures Last(next) == Last(r)
  {
    hide StoreKey, MapWritePending, CO.Step, Admitted;
    assert (set e: ConfigEntry | e in []) == {};
    next := Extend(x, r, Watch([]));
    assert Last(next).client == Last(r).client;
  }

  /** Versions need not reach the local map in order: a client that has passed version 2 misses version 1
    * of another address, which is written later. */
  lemma WatchMissesALateWrite(x: Setting, a: Address, b: Address) returns (r: Run)
    requires a in x.addresses && b in x.addresses && a != b && a.ns == b.ns == x.ns && StoreKey(a) != StoreKey(b)
    requires Publishable(a) && Publishable(b) && a.env != "" && b.env != "" && !x.watchesApart
    ensures EndsBehind(x, r, EntryAt(a, 1)) && a !in Last(r).client.view && Last(r).client.cursor == 2
  {
    hide StoreKey, Collected, Admitted, CW.Fold;
    r := Begun(x);
    r := Extend(x, r, Serve(BeginPublish(EntryAt(a, 0))));
    r := Extend(x, r, Serve(BeginPublish(EntryAt(b, 0))));
    r := Extend(x, r, Serve(Advance(1, 0.0)));
    assert Last(r).service.store.entries == map[StoreKey(b) := EntryAt(b, 2)];
    CW.CollectOne(StoreKey(b), EntryAt(b, 2), x.ns, 0);
    assert (set e | e in [EntryAt(b, 2)]) == {EntryAt(b, 2)};
    CW.FoldOne(Last(r).client, EntryAt(b, 2));
    r := Extend(x, r, Watch([EntryAt(b, 2)]));
    r := Extend(x, r, Serve(Advance(0, 0.0)));
    TwoCollected(a, b);
    r := ExtendBehind(x, r, a);
  }

  lemma Begun(x: Setting) returns (r: Run)
    ensures Admitted(x, r) && r.trace == [] && r.states == [Init(x.backends)]
  {
    r := Run([Init(x.backends)], []);
  }

  lemma TwoCollected(a: Address, b: Address)
    requires a.ns == b.ns && StoreKey(a) != StoreKey(b)
    ensures Collected(map[StoreKey(b) := EntryAt(b, 2)][StoreKey(a) := EntryAt(a, 1)], a.ns, 2) == {}
  {
    hide StoreKey;
  }

  /** The client sees version 2 and passes it; then a fill brings version 1 back into the local map. */
  lemma FillAfterWatch(x: Setting, r: Run, i: nat, a: Address) returns (next: Run)
    requires Admitted(x, r) && |r.states| > 0 && |r.trace| < 50 && a in x.addresses && a.ns == x.ns
    requires Last(r).client == CW.Client(map[], 0) && !MapWritePending(Last(r).service.threads, x.ns)
    requires Last(r).service.store.entries == map[StoreKey(a) := EntryAt(a, 2)]
    requires i < |Last(r).service.threads| && FindsAt(Last(r).service.threads[i], a)
    requires Last(r).service.threads[i].find == FillCache(EntryAt(a, 1))
    ensures EndsBehind(x, next, EntryAt(a, 1))
    ensures a in Last(next).client.view && Last(next).client.view[a] == EntryAt(a, 2)
  {
    hide StoreKey, CacheKey, Collected, Admitted, CW.Fold, AllMirror;
    CW.CollectOne(StoreKey(a), EntryAt(a, 2), x.ns, 0);
    assert (set e | e in [EntryAt(a, 2)]) == {EntryAt(a, 2)};
    CW.FoldOne(Last(r).client, EntryAt(a, 2));
    next := Extend(x, r, Watch([EntryAt(a, 2)]));
    next := Extend(x, next, Serve(Advance(i, 0.0)));
    next := Extend(x, next, Serve(Advance(i, 0.0)));
    assert Last(next).service.store.entries == map[StoreKey(a) := EntryAt(a, 1)];
    CW.CollectOne(StoreKey(a), EntryAt(a, 1), x.ns, 2);
    next := ExtendBehind(x, next, a);
  }

  lemma OverlappingFindLosesTrack(x: Setting, a: Address) returns (w: Run)
    requires a in x.addresses && a.ns == x.ns && Publishable(a) && a.env != "" && x.backends.mysql && !x.d.findsApart
    ensures EndsBehind(x, w, EntryAt(a, 1))
    ensures a in Last(w).client.view && Last(w).client.view[a] == EntryAt(a, 2)
  {
    hide Admitted, AllMirror, StoreKey;
    var r := OR.PublishedBehindTheFind(OR.Setting(x.codec, x.backends, x.addresses, x.d), a);
    w := Lift(x, r);
    w := FillAfterWatch(x, w, 1, a);
  }

  lemma OverlappingPublishesLoseTrack(x: Setting, a: Address) returns (w: Run)
    requires a in x.addresses && a.ns == x.ns && Publishable(a) && a.env != "" && x.backends.mysql
        && !x.d.publishesApart
    ensures EndsBehind(x, w, EntryAt(a, 1))
    ensures a in Last(w).client.view && Last(w).client.view[a] == EntryAt(a, 2)
  {
    hide Admitted, AllMirror, StoreKey;
    var r := OR.FindHoldsTheOlderRow(OR.Setting(x.codec, x.backends, x.addresses, x.d), a);
    w := Lift(x, r);
    w := FillAfterWatch(x, w, 2, a);
  }

  /** With two publishable addresses in a separate namespace, the client is level with BatchGetConfig after
    * every watch of every run that keeps the discipline exactly when watches wait for claimed versions to
    * reach the local map and, if there is a database, publishes and finds of an address are kept apart. */
  lemma WatchIsToleratedExactly(x: Setting, a: Address, b: Address)
    requires x.codec.Faithful() && CW.NamespaceSeparate(x.addresses, x.ns)
    requires a in x.addresses && b in x.addresses && a != b && a.ns == b.ns == x.ns
    requires Publishable(a) && Publishable(b) && a.env != "" && b.env != ""
    ensures AllMirror(x) <==> Tolerates(x)
  {
    hide EveryWatchMirrors, StoreKey;
    if Tolerates(x) {
      forall r: Run | Admitted(x, r) && |r.trace| < 0x7FFF_FFFF_FFFF_FFFF
        ensures EveryWatchMirrors(x, r)
      {
        ToleratedWatch(x, r);
      }
    } else if !x.watchesApart {
      var r := WatchMissesALateWrite(x, a, b);
      BehindIsNoMirror(x, r, EntryAt(a, 1));
    } else if !x.d.findsApart {
      var r := OverlappingFindLosesTrack(x, a);
      BehindIsNoMirror(x, r, EntryAt(a, 1));
    } else {
      var r := OverlappingPublishesLoseTrack(x, a);
      BehindIsNoMirror(x, r, EntryAt(a, 1));
    }
  }
}
