/** A client of the configuration service that folds the deltas of WatchConfig over one namespace,
  * passing the largest version it has seen as its cursor. */
module ConfigWatch {
  import opened Wrappers
  import opened ConfigKeys
  import opened ConfigService
  import opened ConfigRuns

  /** What the client holds and the cursor it sends with its next watch. */
  datatype Client = Client(view: map<Address, ConfigEntry>, cursor: int)

  datatype Action =
    | Serve(timed: Timed)
    | Watch(updates: seq<ConfigEntry>)

  datatype State = State(store: Store, spec: Spec, client: Client)

  function FoldView(view: map<Address, ConfigEntry>, updates: seq<ConfigEntry>): map<Address, ConfigEntry>
    decreases |updates|
  {
    if |updates| == 0 then view else FoldView(view[AddressOf(updates[0]) := updates[0]], updates[1..])
  }

  function LargestVersion(cursor: int, updates: seq<ConfigEntry>): int
    decreases |updates|
  {
    if |updates| == 0 then cursor
    else LargestVersion(if updates[0].version > cursor then updates[0].version else cursor, updates[1..])
  }

  function Fold(client: Client, updates: seq<ConfigEntry>): Client {
    Client(FoldView(client.view, updates), LargestVersion(client.cursor, updates))
  }

  /** A watch delivers the newer entries of the namespace, in any order. */
  predicate Enabled(ns: string, s: State, action: Action) {
    match action
    case Serve(timed) => ConfigRuns.Enabled(s.store, timed.op)
    case Watch(updates) => (set e | e in updates) == Collected(s.store.entries, ns, s.client.cursor)
  }

  function Step(codec: Codec, s: State, action: Action): State {
    match action
    case Serve(timed) => State(ConfigRuns.Step(codec, s.store, timed), SpecStep(s.spec, timed.op), s.client)
    case Watch(updates) => s.(client := Fold(s.client, updates))
  }

  function After(codec: Codec, backends: Backends, trace: seq<Action>, n: nat): State
    requires n <= |trace|
  {
    if n == 0 then State(Fresh(backends), Spec(map[], 1), Client(map[], 0))
    else Step(codec, After(codec, backends, trace, n - 1), trace[n - 1])
  }

  ghost predicate IsRun(codec: Codec, backends: Backends, ns: string, trace: seq<Action>) {
    forall n: nat | n < |trace| :: Enabled(ns, After(codec, backends, trace, n), trace[n])
  }

  /** Every publish of the run goes to an address of the set. */
  ghost predicate Over(addresses: iset<Address>, trace: seq<Action>) {
    forall n | 0 <= n < |trace| && trace[n].Serve? && trace[n].timed.op.Publish? ::
      var a := AddressOf(trace[n].timed.op.entry);
      Publishable(a) ==> Normal(a) in addresses
  }

  /** The view holds exactly what BatchGetConfig would return, each entry under its own address. */
  ghost predicate MirrorsMap(ns: string, entries: map<string, ConfigEntry>, view: map<Address, ConfigEntry>) {
    && (set a | a in view :: view[a]) == Collected(entries, ns, -1)
    && forall a | a in view :: AddressOf(view[a]) == a
  }

  ghost predicate Mirrors(ns: string, s: State) {
    MirrorsMap(ns, s.store.entries, s.client.view)
  }

  ghost predicate EveryWatchMirrors(codec: Codec, backends: Backends, ns: string, trace: seq<Action>) {
    forall n: nat | n < |trace| && trace[n].Watch? :: Mirrors(ns, After(codec, backends, trace, n + 1))
  }

  /** No address of the namespace shares its store key with another address that can be published. */
  ghost predicate NamespaceSeparate(addresses: iset<Address>, ns: string) {
    forall a, b | a in addresses && b in addresses && a != b && a.ns == ns && Publishable(a) && Publishable(b) ::
      StoreKey(a) != StoreKey(b)
  }

  // -------------------------------------------------------------------------------------------
  // What every step keeps
  // -------------------------------------------------------------------------------------------

  ghost predicate VersionsBelow(spec: Spec) {
    && 1 <= spec.nextVersion
    && forall a | a in spec.published :: 1 <= spec.published[a].version < spec.nextVersion
  }

  /** The client lacks nothing up to its cursor and holds nothing that was never published. */
  ghost predicate CaughtUp(ns: string, published: map<Address, ConfigEntry>, client: Client) {
    && (forall a | a in client.view :: a.ns == ns && a in published && AddressOf(client.view[a]) == a)
    && (forall a | a in published && a.ns == ns && published[a].version <= client.cursor ::
          a in client.view && client.view[a] == published[a])
  }

  ghost predicate Inv(codec: Codec, addresses: iset<Address>, ns: string, s: State) {
    && Known(codec, s.store, s.spec)
    && VersionsBelow(s.spec)
    && (forall a | a in s.spec.published :: a in addresses)
    && 0 <= s.client.cursor < s.spec.nextVersion
    && CaughtUp(ns, s.spec.published, s.client)
  }

  lemma SpecStepKeepsClient(addresses: iset<Address>, ns: string, spec: Spec, client: Client, op: Op)
    requires VersionsBelow(spec) && CaughtUp(ns, spec.published, client) && client.cursor < spec.nextVersion
    requires spec.nextVersion < 0x7FFF_FFFF_FFFF_FFFF
    requires forall a | a in spec.published :: a in addresses
    requires op.Publish? && Publishable(AddressOf(op.entry)) ==> Normal(AddressOf(op.entry)) in addresses
    ensures
      var next := SpecStep(spec, op);
      && VersionsBelow(next) && CaughtUp(ns, next.published, client) && client.cursor < next.nextVersion
      && next.nextVersion <= spec.nextVersion + 1
      && forall a | a in next.published :: a in addresses
  {
  }

  /** The local map holds the latest entry of every address of a separate namespace. */
  lemma LocalHoldsNamespace(codec: Codec, addresses: iset<Address>, ns: string, s: State)
    requires Known(codec, s.store, s.spec) && NamespaceSeparate(addresses, ns)
    requires forall a | a in s.spec.published :: a in addresses
    ensures forall a | a in s.spec.published && a.ns == ns ::
              StoreKey(a) in s.store.entries && s.store.entries[StoreKey(a)] == s.spec.published[a]
  {
    hide StoreKey, CacheKey, TableKnown, CacheKnown;
  }

  /** So what it collects is what was published last in the namespace since the version. */
  lemma CollectedIsPublished(codec: Codec, addresses: iset<Address>, ns: string, s: State, since: int)
    requires Known(codec, s.store, s.spec) && NamespaceSeparate(addresses, ns)
    requires forall a | a in s.spec.published :: a in addresses
    ensures forall e :: e in Collected(s.store.entries, ns, since) <==>
              IsLatest(s.spec.published, e) && e.ns == ns && e.version > since
  {
    hide StoreKey, CacheKey, TableKnown, CacheKnown;
    LocalHoldsNamespace(codec, addresses, ns, s);
    forall e | IsLatest(s.spec.published, e) && e.ns == ns && e.version > since
      ensures e in Collected(s.store.entries, ns, since)
    {
      assert s.store.entries[StoreKey(AddressOf(e))] == e;
    }
  }

  ghost predicate Delivered(published: map<Address, ConfigEntry>, updates: seq<ConfigEntry>, a: Address) {
    a in published && published[a] in updates && AddressOf(published[a]) == a
  }

  /** Folding latest entries in any order leaves at an address its delivered entry, else what was there. */
  lemma {:induction false} FoldTakesLatest(
      view: map<Address, ConfigEntry>, published: map<Address, ConfigEntry>, updates: seq<ConfigEntry>, a: Address)
    requires forall e | e in updates :: IsLatest(published, e)
    ensures
      var folded := FoldView(view, updates);
      && (a in folded <==> a in view || Delivered(published, updates, a))
      && (a in folded ==> folded[a] == if Delivered(published, updates, a) then published[a] else view[a])
    decreases |updates|
  {
    if |updates| > 0 {
      var first, rest := updates[0], updates[1..];
      assert IsLatest(published, first);
      assert updates == [first] + rest;
      FoldTakesLatest(view[AddressOf(first) := first], published, rest, a);
    }
  }

  lemma {:induction false} LargestVersionBounds(cursor: int, updates: seq<ConfigEntry>, bound: int)
    requires cursor < bound && forall e | e in updates :: e.version < bound
    ensures cursor <= LargestVersion(cursor, updates) < bound
    ensures forall e | e in updates :: e.version <= LargestVersion(cursor, updates)
    decreases |updates|
  {
    if |updates| > 0 {
      LargestVersionBounds(if updates[0].version > cursor then updates[0].version else cursor, updates[1..], bound);
    }
  }

  /** The view is the published map restricted to the namespace. */
  ghost predicate Level(ns: string, published: map<Address, ConfigEntry>, view: map<Address, ConfigEntry>) {
    && (forall a | a in view :: a.ns == ns && a in published && view[a] == published[a])
    && (forall a | a in published && a.ns == ns :: a in view)
  }

  lemma LevelMirrors(codec: Codec, addresses: iset<Address>, ns: string, s: State)
    requires Known(codec, s.store, s.spec) && VersionsBelow(s.spec) && NamespaceSeparate(addresses, ns)
    requires forall a | a in s.spec.published :: a in addresses
    requires Level(ns, s.spec.published, s.client.view)
    ensures Mirrors(ns, s)
  {
    hide Known, StoreKey, NamespaceSeparate, MirrorsMap;
    PublishedAtTheirAddress(codec, s);
    CollectedIsPublished(codec, addresses, ns, s, -1);
    LevelMirrorsMap(ns, s.store.entries, s.spec.published, s.client.view);
  }

  lemma LevelMirrorsMap(
      ns: string, entries: map<string, ConfigEntry>, published: map<Address, ConfigEntry>,
      view: map<Address, ConfigEntry>)
    requires forall e :: e in Collected(entries, ns, -1) <==> IsLatest(published, e) && e.ns == ns && e.version > -1
    requires forall a | a in published :: AddressOf(published[a]) == a && published[a].version > -1
    requires Level(ns, published, view)
    ensures MirrorsMap(ns, entries, view)
  {
    hide Collected;
    forall e | e in Collected(entries, ns, -1)
      ensures e in (set a | a in view :: view[a])
    {
      assert view[AddressOf(e)] == e;
    }
    forall a | a in view
      ensures view[a] in Collected(entries, ns, -1)
    {
      assert IsLatest(published, view[a]);
    }
  }

  lemma FoldLevels(ns: string, published: map<Address, ConfigEntry>, client: Client, updates: seq<ConfigEntry>)
    requires forall a | a in published :: AddressOf(published[a]) == a
    requires CaughtUp(ns, published, client)
    requires forall e :: e in updates <==> IsLatest(published, e) && e.ns == ns && e.version > client.cursor
    ensures Level(ns, published, FoldView(client.view, updates))
  {
    hide FoldView;
    forall a {
      FoldTakesLatest(client.view, published, updates, a);
    }
    assert forall a | a in published :: IsLatest(published, published[a]);
  }

  /** A watch brings the client level with the namespace. */
  lemma WatchCatchesUp(codec: Codec, addresses: iset<Address>, ns: string, s: State, updates: seq<ConfigEntry>)
    requires Inv(codec, addresses, ns, s) && NamespaceSeparate(addresses, ns)
    requires (set e | e in updates) == Collected(s.store.entries, ns, s.client.cursor)
    ensures
      var next := s.(client := Fold(s.client, updates));
      Inv(codec, addresses, ns, next) && Mirrors(ns, next)
  {
    hide Known, StoreKey, NamespaceSeparate, FoldView, LargestVersion, Mirrors, MirrorsMap, Collected;
    var published, client := s.spec.published, s.client;
    CollectedIsPublished(codec, addresses, ns, s, client.cursor);
    assert forall e :: e in updates <==> e in (set e | e in updates);
    PublishedAtTheirAddress(codec, s);
    FoldLevels(ns, published, client, updates);
    LargestVersionBounds(client.cursor, updates, s.spec.nextVersion);
    LevelMirrors(codec, addresses, ns, s.(client := Fold(client, updates)));
  }

  lemma PublishedAtTheirAddress(codec: Codec, s: State)
    requires Known(codec, s.store, s.spec)
    ensures forall a | a in s.spec.published :: AddressOf(s.spec.published[a]) == a
  {
    hide LocalKnown, TableKnown, CacheKnown;
  }

  lemma {:induction false} RunKeepsInv(
      codec: Codec, backends: Backends, addresses: iset<Address>, ns: string, trace: seq<Action>, n: nat)
    requires codec.Faithful() && NamespaceSeparate(addresses, ns)
    requires IsRun(codec, backends, ns, trace) && Over(addresses, trace) && n <= |trace| < 0x7FFF_FFFF_FFFF_FFFF
    ensures Inv(codec, addresses, ns, After(codec, backends, trace, n))
    ensures After(codec, backends, trace, n).spec.nextVersion <= n + 1
    ensures n > 0 && trace[n - 1].Watch? ==> Mirrors(ns, After(codec, backends, trace, n))
  {
    hide Known, NamespaceSeparate, CaughtUp, VersionsBelow, Mirrors, Fold, ConfigRuns.Step, SpecStep;
    if n == 0 {
      StartsInv(codec, backends, addresses, ns);
    } else {
      RunKeepsInv(codec, backends, addresses, ns, trace, n - 1);
      var s := After(codec, backends, trace, n - 1);
      assert Enabled(ns, s, trace[n - 1]);
      match trace[n - 1]
      case Serve(timed) =>
        StepKeepsKnown(codec, s.store, s.spec, timed);
        SpecStepKeepsClient(addresses, ns, s.spec, s.client, timed.op);
      case Watch(updates) =>
        WatchCatchesUp(codec, addresses, ns, s, updates);
    }
  }

  lemma StartsInv(codec: Codec, backends: Backends, addresses: iset<Address>, ns: string)
    ensures Inv(codec, addresses, ns, State(Fresh(backends), Spec(map[], 1), Client(map[], 0)))
  {
  }

  // -------------------------------------------------------------------------------------------
  // Exactly when the client keeps up
  // -------------------------------------------------------------------------------------------

  /** Publish and watch at one address, then at another that shares its store key. */
  function ClashRun(ns: string, a: Address, b: Address): seq<Action> {
    [Serve(Timed(Publish(EntryAt(a, 0)), 0.0)),
     Watch([EntryAt(a, 1)]),
     Serve(Timed(Publish(EntryAt(b, 0)), 0.0)),
     Watch(if b.ns == ns then [EntryAt(b, 2)] else [])]
  }

  lemma PublishIntoEmptied(codec: Codec, s: Store, a: Address, entries: map<string, ConfigEntry>)
    requires Publishable(a) && a.env != "" && s.entries == entries
    ensures PublishStep(codec, s, EntryAt(a, 0)).0.entries == entries[StoreKey(a) := EntryAt(a, s.nextVersion)]
    ensures PublishStep(codec, s, EntryAt(a, 0)).0.nextVersion == FetchAdd(s.nextVersion)
  {
  }

  lemma CollectOne(key: string, e: ConfigEntry, ns: string, since: int)
    ensures Collected(map[key := e], ns, since) == if e.ns == ns && e.version > since then {e} else {}
  {
    var entries := map[key := e];
    assert key in entries && entries[key] == e;
    if e.ns == ns && e.version > since {
      assert e in Collected(entries, ns, since);
    }
  }

  lemma FoldOne(client: Client, e: ConfigEntry)
    requires e.version > client.cursor
    ensures Fold(client, [e]) == Client(client.view[AddressOf(e) := e], e.version)
  {
    assert [e][1..] == [];
    assert FoldView(client.view, [e]) == FoldView(client.view[AddressOf(e) := e], []);
    assert LargestVersion(client.cursor, [e]) == LargestVersion(e.version, []);
  }

  lemma ViewIsCollected(ns: string, s: State, a: Address)
    requires a in s.client.view
    ensures Mirrors(ns, s) ==> s.client.view[a] in Collected(s.store.entries, ns, -1)
  {
    hide Collected;
    assert s.client.view[a] in (set x | x in s.client.view :: s.client.view[x]);
  }

  lemma ClashLosesTrack(codec: Codec, backends: Backends, ns: string, a: Address, b: Address)
    requires a != b && a.ns == ns && a.env != "" && b.env != "" && Publishable(a) && Publishable(b)
    requires StoreKey(a) == StoreKey(b)
    ensures IsRun(codec, backends, ns, ClashRun(ns, a, b))
    ensures !EveryWatchMirrors(codec, backends, ns, ClashRun(ns, a, b))
  {
    hide StoreKey, PublishStep, Collected, Fold;
    var trace, ea, eb := ClashRun(ns, a, b), EntryAt(a, 1), EntryAt(b, 2);
    var s0, s1 := After(codec, backends, trace, 0), After(codec, backends, trace, 1);
    var s2, s3 := After(codec, backends, trace, 2), After(codec, backends, trace, 3);
    PublishIntoEmptied(codec, s0.store, a, map[]);
    assert s1.store.entries == map[StoreKey(a) := ea] && s1.client == Client(map[], 0) && s1.store.nextVersion == 2;
    CollectOne(StoreKey(a), ea, ns, 0);
    assert (set e | e in [ea]) == {ea};
    FoldOne(s1.client, ea);
    assert s2.store == s1.store && s2.client == Client(map[a := ea], 1);
    PublishIntoEmptied(codec, s2.store, b, s2.store.entries);
    assert s3.store.entries == map[StoreKey(a) := eb] && s3.client == s2.client;
    CollectOne(StoreKey(a), eb, ns, 1);
    CollectOne(StoreKey(a), eb, ns, -1);
    assert (set e | e in [eb]) == {eb};
    ViewKeepsTheFirst(codec, backends, ns, a, b);
    var s4 := After(codec, backends, trace, 4);
    assert s4.store == s3.store;
    ViewIsCollected(ns, s4, a);
    assert trace[3].Watch? && !Mirrors(ns, s4);
  }

  /** The last watch of the clash delivers nothing that replaces the first entry. */
  lemma ViewKeepsTheFirst(codec: Codec, backends: Backends, ns: string, a: Address, b: Address)
    requires a != b && After(codec, backends, ClashRun(ns, a, b), 3).client == Client(map[a := EntryAt(a, 1)], 1)
    ensures
      var view := After(codec, backends, ClashRun(ns, a, b), 4).client.view;
      a in view && view[a] == EntryAt(a, 1)
  {
    hide PublishStep, Collected, StoreKey;
    var before := After(codec, backends, ClashRun(ns, a, b), 3).client;
    if b.ns == ns {
      FoldOne(before, EntryAt(b, 2));
    } else {
      assert Fold(before, []) == before;
    }
  }

  lemma ClashIsOver(addresses: iset<Address>, ns: string, a: Address, b: Address)
    requires a in addresses && b in addresses && a.env != "" && b.env != ""
    ensures Over(addresses, ClashRun(ns, a, b)) && |ClashRun(ns, a, b)| == 4
  {
  }

  lemma SeparateMirrors(codec: Codec, backends: Backends, addresses: iset<Address>, ns: string, trace: seq<Action>)
    requires codec.Faithful() && NamespaceSeparate(addresses, ns)
    requires IsRun(codec, backends, ns, trace) && Over(addresses, trace) && |trace| < 0x7FFF_FFFF_FFFF_FFFF
    ensures EveryWatchMirrors(codec, backends, ns, trace)
  {
    hide Mirrors, After, Inv, NamespaceSeparate, Over;
    forall n: nat | n < |trace| && trace[n].Watch?
      ensures Mirrors(ns, After(codec, backends, trace, n + 1))
    {
      RunKeepsInv(codec, backends, addresses, ns, trace, n + 1);
    }
  }

  /** The client mirrors BatchGetConfig after every watch of every run, however many publishes and finds
    * happen in between, exactly when no address of its namespace shares a store key with another one.
    * (A run of 2^63 steps could wrap the version counter.) */
  lemma WatchMirrorsExactly(codec: Codec, backends: Backends, addresses: iset<Address>, ns: string)
    requires codec.Faithful() && forall a | a in addresses :: a.env != ""
    ensures
      (forall trace: seq<Action> | |trace| < 0x7FFF_FFFF_FFFF_FFFF && IsRun(codec, backends, ns, trace)
          && Over(addresses, trace) ::
         EveryWatchMirrors(codec, backends, ns, trace))
      <==> NamespaceSeparate(addresses, ns)
  {
    hide EveryWatchMirrors, StoreKey;
    if NamespaceSeparate(addresses, ns) {
      forall trace: seq<Action> | |trace| < 0x7FFF_FFFF_FFFF_FFFF && IsRun(codec, backends, ns, trace)
          && Over(addresses, trace)
        ensures EveryWatchMirrors(codec, backends, ns, trace)
      {
        SeparateMirrors(codec, backends, addresses, ns, trace);
      }
    } else {
      var a, b :| a in addresses && b in addresses && a != b && a.ns == ns && Publishable(a) && Publishable(b)
                  && StoreKey(a) == StoreKey(b);
      ClashLosesTrack(codec, backends, ns, a, b);
      ClashIsOver(addresses, ns, a, b);
      assert Over(addresses, ClashRun(ns, a, b));
    }
  }
}
