/** pkg/serv/serv.go: the polling loop that publishes snapshots, and the config counter it watches. */
module Publisher {
  import opened Prelude
  import opened Routes
  import Snapshots

  /** A node's generated snapshot: its version, and the names present and referred to. */
  datatype Snapshot = Snapshot(
    version: string,
    endpoints: set<string>, endpointRefs: set<string>,
    routes: set<string>, routeRefs: set<string>)

  /** Present and referenced names are the same, for endpoints and for routes. */
  predicate Coherent(s: Snapshot) {
    s.endpoints == s.endpointRefs && s.routes == s.routeRefs
  }

  /** Snapshot.Consistent: endpoints first, then routes. */
  method SnapshotConsistent(s: Snapshot) returns (ok: bool)
    ensures ok <==> s.endpoints == s.endpointRefs && s.routes == s.routeRefs
  {
    ok := Snapshots.Consistent(s.endpoints, s.endpointRefs);
    if ok {
      ok := Snapshots.Consistent(s.routes, s.routeRefs);
    }
  }

  lemma CoherentIff(s: Snapshot)
    ensures Coherent(s) <==> s.endpoints == s.endpointRefs && s.routes == s.routeRefs
  {
  }

  // ---------------------------------------------------------------- what one pass does

  /**
   * What has been published: the version last handed to the cache for each node, the cache itself, and
   * the nodes with an outstanding refusal: their last SetSnapshot was refused, for a version other
   * than the cached one.
   */
  datatype Outlet = Outlet(versions: map<NodeId, string>, cache: map<NodeId, Snapshot>, outstanding: set<NodeId>)

  predicate NeedsUpdate(o: Outlet, n: NodeId, version: string) {
    n !in o.versions || o.versions[n] != version
  }

  predicate Cached(o: Outlet, n: NodeId, version: string) {
    n in o.cache && o.cache[n].version == version
  }

  /** A pass so far; it stops at the first refusal. */
  datatype Pass = Pass(outlet: Outlet, ok: bool, stopped: bool)

  /** The version is recorded before the cache is asked. */
  function Offered(o: Outlet, n: NodeId, snap: Snapshot, refused: bool): Outlet {
    var versions := o.versions[n := snap.version];
    if !refused then Outlet(versions, o.cache[n := snap], o.outstanding - {n})
    else Outlet(versions, o.cache, if Cached(o, n, snap.version) then o.outstanding - {n} else o.outstanding + {n})
  }

  function Visit(p: Pass, n: NodeId, snap: Snapshot, refused: bool): Pass {
    if p.stopped then p
    else if !Coherent(snap) then p.(ok := false)
    else if !NeedsUpdate(p.outlet, n, snap.version) then p
    else Pass(Offered(p.outlet, n, snap, refused), p.ok && !refused, refused)
  }

  /** The pass over the snapshots in the order they come; `refuses` holds the nodes for which SetSnapshot fails. */
  function Publish(o: Outlet, snapshots: map<NodeId, Snapshot>, refuses: set<NodeId>, order: seq<NodeId>): Pass
    requires forall n :: n in order ==> n in snapshots
    decreases |order|
  {
    if order == [] then Pass(o, true, false)
    else
      var n := order[|order| - 1];
      Visit(Publish(o, snapshots, refuses, order[..|order| - 1]), n, snapshots[n], n in refuses)
  }

  /** The nodes reached, each once: all of them, or those up to the refusal that stops the pass. */
  ghost predicate Reaches(o: Outlet, snapshots: map<NodeId, Snapshot>, refuses: set<NodeId>, order: seq<NodeId>) {
    && Distinct(order, snapshots)
    && (order != [] ==> !Publish(o, snapshots, refuses, order[..|order| - 1]).stopped)
    && (Publish(o, snapshots, refuses, order).stopped || forall n :: n in snapshots ==> n in order)
  }

  /** Recorded and cached version differ exactly where a refusal is outstanding. */
  ghost predicate Accounted(o: Outlet) {
    && o.cache.Keys <= o.versions.Keys && o.outstanding <= o.versions.Keys
    && (forall n :: n in o.versions ==> (Cached(o, n, o.versions[n]) <==> n !in o.outstanding))
  }

  /** Nothing about the node has changed. */
  ghost predicate Same(o: Outlet, p: Outlet, n: NodeId) {
    && Untouched(o.versions, p.versions, n) && Untouched(o.cache, p.cache, n)
    && (n in o.outstanding <==> n in p.outstanding)
  }

  ghost predicate Untouched<V>(before: map<NodeId, V>, after: map<NodeId, V>, n: NodeId) {
    (n in after <==> n in before) && (n in after ==> after[n] == before[n])
  }

  /** Would SetSnapshot be called for the node, and refuse? */
  predicate Refused(o: Outlet, snapshots: map<NodeId, Snapshot>, refuses: set<NodeId>, n: NodeId) {
    n in snapshots && n in refuses && Coherent(snapshots[n]) && NeedsUpdate(o, n, snapshots[n].version)
  }

  /** Every cached snapshot passed the consistency check. */
  ghost predicate CacheCoherent(o: Outlet) {
    forall n :: n in o.cache ==>
      o.cache[n].endpoints == o.cache[n].endpointRefs && o.cache[n].routes == o.cache[n].routeRefs
  }

  /** The recorded version of every node is the version cached for it. */
  ghost predicate VersionsAgree(o: Outlet) {
    o.versions.Keys == o.cache.Keys && forall n :: n in o.versions ==> Cached(o, n, o.versions[n])
  }

  ghost predicate Distinct(order: seq<NodeId>, snapshots: map<NodeId, Snapshot>) {
    && (forall n :: n in order ==> n in snapshots)
    && (forall i, j :: 0 <= i < j < |order| ==> order[i] != order[j])
  }

  lemma DistinctInit(order: seq<NodeId>, snapshots: map<NodeId, Snapshot>)
    requires Distinct(order, snapshots) && order != []
    ensures Distinct(order[..|order| - 1], snapshots) && order[|order| - 1] !in order[..|order| - 1]
    ensures forall n :: n in order <==> n in order[..|order| - 1] || n == order[|order| - 1]
  {
    assert order == order[..|order| - 1] + [order[|order| - 1]];
  }

  /** A pass leaves a node alone that it does not reach, or whose snapshot is inconsistent or already recorded. */
  lemma {:induction false} PublishKeeps(
      o: Outlet, snapshots: map<NodeId, Snapshot>, refuses: set<NodeId>, order: seq<NodeId>, n: NodeId)
    requires Distinct(order, snapshots)
    requires n in order ==> !Coherent(snapshots[n]) || !NeedsUpdate(o, n, snapshots[n].version)
    ensures Same(o, Publish(o, snapshots, refuses, order).outlet, n)
    decreases |order|
  {
    if order != [] {
      hide Coherent, Distinct;
      DistinctInit(order, snapshots);
      PublishKeeps(o, snapshots, refuses, order[..|order| - 1], n);
    }
  }

  /** It succeeds exactly when every snapshot it reaches is consistent and none refused, and stops at a refusal only. */
  lemma {:induction false} PublishSucceeds(o: Outlet, snapshots: map<NodeId, Snapshot>, refuses: set<NodeId>, order: seq<NodeId>)
    requires Distinct(order, snapshots)
    ensures var p := Publish(o, snapshots, refuses, order);
      && (p.ok <==> forall n :: n in order ==> Coherent(snapshots[n]) && !Refused(o, snapshots, refuses, n))
      && (p.stopped <==> exists n :: n in order && Refused(o, snapshots, refuses, n))
    decreases |order|
  {
    if order != [] {
      hide Coherent, Distinct, Offered;
      var init, last := order[..|order| - 1], order[|order| - 1];
      DistinctInit(order, snapshots);
      PublishSucceeds(o, snapshots, refuses, init);
      PublishKeeps(o, snapshots, refuses, init, last);
      assert Refused(o, snapshots, refuses, last) <==> last in refuses && Coherent(snapshots[last]) && NeedsUpdate(Publish(o, snapshots, refuses, init).outlet, last, snapshots[last].version);
    }
  }

  /** A new consistent version it reaches is recorded and cached, unless refused. */
  lemma {:induction false} PublishReaches(
      o: Outlet, snapshots: map<NodeId, Snapshot>, refuses: set<NodeId>, order: seq<NodeId>, n: NodeId)
    requires Distinct(order, snapshots) && n in order && !Publish(o, snapshots, refuses, order[..|order| - 1]).stopped
    requires Coherent(snapshots[n]) && NeedsUpdate(o, n, snapshots[n].version) && n !in refuses
    ensures Taken(Publish(o, snapshots, refuses, order).outlet, n, snapshots[n])
    decreases |order|
  {
    hide Coherent, Distinct;
    var init, last := order[..|order| - 1], order[|order| - 1];
    DistinctInit(order, snapshots);
    if n == last {
      PublishKeeps(o, snapshots, refuses, init, last);
    } else {
      PublishReaches(o, snapshots, refuses, init, n);
    }
  }

  /** The snapshot is cached for the node and its version recorded. */
  ghost predicate Taken(o: Outlet, n: NodeId, snap: Snapshot) {
    n in o.cache && o.cache[n] == snap && n in o.versions && o.versions[n] == snap.version
  }

  lemma {:induction false} PublishKeepsAccounts(o: Outlet, snapshots: map<NodeId, Snapshot>, refuses: set<NodeId>, order: seq<NodeId>)
    requires forall n :: n in order ==> n in snapshots
    ensures Accounted(o) ==> Accounted(Publish(o, snapshots, refuses, order).outlet)
    ensures CacheCoherent(o) ==> CacheCoherent(Publish(o, snapshots, refuses, order).outlet)
    decreases |order|
  {
    if order != [] {
      PublishKeepsAccounts(o, snapshots, refuses, order[..|order| - 1]);
    }
  }

  lemma AgreeIff(o: Outlet)
    requires Accounted(o)
    ensures VersionsAgree(o) <==> o.outstanding == {}
  {
    if o.outstanding == {} {
      forall n | n in o.versions
        ensures n in o.cache
      {
        assert Cached(o, n, o.versions[n]);
      }
    }
  }

  /** A pass that succeeds over all snapshots leaves the version of each recorded. */
  lemma PublishRecords(o: Outlet, snapshots: map<NodeId, Snapshot>, refuses: set<NodeId>, order: seq<NodeId>)
    requires Reaches(o, snapshots, refuses, order) && Publish(o, snapshots, refuses, order).ok
    ensures Recorded(Publish(o, snapshots, refuses, order).outlet, snapshots)
  {
    hide Publish;
    PublishSucceeds(o, snapshots, refuses, order);
    forall n | n in snapshots
      ensures var p := Publish(o, snapshots, refuses, order).outlet; n in p.versions && p.versions[n] == snapshots[n].version
    {
      assert Coherent(snapshots[n]) && !Refused(o, snapshots, refuses, n);
      if NeedsUpdate(o, n, snapshots[n].version) {
        PublishReaches(o, snapshots, refuses, order, n);
      } else {
        PublishKeeps(o, snapshots, refuses, order, n);
      }
    }
  }

  ghost predicate Recorded(o: Outlet, snapshots: map<NodeId, Snapshot>) {
    forall n :: n in snapshots ==>
      && snapshots[n].endpoints == snapshots[n].endpointRefs && snapshots[n].routes == snapshots[n].routeRefs
      && n in o.versions && o.versions[n] == snapshots[n].version
  }

  // ---------------------------------------------------------------- the server

  class Server {
    /** The version last handed to the cache for each node. */
    var snapVersions: map<NodeId, string>
    var cache: map<NodeId, Snapshot>
    ghost var outstanding: set<NodeId>

    ghost function View(): Outlet
      reads this
    {
      Outlet(snapVersions, cache, outstanding)
    }

    constructor ()
      ensures View() == Outlet(map[], map[], {})
    {
      snapVersions, cache, outstanding := map[], map[], {};
    }

    method IsSnapToUpdate(n: NodeId, version: string) returns (update: bool)
      modifies this`snapVersions
      ensures update <==> !(n in old(snapVersions) && old(snapVersions)[n] == version)
      ensures snapVersions == old(snapVersions)[n := version]
    {
      update := n !in snapVersions || snapVersions[n] != version;
      snapVersions := snapVersions[n := version];
    }

    /**
     * Publishes the generated snapshots in whatever order they come: the new state is that of the
     * pass over the nodes reached. A refused SetSnapshot leaves the cache as it was.
     */
    method ProcessSnapshot(snapshots: map<NodeId, Snapshot>, refuses: set<NodeId>) returns (ok: bool, ghost order: seq<NodeId>)
      requires CacheCoherent(View()) && Accounted(View())
      modifies this
      ensures Reaches(old(View()), snapshots, refuses, order)
      ensures View() == Publish(old(View()), snapshots, refuses, order).outlet
      ensures ok == Publish(old(View()), snapshots, refuses, order).ok
      ensures CacheCoherent(View()) && Accounted(View())
      // a node not reached, inconsistent in either type, or at its recorded version keeps what it has
      ensures forall n :: n !in order ==> Same(old(View()), View(), n)
      ensures forall n :: n in order && snapshots[n].endpoints != snapshots[n].endpointRefs ==> Same(old(View()), View(), n)
      ensures forall n :: n in order && snapshots[n].routes != snapshots[n].routeRefs ==> Same(old(View()), View(), n)
      ensures forall n :: n in order && !NeedsUpdate(old(View()), n, snapshots[n].version) ==> Same(old(View()), View(), n)
      // a new consistent version is recorded; it is cached unless refused, and then the old snapshot stays
      ensures forall n | n in order && NeedsUpdate(old(View()), n, snapshots[n].version) && n !in refuses ::
        snapshots[n].endpoints == snapshots[n].endpointRefs && snapshots[n].routes == snapshots[n].routeRefs ==>
          Taken(View(), n, snapshots[n])
      ensures forall n | n in order && NeedsUpdate(old(View()), n, snapshots[n].version) && n in refuses ::
        snapshots[n].endpoints == snapshots[n].endpointRefs && snapshots[n].routes == snapshots[n].routeRefs ==>
          Untouched(old(cache), cache, n) && n in snapVersions && snapVersions[n] == snapshots[n].version
      // success: every node was consistent in both types and none was refused; then every new version is cached
      ensures ok <==> forall n :: n in snapshots ==>
        && snapshots[n].endpoints == snapshots[n].endpointRefs && snapshots[n].routes == snapshots[n].routeRefs
        && !(n in refuses && NeedsUpdate(old(View()), n, snapshots[n].version))
      ensures ok ==> forall n :: n in snapshots && NeedsUpdate(old(View()), n, snapshots[n].version) ==> n in cache && cache[n] == snapshots[n]
      // the recorded versions stay those of the cache exactly when none was refused
      ensures VersionsAgree(old(View())) ==> (VersionsAgree(View()) <==> forall n :: !Refused(old(View()), snapshots, refuses, n))
      // every node whose cached version is not the recorded one has an outstanding refusal, and no other
      ensures VersionsAgree(View()) <==> outstanding == {}
    {
      hide Publish, Same, Untouched, Accounted, CacheCoherent, VersionsAgree, Reaches, NeedsUpdate, Taken;
      ok, order := PublishAll(snapshots, refuses);
      PublishMeans(old(View()), snapshots, refuses, order);
    }

    /** One turn of the loop, with what the turns before it came to. */
    method PublishNode(n: NodeId, snap: Snapshot, refused: bool, before: bool) returns (ok: bool, stopped: bool)
      modifies this
      ensures Pass(View(), ok, stopped) == Visit(Pass(old(View()), before, false), n, snap, refused)
    {
      hide Coherent;
      ok, stopped := before, false;
      var consistent := SnapshotConsistent(snap);
      CoherentIff(snap);
      if !consistent {
        ok := false;
        return;
      }
      var update := IsSnapToUpdate(n, snap.version);
      if update {
        if refused {
          outstanding := if n in cache && cache[n].version == snap.version then outstanding - {n} else outstanding + {n};
          return false, true;
        }
        cache := cache[n := snap];
        outstanding := outstanding - {n};
      }
    }

    /** The loop over the snapshots, which stops at the first refusal. */
    method PublishAll(snapshots: map<NodeId, Snapshot>, refuses: set<NodeId>) returns (ok: bool, ghost order: seq<NodeId>)
      modifies this
      ensures Reaches(old(View()), snapshots, refuses, order)
      ensures View() == Publish(old(View()), snapshots, refuses, order).outlet
      ensures ok == Publish(old(View()), snapshots, refuses, order).ok
    {
      order, ok := [], true;
      assert Distinct(order, snapshots);
      hide Visit, Publish, Distinct;
      var rest := snapshots.Keys;
      ghost var start := View();
      PublishStep(start, snapshots, refuses, order);
      while rest != {}
        invariant forall n :: n in snapshots <==> n in rest || n in order
        invariant forall n :: n in order ==> n !in rest
        invariant Distinct(order, snapshots)
        invariant Publish(start, snapshots, refuses, order) == Pass(View(), ok, false)
      {
        var n :| n in rest;
        DistinctMore(order, snapshots, n);
        rest, order := rest - {n}, order + [n];
        PublishStep(start, snapshots, refuses, order);
        var stopped;
        ok, stopped := PublishNode(n, snapshots[n], n in refuses, ok);
        if stopped {
          return;
        }
      }
      PublishStep(start, snapshots, refuses, order);
    }
  }

  lemma PublishStep(o: Outlet, snapshots: map<NodeId, Snapshot>, refuses: set<NodeId>, order: seq<NodeId>)
    requires Distinct(order, snapshots)
    ensures order == [] ==> Publish(o, snapshots, refuses, order) == Pass(o, true, false)
    ensures order != [] ==>
      var n := order[|order| - 1];
      Distinct(order[..|order| - 1], snapshots) &&
      Publish(o, snapshots, refuses, order) == Visit(Publish(o, snapshots, refuses, order[..|order| - 1]), n, snapshots[n], n in refuses)
  {
  }

  lemma DistinctMore(order: seq<NodeId>, snapshots: map<NodeId, Snapshot>, n: NodeId)
    requires Distinct(order, snapshots) && n in snapshots && n !in order
    ensures Distinct(order + [n], snapshots) && (order + [n])[..|order + [n]| - 1] == order
  {
  }

  /** What a pass means for each node, from what the node was before it. */
  lemma PublishMeans(o: Outlet, snapshots: map<NodeId, Snapshot>, refuses: set<NodeId>, order: seq<NodeId>)
    requires Reaches(o, snapshots, refuses, order) && CacheCoherent(o) && Accounted(o)
    ensures var p := Publish(o, snapshots, refuses, order);
      && CacheCoherent(p.outlet) && Accounted(p.outlet)
      && (VersionsAgree(p.outlet) <==> p.outlet.outstanding == {})
      && (VersionsAgree(o) ==> (VersionsAgree(p.outlet) <==> forall n :: !Refused(o, snapshots, refuses, n)))
      && (forall n :: n !in order || !Coherent(snapshots[n]) || !NeedsUpdate(o, n, snapshots[n].version) ==> Same(o, p.outlet, n))
      && (forall n :: n in order && Coherent(snapshots[n]) && NeedsUpdate(o, n, snapshots[n].version) && n in refuses ==>
            Untouched(o.cache, p.outlet.cache, n) && n in p.outlet.versions && p.outlet.versions[n] == snapshots[n].version)
      && (p.ok <==> forall n :: n in snapshots ==> Coherent(snapshots[n]) && !Refused(o, snapshots, refuses, n))
      && (forall n :: n in order && Coherent(snapshots[n]) && NeedsUpdate(o, n, snapshots[n].version) && n !in refuses ==>
            Taken(p.outlet, n, snapshots[n]))
      && (p.ok ==> forall n :: n in snapshots && NeedsUpdate(o, n, snapshots[n].version) ==>
            n in p.outlet.cache && p.outlet.cache[n] == snapshots[n])
  {
    hide Publish, Coherent, Same, Untouched, NeedsUpdate, VersionsAgree, CacheCoherent, Accounted;
    var p := Publish(o, snapshots, refuses, order);
    PublishKeepsAccounts(o, snapshots, refuses, order);
    AgreeIff(p.outlet);
    if VersionsAgree(o) {
      AgreeUnlessRefused(o, snapshots, refuses, order);
    }
    PublishSucceeds(o, snapshots, refuses, order);
    forall n | n !in order || !Coherent(snapshots[n]) || !NeedsUpdate(o, n, snapshots[n].version)
      ensures Same(o, p.outlet, n)
    {
      PublishKeeps(o, snapshots, refuses, order, n);
    }
    forall n | n in order && Coherent(snapshots[n]) && NeedsUpdate(o, n, snapshots[n].version) && n in refuses
      ensures Untouched(o.cache, p.outlet.cache, n) && n in p.outlet.versions && p.outlet.versions[n] == snapshots[n].version
    {
      PublishRefuses(o, snapshots, refuses, order, n);
    }
    forall n | n in order && Coherent(snapshots[n]) && NeedsUpdate(o, n, snapshots[n].version) && n !in refuses
      ensures Taken(p.outlet, n, snapshots[n])
    {
      PublishReaches(o, snapshots, refuses, order, n);
    }
    if p.ok {
      forall n | n in snapshots && NeedsUpdate(o, n, snapshots[n].version)
        ensures n in p.outlet.cache && p.outlet.cache[n] == snapshots[n]
      {
        assert Coherent(snapshots[n]) && !Refused(o, snapshots, refuses, n);
        PublishReaches(o, snapshots, refuses, order, n);
      }
    }
  }

  lemma AgreeUnlessRefused(o: Outlet, snapshots: map<NodeId, Snapshot>, refuses: set<NodeId>, order: seq<NodeId>)
    requires Reaches(o, snapshots, refuses, order) && VersionsAgree(o)
    ensures VersionsAgree(Publish(o, snapshots, refuses, order).outlet) <==> forall n :: !Refused(o, snapshots, refuses, n)
  {
    hide Coherent, Publish;
    var p := Publish(o, snapshots, refuses, order).outlet;
    PublishSucceeds(o, snapshots, refuses, order);
    if n :| n in order && Refused(o, snapshots, refuses, n) {
      PublishRefuses(o, snapshots, refuses, order, n);
      assert !Cached(p, n, p.versions[n]);
    } else {
      forall n
        ensures n in p.versions <==> n in p.cache
        ensures n in p.versions ==> Cached(p, n, p.versions[n])
      {
        if n in order && Coherent(snapshots[n]) && NeedsUpdate(o, n, snapshots[n].version) {
          assert !Refused(o, snapshots, refuses, n);
          PublishReaches(o, snapshots, refuses, order, n);
        } else {
          PublishKeeps(o, snapshots, refuses, order, n);
        }
      }
    }
  }

  /** A refused version is recorded, and what the node serves is kept. */
  lemma PublishRefuses(o: Outlet, snapshots: map<NodeId, Snapshot>, refuses: set<NodeId>, order: seq<NodeId>, n: NodeId)
    requires Reaches(o, snapshots, refuses, order) && n in order && Refused(o, snapshots, refuses, n)
    ensures var p := Publish(o, snapshots, refuses, order).outlet;
      Untouched(o.cache, p.cache, n) && n in p.versions && p.versions[n] == snapshots[n].version
  {
    hide Coherent, Distinct, Publish;
    var init, last := order[..|order| - 1], order[|order| - 1];
    DistinctInit(order, snapshots);
    PublishSucceeds(o, snapshots, refuses, init);
    PublishKeeps(o, snapshots, refuses, init, last);
    PublishStep(o, snapshots, refuses, order);
  }

  // ---------------------------------------------------------------- writers and the tick

  /** A writer inside the config's write lock: what it found, and whether it has bumped the counter. */
  datatype Writer<C> = Writer(found: C, foundCounter: nat, bumped: bool)

  /** Where the tick is: the counter it read, then the config it read under the read lock. */
  datatype Tick<C> = Waiting | Counted(counter: nat) | Loaded(counter: nat, config: C)

  /** `generated` is the config of the last pass that succeeded. */
  datatype Loop<C> = Loop(
    config: C,
    counter: nat,
    writer: Option<Writer<C>>,
    tick: Tick<C>,
    lastProcessed: nat,
    generated: Option<C>,
    outlet: Outlet)

  /** The config as the last writer left it. */
  function Committed<C>(s: Loop<C>): C {
    if s.writer.Some? then s.writer.value.found else s.config
  }

  /** The snapshots generated from a config. */
  type Generate<!C> = C -> map<NodeId, Snapshot>

  datatype Event<C> =
    | LockWrite
    | Write(config: C)
    | Bump
    | UnlockWrite
    | ReadCounter
    | ReadConfig
    | NotGenerated
    | Processed(refuses: set<NodeId>, order: seq<NodeId>)

  /** A writer that changed the config bumps the counter before it unlocks; the tick reads under the read lock. */
  ghost predicate Possible<C>(gen: Generate<C>, s: Loop<C>, e: Event<C>) {
    match e
    case LockWrite => s.writer.None?
    case Write(_) => s.writer.Some?
    case Bump => s.writer.Some?
    case UnlockWrite => s.writer.Some? && (s.config != s.writer.value.found ==> s.writer.value.bumped)
    case ReadCounter => s.tick.Waiting?
    case ReadConfig => s.tick.Counted? && s.writer.None?
    case NotGenerated => s.tick.Loaded?
    case Processed(refuses, order) => s.tick.Loaded? && Reaches(s.outlet, gen(s.tick.config), refuses, order)
  }

  ghost function Apply<C>(gen: Generate<C>, s: Loop<C>, e: Event<C>): Loop<C>
    requires Possible(gen, s, e)
  {
    match e
    case LockWrite => s.(writer := Some(Writer(s.config, s.counter, false)))
    case Write(c) => s.(config := c)
    case Bump => s.(counter := s.counter + 1, writer := Some(s.writer.value.(bumped := true)))
    case UnlockWrite => s.(writer := None)
    case ReadCounter => if s.counter == s.lastProcessed then s else s.(tick := Counted(s.counter))
    case ReadConfig => s.(tick := Loaded(s.tick.counter, s.config))
    case NotGenerated => s.(tick := Waiting)
    case Processed(refuses, order) =>
      var p := Publish(s.outlet, gen(s.tick.config), refuses, order);
      if p.ok then s.(tick := Waiting, outlet := p.outlet, lastProcessed := s.tick.counter, generated := Some(s.tick.config))
      else s.(tick := Waiting, outlet := p.outlet)
  }

  /** The loop starts by taking the counter as it finds it, with nothing published. */
  function StartLoop<C>(config: C, counter: nat): Loop<C> {
    Loop(config, counter, None, Waiting, counter, None, Outlet(map[], map[], {}))
  }

  ghost predicate Counting<C>(s: Loop<C>) {
    && s.lastProcessed <= s.counter
    && (s.tick.Counted? ==> s.lastProcessed < s.tick.counter <= s.counter)
    && (s.tick.Loaded? ==> s.lastProcessed < s.tick.counter <= s.counter && (s.tick.counter == s.counter ==> s.tick.config == Committed(s)))
    && (s.writer.Some? ==>
          var w := s.writer.value;
          && (w.bumped ==> w.foundCounter < s.counter)
          && w.foundCounter <= s.counter
          && s.lastProcessed <= w.foundCounter
          && (s.tick.Loaded? ==> s.tick.counter <= w.foundCounter))
    && (s.generated.Some? && s.lastProcessed == s.counter ==> s.generated.value == Committed(s))
  }

  ghost predicate Accurate<C>(gen: Generate<C>, s: Loop<C>) {
    && Counting(s) && Accounted(s.outlet) && CacheCoherent(s.outlet)
    && (s.generated.Some? && s.lastProcessed == s.counter ==> Recorded(s.outlet, gen(s.generated.value)))
  }

  lemma EventKeepsAccurate<C>(gen: Generate<C>, s: Loop<C>, e: Event<C>)
    requires Accurate(gen, s) && Possible(gen, s, e)
    ensures Accurate(gen, Apply(gen, s, e))
  {
    hide Accounted, CacheCoherent, Publish, Recorded;
    if e.Processed? {
      PublishKeepsAccounts(s.outlet, gen(s.tick.config), e.refuses, e.order);
      if Publish(s.outlet, gen(s.tick.config), e.refuses, e.order).ok {
        PublishRecords(s.outlet, gen(s.tick.config), e.refuses, e.order);
      }
    }
  }

  ghost predicate Run<C>(gen: Generate<C>, s: Loop<C>, run: seq<Event<C>>)
    decreases |run|
  {
    run == [] || (Possible(gen, s, run[0]) && Run(gen, Apply(gen, s, run[0]), run[1..]))
  }

  ghost function After<C>(gen: Generate<C>, s: Loop<C>, run: seq<Event<C>>): Loop<C>
    requires Run(gen, s, run)
    decreases |run|
  {
    if run == [] then s else After(gen, Apply(gen, s, run[0]), run[1..])
  }

  lemma {:induction false} RunKeepsAccurate<C>(gen: Generate<C>, s: Loop<C>, run: seq<Event<C>>)
    requires Accurate(gen, s) && Run(gen, s, run)
    ensures Accurate(gen, After(gen, s, run))
    decreases |run|
  {
    hide Accurate, Possible, Apply;
    if run != [] {
      EventKeepsAccurate(gen, s, run[0]);
      RunKeepsAccurate(gen, Apply(gen, s, run[0]), run[1..]);
    }
  }

  /**
   * What a quiet loop has published: once a pass has succeeded, a tick that finds the counter
   * unchanged finds the last pass done from the config the last writer left, every snapshot of it
   * consistent, and its version in the cache of exactly those nodes without an outstanding refusal.
   */
  lemma QuietMeansPublished<C>(gen: Generate<C>, config: C, counter: nat, run: seq<Event<C>>, n: NodeId)
    requires Run(gen, StartLoop(config, counter), run)
    requires var s := After(gen, StartLoop(config, counter), run); s.generated.Some? && s.counter == s.lastProcessed
    ensures var s := After(gen, StartLoop(config, counter), run);
      && s.generated.value == Committed(s)
      && (n in gen(Committed(s)) ==>
            && gen(Committed(s))[n].endpoints == gen(Committed(s))[n].endpointRefs
            && gen(Committed(s))[n].routes == gen(Committed(s))[n].routeRefs
            && (Cached(s.outlet, n, gen(Committed(s))[n].version) <==> n !in s.outlet.outstanding))
  {
    RunKeepsAccurate(gen, StartLoop(config, counter), run);
  }

  /** Whatever the interleaving, no snapshot is ever served that lacks a resource it refers to, or has one too many. */
  lemma CachedIsConsistent<C>(gen: Generate<C>, config: C, counter: nat, run: seq<Event<C>>, n: NodeId)
    requires Run(gen, StartLoop(config, counter), run)
    requires n in After(gen, StartLoop(config, counter), run).outlet.cache
    ensures var snap := After(gen, StartLoop(config, counter), run).outlet.cache[n];
      snap.endpoints == snap.endpointRefs && snap.routes == snap.routeRefs
  {
    hide After, Run;
    RunKeepsAccurate(gen, StartLoop(config, counter), run);
  }

  /** A tick over a node whose names differ in either type fails, and leaves the node as it was. */
  lemma InconsistentKept<C>(gen: Generate<C>, s: Loop<C>, e: Event<C>, n: NodeId)
    requires e.Processed? && Possible(gen, s, e) && n in gen(s.tick.config)
    requires var snap := gen(s.tick.config)[n]; snap.endpoints != snap.endpointRefs || snap.routes != snap.routeRefs
    ensures Same(s.outlet, Apply(gen, s, e).outlet, n)
    ensures Apply(gen, s, e).lastProcessed == s.lastProcessed && Apply(gen, s, e).generated == s.generated
  {
    hide Publish, Same;
    var snapshots := gen(s.tick.config);
    PublishSucceeds(s.outlet, snapshots, e.refuses, e.order);
    PublishKeeps(s.outlet, snapshots, e.refuses, e.order, n);
    assert Publish(s.outlet, snapshots, e.refuses, e.order).stopped || n in e.order;
    StoppedNotOk(s.outlet, snapshots, e.refuses, e.order);
  }

  lemma StoppedNotOk(o: Outlet, snapshots: map<NodeId, Snapshot>, refuses: set<NodeId>, order: seq<NodeId>)
    requires Distinct(order, snapshots)
    ensures Publish(o, snapshots, refuses, order).stopped ==> !Publish(o, snapshots, refuses, order).ok
  {
    hide Publish;
    PublishSucceeds(o, snapshots, refuses, order);
  }

  /** So no update is lost exactly when no node of the current snapshots has an outstanding refusal. */
  lemma NoUpdateLost<C>(gen: Generate<C>, config: C, counter: nat, run: seq<Event<C>>)
    requires Run(gen, StartLoop(config, counter), run)
    requires var s := After(gen, StartLoop(config, counter), run); s.generated.Some? && s.counter == s.lastProcessed
    ensures var s := After(gen, StartLoop(config, counter), run);
      (forall n :: n in gen(Committed(s)) ==> Cached(s.outlet, n, gen(Committed(s))[n].version))
      <==> gen(Committed(s)).Keys !! s.outlet.outstanding
  {
    hide After, Run, Cached;
    var s := After(gen, StartLoop(config, counter), run);
    forall n | n in gen(Committed(s))
      ensures Cached(s.outlet, n, gen(Committed(s))[n].version) <==> n !in s.outlet.outstanding
    {
      QuietMeansPublished(gen, config, counter, run, n);
    }
  }

  /** A failed pass leaves the counter behind, so the next tick processes again. */
  lemma FailedPassIsRetried<C>(gen: Generate<C>, config: C, counter: nat, run: seq<Event<C>>, e: Event<C>)
    requires Run(gen, StartLoop(config, counter), run)
    requires var s := After(gen, StartLoop(config, counter), run);
      && Possible(gen, s, e)
      && (e.NotGenerated? || (e.Processed? && !Publish(s.outlet, gen(s.tick.config), e.refuses, e.order).ok))
    ensures var s := Apply(gen, After(gen, StartLoop(config, counter), run), e);
      Possible(gen, s, ReadCounter) && Apply(gen, s, ReadCounter).tick == Counted(s.counter)
  {
    hide Publish, Reaches;
    RunKeepsAccurate(gen, StartLoop(config, counter), run);
  }

  lemma RunsOne<C>(gen: Generate<C>, s: Loop<C>, e: Event<C>, rest: seq<Event<C>>)
    requires Possible(gen, s, e) && Run(gen, Apply(gen, s, e), rest)
    ensures Run(gen, s, [e] + rest) && After(gen, s, [e] + rest) == After(gen, Apply(gen, s, e), rest)
  {
    assert ([e] + rest)[1..] == rest;
  }

  /** The state in which a changed config, with one node, waits to be published. */
  function Changed<C>(config: C, outlet: Outlet): Loop<C> {
    Loop(config, 1, None, Waiting, 0, None, outlet)
  }

  /** A pass refused for the node: its version stays recorded, and the tick starts over. */
  lemma RefusedPass<C>(gen: Generate<C>, c: C, n: NodeId, snap: Snapshot, rest: seq<Event<C>>)
    requires gen(c) == map[n := snap] && Coherent(snap)
    requires Run(gen, Changed(c, Outlet(map[n := snap.version], map[], {n})), rest)
    ensures var start := Changed(c, Outlet(map[], map[], {}));
      var run := [ReadCounter] + ([ReadConfig] + ([Processed({n}, [n])] + rest));
      Run(gen, start, run) && After(gen, start, run) == After(gen, Changed(c, Outlet(map[n := snap.version], map[], {n})), rest)
  {
    var start := Changed(c, Outlet(map[], map[], {}));
    var s1 := start.(tick := Counted(1));
    var s2 := start.(tick := Loaded(1, c));
    var none: map<NodeId, string> := map[];
    assert none[n := snap.version] == map[n := snap.version];
    assert [n][..0] == [];
    assert Publish(start.outlet, gen(c), {n}, [n]) == Pass(Outlet(map[n := snap.version], map[], {n}), false, true);
    assert Apply(gen, s2, Processed({n}, [n])) == Changed(c, Outlet(map[n := snap.version], map[], {n}));
    RunsOne(gen, s2, Processed({n}, [n]), rest);
    assert Apply(gen, s1, ReadConfig) == s2;
    RunsOne(gen, s1, ReadConfig, [Processed({n}, [n])] + rest);
    assert Apply(gen, start, ReadCounter) == s1;
    RunsOne(gen, start, ReadCounter, [ReadConfig] + ([Processed({n}, [n])] + rest));
  }

  /** The retry finds the version recorded, succeeds without asking the cache, and catches up. */
  lemma QuietRetry<C>(gen: Generate<C>, c: C, n: NodeId, snap: Snapshot) returns (run: seq<Event<C>>)
    requires gen(c) == map[n := snap] && Coherent(snap)
    ensures var s := Changed(c, Outlet(map[n := snap.version], map[], {n}));
      Run(gen, s, run) && After(gen, s, run) == s.(lastProcessed := 1, generated := Some(c))
  {
    var start := Changed(c, Outlet(map[n := snap.version], map[], {n}));
    var s1 := start.(tick := Counted(1));
    var s2 := start.(tick := Loaded(1, c));
    assert [n][..0] == [];
    assert Publish(start.outlet, gen(c), {}, [n]) == Pass(start.outlet, true, false);
    assert Apply(gen, s2, Processed({}, [n])) == start.(lastProcessed := 1, generated := Some(c));
    RunsOne(gen, s2, Processed({}, [n]), []);
    assert Apply(gen, s1, ReadConfig) == s2;
    RunsOne(gen, s1, ReadConfig, [Processed({}, [n])] + []);
    assert Apply(gen, start, ReadCounter) == s1;
    RunsOne(gen, start, ReadCounter, [ReadConfig] + ([Processed({}, [n])] + []));
    run := [ReadCounter] + ([ReadConfig] + ([Processed({}, [n])] + []));
  }

  /** A refused update stays lost: the loop goes quiet, counter unchanged, and the node has no snapshot. */
  lemma RefusedStaysLost<C>(gen: Generate<C>, before: C, c: C, n: NodeId, snap: Snapshot) returns (run: seq<Event<C>>)
    requires gen(c) == map[n := snap] && Coherent(snap)
    ensures Run(gen, StartLoop(before, 0), run)
    ensures var s := After(gen, StartLoop(before, 0), run);
      && s.generated == Some(c) && s.counter == s.lastProcessed && Committed(s) == c
      && n in gen(c) && n !in s.outlet.cache
  {
    var retry := QuietRetry(gen, c, n, snap);
    RefusedPass(gen, c, n, snap, retry);
    var rest := [ReadCounter] + ([ReadConfig] + ([Processed({n}, [n])] + retry));
    var empty := Outlet(map[], map[], {});
    var s1 := StartLoop(before, 0).(writer := Some(Writer(before, 0, false)));
    var s2 := s1.(config := c);
    var s3 := s2.(counter := 1, writer := Some(Writer(before, 0, true)));
    assert Apply(gen, s3, UnlockWrite) == Changed(c, empty);
    RunsOne(gen, s3, UnlockWrite, rest);
    assert Apply(gen, s2, Bump) == s3;
    RunsOne(gen, s2, Bump, [UnlockWrite] + rest);
    assert Apply(gen, s1, Write(c)) == s2;
    RunsOne(gen, s1, Write(c), [Bump] + ([UnlockWrite] + rest));
    assert Apply(gen, StartLoop(before, 0), LockWrite) == s1;
    RunsOne(gen, StartLoop(before, 0), LockWrite, [Write(c)] + ([Bump] + ([UnlockWrite] + rest)));
    run := [LockWrite] + ([Write(c)] + ([Bump] + ([UnlockWrite] + rest)));
  }

  ghost predicate TickOnly<C>(run: seq<Event<C>>) {
    forall e :: e in run ==> e.ReadCounter? || e.ReadConfig? || e.NotGenerated? || e.Processed?
  }

  /** Before the first change nothing is published: ticks alone pass over what the config held at the start. */
  lemma {:induction false} StartIsNotPublished<C>(gen: Generate<C>, config: C, counter: nat, run: seq<Event<C>>)
    requires Run(gen, StartLoop(config, counter), run) && TickOnly(run)
    ensures After(gen, StartLoop(config, counter), run) == StartLoop(config, counter)
    decreases |run|
  {
    if run != [] {
      assert run[0] in run;
      StartIsNotPublished(gen, config, counter, run[1..]);
    }
  }
}
