/** pkg/xds/xds.go: a node's snapshot from the stores, and why a drained cluster's snapshots are consistent. */
module Snapshots {
  import opened Prelude
  import opened Matching
  import opened Sorting
  import opened Routes
  import opened RouteStore
  import opened Convergence
  import opened ListenerBuild
  import opened RouteAudit

  datatype EnvoyListener = EnvoyListener(name: string, chains: seq<FilterChain>, defaultChain: Option<FilterChain>)

  // ---------------------------------------------------------------- references, pruning, consistency

  ghost predicate References(l: EnvoyListener, name: string) {
    || (exists fc :: fc in l.chains && name in fc.rdsNames)
    || (l.defaultChain.Some? && name in l.defaultChain.value.rdsNames)
  }

  ghost predicate Referenced(ls: seq<EnvoyListener>, name: string) {
    exists l :: l in ls && References(l, name)
  }

  /** Every route name some filter chain asks for. */
  method RouteReferences(ls: seq<EnvoyListener>) returns (used: set<string>)
    ensures forall n :: n in used <==> Referenced(ls, n)
  {
    used := {};
    for i := 0 to |ls|
      invariant forall n :: n in used <==> Referenced(ls[..i], n)
    {
      hide References;
      var of := ListenerReferences(ls[i]);
      used := used + of;
      assert ls[..i + 1] == ls[..i] + [ls[i]];
    }
    assert ls[..|ls|] == ls;
  }

  method ListenerReferences(l: EnvoyListener) returns (used: set<string>)
    ensures forall n :: n in used <==> References(l, n)
  {
    used := {};
    for i := 0 to |l.chains|
      invariant forall n :: n in used <==> exists fc :: fc in l.chains[..i] && n in fc.rdsNames
    {
      used := used + set n | n in l.chains[i].rdsNames;
      assert l.chains[..i + 1] == l.chains[..i] + [l.chains[i]];
    }
    assert l.chains[..|l.chains|] == l.chains;
    if l.defaultChain.Some? {
      used := used + set n | n in l.defaultChain.value.rdsNames;
    }
  }

  function Kept(names: seq<string>, used: set<string>): (kept: seq<string>)
    ensures forall n :: n in kept <==> n in names && n in used
  {
    if names == [] then []
    else Kept(names[..|names| - 1], used) + (if names[|names| - 1] in used then [names[|names| - 1]] else [])
  }

  /** Filters in place, over the slice's own memory: the first `k` elements are the ones kept. */
  method PruneUnreferencedRoutes(routes: array<string>, used: set<string>) returns (k: nat)
    modifies routes
    ensures k <= routes.Length && routes[..k] == Kept(old(routes[..]), used)
  {
    k := 0;
    for i := 0 to routes.Length
      invariant k <= i
      invariant routes[..k] == Kept(old(routes[..])[..i], used)
      invariant forall j :: i <= j < routes.Length ==> routes[j] == old(routes[j])
    {
      ghost var kept := routes[..k];
      assert old(routes[..])[..i + 1][..i] == old(routes[..])[..i];
      if routes[i] in used {
        routes[k] := routes[i];
        k := k + 1;
        assert routes[..k] == kept + [old(routes[..])[i]];
      }
    }
    assert old(routes[..])[..routes.Length] == old(routes[..]);
  }

  lemma {:induction false} SubsetOfSameSize<T>(a: set<T>, b: set<T>)
    requires a <= b && |a| == |b|
    ensures a == b
    decreases |a|
  {
    if a != {} {
      var x :| x in a;
      SubsetOfSameSize(a - {x}, b - {x});
      assert a == a - {x} + {x} && b == b - {x} + {x};
    } else {
      assert b == {};
    }
  }

  /** Snapshot.Consistent for one resource type: present and referenced names are the same set. */
  method Consistent(items: set<string>, refs: set<string>) returns (ok: bool)
    ensures ok <==> items == refs
  {
    if |refs| != |items| {
      return false;
    }
    var rest := items;
    while rest != {}
      invariant rest <= items && items - rest <= refs
    {
      var n :| n in rest;
      if n !in refs {
        return false;
      }
      rest := rest - {n};
    }
    SubsetOfSameSize(items, refs);
    return true;
  }

  // ---------------------------------------------------------------- a node's listeners

  /**
   * A Listener object. `declared` says that spec.filter_chains is set, possibly to an empty list;
   * `chains` are the chains it defines itself; `converts` says that the spec converts to an Envoy listener.
   */
  datatype ListenerObject = ListenerObject(
    name: string, home: seq<NodeId>, declared: bool, chains: seq<FilterChain>, quic: bool, converts: bool)

  predicate WellDeclared(o: ListenerObject) {
    o.chains != [] ==> o.declared
  }

  function ChainMatches(chains: seq<FilterChain>): seq<Option<ChainMatch>> {
    seq(|chains|, i requires 0 <= i < |chains| => Some(MatchOf(chains[i])))
  }

  /** The Listener as RDS reads it. */
  function AsListener(o: ListenerObject): Listener {
    Listener(o.name, o.home, ChainMatches(o.chains))
  }

  function AttachedRoutes(list: seq<RouteConfig>, l: string): (rs: seq<Route>)
    ensures forall r :: r in rs <==> exists rc :: rc in list && rc.route == r && l in r.spec.refs
  {
    if list == [] then []
    else AttachedRoutes(list[..|list| - 1], l)
         + (if l in list[|list| - 1].route.spec.refs then [list[|list| - 1].route] else [])
  }

  /** Routes attached to the listener on the node, oldest first. */
  function RoutesFor(store: Store, n: NodeId, l: string): seq<Route> {
    Sort(OlderRoute, AttachedRoutes(At(store, n), l))
  }

  method GetRoutesForNode(store: Store, n: NodeId, l: string) returns (routes: seq<Route>)
    ensures routes == RoutesFor(store, n, l)
  {
    var attached: seq<Route> := [];
    var list := At(store, n);
    for i := 0 to |list|
      invariant attached == AttachedRoutes(list[..i], l)
    {
      assert list[..i + 1][..i] == list[..i];
      if l in list[i].route.spec.refs {
        attached := attached + [list[i].route];
      }
    }
    assert list[..|list|] == list;
    return Sort(OlderRoute, attached);
  }

  /** What LDS stores for the listener on the node when it rebuilds it from the current store. */
  ghost function Rebuilt(store: Store, o: ListenerObject, n: NodeId): Option<EnvoyListener> {
    var routes := RoutesFor(store, n, o.name);
    if !o.converts || (o.chains == [] && routes == []) then None
    else
      var chains := ListenerChains(o.chains, routes, o.quic);
      if chains.Some? then Some(EnvoyListener(o.name, chains.value, None)) else None
  }

  /** The listeners stored on a node are the rebuilt ones. */
  ghost predicate CurrentListeners(store: Store, objects: map<string, ListenerObject>, n: NodeId, ls: seq<EnvoyListener>) {
    && (forall l :: l in ls ==> exists name :: name in objects && n in objects[name].home && Rebuilt(store, objects[name], n) == Some(l))
    && (forall name :: name in objects && n in objects[name].home && Rebuilt(store, objects[name], n).Some? ==>
          Rebuilt(store, objects[name], n).value in ls)
  }

  // ---------------------------------------------------------------- end to end on one node

  /**
   * What a node needs: every stored route has a listener there, its chain builds, listeners convert,
   * and static chains are valid, do not collide with it, and name no route configuration themselves.
   */
  ghost predicate GoodNode(store: Store, objects: map<string, ListenerObject>, n: NodeId) {
    && (forall name :: name in objects ==> objects[name].name == name)
    && (forall rc :: Has(store, n, rc) ==> rc.route.spec.hcm.builds && Attaches(objects, n, rc))
    && (forall name :: name in objects && n in objects[name].home ==> objects[name].converts && StaticsOk(objects[name].chains))
    && (forall name, fc :: name in objects && n in objects[name].home && fc in objects[name].chains ==> fc.rdsNames == [])
    && (forall rc, name :: Has(store, n, rc) && name in rc.route.spec.refs && name in objects && n in objects[name].home ==>
          !StaticOn(AsListener(objects[name]), rc.matcher, {n}))
  }

  ghost predicate Attaches(objects: map<string, ListenerObject>, n: NodeId, rc: RouteConfig) {
    exists l :: l in rc.route.spec.refs && l in objects && n in objects[l].home
  }

  lemma OlderRouteWeakOrder()
    ensures WeakOrder(OlderRoute)
  {
    forall x: Route, y: Route
      ensures OlderRoute(x, y) ==> !OlderRoute(y, x)
    {
      OlderKeyTotal(x.created, x.name, y.created, y.name);
    }
    forall x: Route, y: Route, z: Route | OlderRoute(x, z)
      ensures OlderRoute(x, y) || OlderRoute(y, z)
    {
      OlderKeyTotal(x.created, x.name, y.created, y.name);
      if OlderRoute(y, x) {
        OlderKeyTransitive(y.created, y.name, x.created, x.name, z.created, z.name);
      }
    }
  }

  lemma RoutesForMembers(store: Store, n: NodeId, l: string)
    ensures forall r :: r in RoutesFor(store, n, l) <==> exists rc :: Has(store, n, rc) && rc.route == r && l in r.spec.refs
    ensures Sorted(OlderRoute, RoutesFor(store, n, l))
    ensures multiset(RoutesFor(store, n, l)) == multiset(AttachedRoutes(At(store, n), l))
  {
    hide OlderRoute;
    OlderRouteWeakOrder();
    SortSorts(OlderRoute, AttachedRoutes(At(store, n), l));
    SameElements(RoutesFor(store, n, l), AttachedRoutes(At(store, n), l));
    forall rc
      ensures Has(store, n, rc) <==> rc in At(store, n)
    {
    }
  }

  lemma {:induction false} AttachedUnique(list: seq<RouteConfig>, l: string)
    requires UniqueNames(list)
    ensures UniqueRoutes(AttachedRoutes(list, l))
    decreases |list|
  {
    if list != [] {
      var init, last := list[..|list| - 1], list[|list| - 1];
      AttachedUnique(init, l);
      var rs := AttachedRoutes(init, l);
      forall i | 0 <= i < |rs|
        ensures rs[i].name != last.route.name
      {
        assert rs[i] in rs;
        var rc :| rc in init && rc.route == rs[i];
        var k :| 0 <= k < |init| && init[k] == rc;
        assert list[k] == rc;
      }
    }
  }

  /** A stored entry seen from the listener it attaches to: it builds and no static chain is in its way. */
  lemma AttachedBuilds(store: Store, born: string -> nat, objects: map<string, ListenerObject>, n: NodeId, name: string, rc: RouteConfig)
    requires Uniform(store, born) && GoodNode(store, objects, n)
    requires name in objects && n in objects[name].home && Has(store, n, rc) && name in rc.route.spec.refs
    ensures Builds(rc.route) && rc.matcher == MatcherOf(rc.route)
    ensures StaticsOk(objects[name].chains) && !Collides(rc.matcher, StaticMatchers(objects[name].chains))
  {
    hide Compile, Compare;
    FaithfulEntry(store, born, n, rc);
    forall o | o in StaticMatchers(objects[name].chains)
      ensures Compare(rc.matcher, o) != Duplicate
    {
      var i :| 0 <= i < |objects[name].chains| && StaticMatchers(objects[name].chains)[i] == o;
      StaticHit(objects[name], n, rc.matcher, i);
    }
  }

  lemma StaticHit(o: ListenerObject, n: NodeId, m: Matcher, i: nat)
    requires StaticsCompile(o.chains) && n in o.home && i < |o.chains|
    ensures Compare(m, StaticMatchers(o.chains)[i]) == Duplicate ==> StaticOn(AsListener(o), m, {n})
  {
    hide Compile, Compare;
    assert o.chains[i] in o.chains;
    assert ChainMatches(o.chains)[i] in AsListener(o).chains;
    assert n in AsListener(o).home;
  }

  lemma AttachedApart(store: Store, born: string -> nat, n: NodeId, name: string, x: RouteConfig, y: RouteConfig)
    requires NodeSafe(store) && Has(store, n, x) && Has(store, n, y) && x.route.name != y.route.name
    requires name in x.route.spec.refs && name in y.route.spec.refs
    ensures Compare(x.matcher, y.matcher) != Duplicate
  {
    hide Compare;
    assert NoClash(store[n]);
    assert ShareKey(x.route.spec.refs, y.route.spec.refs);
  }

  /** On a good node a rebuilt listener takes every route attached to it. */
  lemma EveryRouteAccepted(store: Store, born: string -> nat, objects: map<string, ListenerObject>, n: NodeId, name: string)
    requires NodeSafe(store) && Uniform(store, born) && GoodNode(store, objects, n)
    requires name in objects && n in objects[name].home
    ensures StaticsOk(objects[name].chains)
    ensures Accepted(StaticMatchers(objects[name].chains), RoutesFor(store, n, name)) == RoutesFor(store, n, name)
  {
    hide Compare, Builds, Uniform, NodeSafe, GoodNode, Collides, RoutesFor, StaticsOk, StaticMatchers;
    GoodStatics(store, objects, n, name);
    var base, routes := StaticMatchers(objects[name].chains), RoutesFor(store, n, name);
    RoutesForMembers(store, n, name);
    UniqueRoutesFor(store, n, name);
    forall r | r in routes
      ensures Builds(r) && !Collides(MatcherOf(r), base)
    {
      var rc :| Has(store, n, rc) && rc.route == r && name in r.spec.refs;
      AttachedBuilds(store, born, objects, n, name, rc);
    }
    forall i, j | 0 <= i < j < |routes|
      ensures Compare(MatcherOf(routes[j]), MatcherOf(routes[i])) != Duplicate
    {
      assert routes[i] in routes && routes[j] in routes;
      var x :| Has(store, n, x) && x.route == routes[j] && name in routes[j].spec.refs;
      var y :| Has(store, n, y) && y.route == routes[i] && name in routes[i].spec.refs;
      AttachedBuilds(store, born, objects, n, name, x);
      AttachedBuilds(store, born, objects, n, name, y);
      AttachedApart(store, born, n, name, x, y);
    }
    AllAccepted(base, routes);
  }

  lemma GoodStatics(store: Store, objects: map<string, ListenerObject>, n: NodeId, name: string)
    requires GoodNode(store, objects, n) && name in objects && n in objects[name].home
    ensures StaticsOk(objects[name].chains) && StaticsCompile(objects[name].chains)
    ensures objects[name].name == name && objects[name].converts
    ensures forall fc :: fc in objects[name].chains ==> fc.rdsNames == []
  {
    hide Compile, Separate, StaticOn;
  }

  lemma UniqueRoutesFor(store: Store, n: NodeId, name: string)
    requires NodeSafe(store)
    ensures UniqueRoutes(RoutesFor(store, n, name))
  {
    hide NoClash;
    RoutesForMembers(store, n, name);
    AttachedUnique(At(store, n), name);
    PermutedUnique(AttachedRoutes(At(store, n), name), RoutesFor(store, n, name));
  }

  lemma ChainsReference(statics: seq<FilterChain>, routes: seq<Route>, quic: bool, x: string)
    requires forall fc :: fc in statics ==> fc.rdsNames == []
    ensures (exists fc :: fc in statics + Chains(routes, quic) && x in fc.rdsNames) <==> exists r :: r in routes && r.name == x
  {
    hide TransportFor;
    var chains := statics + Chains(routes, quic);
    if r :| r in routes && r.name == x {
      var i :| 0 <= i < |routes| && routes[i] == r;
      assert chains[|statics| + i] == RouteChain(routes[i], quic);
      assert chains[|statics| + i] in chains && x in chains[|statics| + i].rdsNames;
    }
    if fc :| fc in chains && x in fc.rdsNames {
      var k :| 0 <= k < |chains| && chains[k] == fc;
      assert k < |statics| ==> fc in statics;
      assert fc == RouteChain(routes[k - |statics|], quic);
      assert routes[k - |statics|] in routes;
    }
  }

  /** On a good node the rebuilt listener holds its own chains and one for every attached route. */
  lemma RebuiltIs(store: Store, born: string -> nat, objects: map<string, ListenerObject>, n: NodeId, name: string)
    requires NodeSafe(store) && Uniform(store, born) && GoodNode(store, objects, n)
    requires name in objects && n in objects[name].home
    ensures var routes, statics := RoutesFor(store, n, name), objects[name].chains;
      Rebuilt(store, objects[name], n) ==
        if statics == [] && routes == [] then None
        else Some(EnvoyListener(name, statics + Chains(routes, objects[name].quic), None))
  {
    hide Uniform, NodeSafe, GoodNode, RoutesFor, StaticsOk, StaticMatchers, Accepted, Chains;
    EveryRouteAccepted(store, born, objects, n, name);
    GoodStatics(store, objects, n, name);
  }

  /** Routes attached to the listener on the node. */
  ghost predicate Attached(store: Store, n: NodeId, name: string, r: Route) {
    exists rc :: Has(store, n, rc) && rc.route == r && name in r.spec.refs
  }

  /**
   * Wherever a listener can be rebuilt, its chains are its own followed by one per accepted route that
   * carries that route; the accepted ones are attached, and no route has two chains.
   */
  lemma RebuiltCarries(store: Store, o: ListenerObject, n: NodeId)
    requires NodeSafe(store) && Rebuilt(store, o, n).Some?
    ensures StaticsCompile(o.chains)
    ensures var accepted := Accepted(StaticMatchers(o.chains), RoutesFor(store, n, o.name));
      && AddsCarriers(Rebuilt(store, o, n).value.chains, o.chains, accepted, o.quic)
      && (forall r :: r in accepted ==> Attached(store, n, o.name, r))
      && UniqueRoutes(accepted)
  {
    hide Accepted, StaticMatchers, Separate, AddsCarriers, RoutesFor, NodeSafe, Compile;
    var routes := RoutesFor(store, n, o.name);
    ChainsCarry(o.chains, routes, o.quic);
    RoutesForMembers(store, n, o.name);
    UniqueRoutesFor(store, n, o.name);
    AcceptedUnique(StaticMatchers(o.chains), routes);
  }

  /** Some chain from position `own` on carries the route. */
  ghost predicate CarriedFrom(chains: seq<FilterChain>, own: nat, r: Route, quic: bool) {
    exists i :: own <= i < |chains| && Carries(chains[i], r, quic)
  }

  /** The chain carries a route attached to the listener on the node. */
  ghost predicate CarriesAttached(store: Store, n: NodeId, name: string, c: FilterChain, quic: bool) {
    exists r :: Attached(store, n, name, r) && Carries(c, r, quic)
  }

  lemma CarriesThis(store: Store, n: NodeId, name: string, c: FilterChain, quic: bool, r: Route)
    requires Attached(store, n, name, r) && Carries(c, r, quic)
    ensures CarriesAttached(store, n, name, c, quic)
  {
  }

  lemma CarriersMatch(chains: seq<FilterChain>, statics: seq<FilterChain>, routes: seq<Route>, quic: bool)
    requires AddsCarriers(chains, statics, routes, quic) && UniqueRoutes(routes)
    ensures |chains| == |statics| + |routes| && chains[..|statics|] == statics
    ensures forall i :: |statics| <= i < |chains| ==> Carries(chains[i], routes[i - |statics|], quic)
    ensures forall r :: r in routes ==> CarriedFrom(chains, |statics|, r, quic)
    ensures forall i, j :: |statics| <= i < j < |chains| ==> chains[i].rdsNames != chains[j].rdsNames
  {
    var own := |statics|;
    forall i | own <= i < |chains|
      ensures Carries(chains[i], routes[i - own], quic)
    {
      assert Carries(chains[own + (i - own)], routes[i - own], quic);
    }
    forall r | r in routes
      ensures CarriedFrom(chains, own, r, quic)
    {
      var k :| 0 <= k < |routes| && routes[k] == r;
      assert Carries(chains[own + k], r, quic);
    }
  }

  /**
   * On a good node every route attached to the listener has exactly one chain after the listener's own,
   * which carries it on the listener's kind of transport, and every such chain carries one of them.
   */
  lemma OneChainEach(store: Store, born: string -> nat, objects: map<string, ListenerObject>, n: NodeId, name: string)
    requires NodeSafe(store) && Uniform(store, born) && GoodNode(store, objects, n)
    requires name in objects && n in objects[name].home && Rebuilt(store, objects[name], n).Some?
    ensures var l, own, quic := Rebuilt(store, objects[name], n).value, |objects[name].chains|, objects[name].quic;
      && |l.chains| >= own && l.chains[..own] == objects[name].chains
      && (forall i :: own <= i < |l.chains| ==> CarriesAttached(store, n, name, l.chains[i], quic))
      && (forall r :: Attached(store, n, name, r) ==> CarriedFrom(l.chains, own, r, quic))
      && (forall i, j :: own <= i < j < |l.chains| ==> l.chains[i].rdsNames != l.chains[j].rdsNames)
  {
    hide *;
    var l, own, quic, routes := Rebuilt(store, objects[name], n).value, |objects[name].chains|, objects[name].quic, RoutesFor(store, n, name);
    GoodStatics(store, objects, n, name);
    RebuiltCarries(store, objects[name], n);
    EveryRouteAccepted(store, born, objects, n, name);
    CarriersMatch(l.chains, objects[name].chains, routes, quic);
    AttachedAre(store, n, name);
    forall i | own <= i < |l.chains|
      ensures CarriesAttached(store, n, name, l.chains[i], quic)
    {
      assert routes[i - own] in routes;
      CarriesThis(store, n, name, l.chains[i], quic, routes[i - own]);
    }
  }

  lemma AttachedAre(store: Store, n: NodeId, name: string)
    ensures forall r :: r in RoutesFor(store, n, name) <==> Attached(store, n, name, r)
  {
    hide RoutesFor;
    RoutesForMembers(store, n, name);
  }

  lemma {:induction false} AcceptedUnique(placed: seq<Matcher>, routes: seq<Route>)
    requires UniqueRoutes(routes)
    ensures UniqueRoutes(Accepted(placed, routes))
    decreases |routes|
  {
    hide Collides, Matchers;
    if routes != [] {
      var init, last := routes[..|routes| - 1], routes[|routes| - 1];
      AcceptedUnique(placed, init);
      var before := Accepted(placed, init);
      forall i | 0 <= i < |before|
        ensures before[i].name != last.name
      {
        assert before[i] in before && before[i] in init;
      }
    }
  }

  /** A rebuilt listener refers to exactly the routes attached to it. */
  lemma RebuiltReferences(store: Store, born: string -> nat, objects: map<string, ListenerObject>, n: NodeId, name: string, x: string)
    requires NodeSafe(store) && Uniform(store, born) && GoodNode(store, objects, n)
    requires name in objects && n in objects[name].home
    ensures (Rebuilt(store, objects[name], n).Some? && References(Rebuilt(store, objects[name], n).value, x))
      <==> exists rc :: Has(store, n, rc) && rc.route.name == x && name in rc.route.spec.refs
  {
    hide Uniform, NodeSafe, GoodNode, RoutesFor, Rebuilt, Chains;
    RebuiltIs(store, born, objects, n, name);
    GoodStatics(store, objects, n, name);
    RoutesForMembers(store, n, name);
    ChainsReference(objects[name].chains, RoutesFor(store, n, name), objects[name].quic, x);
    if rc :| Has(store, n, rc) && rc.route.name == x && name in rc.route.spec.refs {
      assert rc.route in RoutesFor(store, n, name);
    }
  }

  /** The listeners of a good node ask for exactly the routes stored on it. */
  lemma ReferencedIffStored(store: Store, born: string -> nat, objects: map<string, ListenerObject>, n: NodeId, ls: seq<EnvoyListener>, x: string)
    requires NodeSafe(store) && Uniform(store, born) && GoodNode(store, objects, n)
    requires CurrentListeners(store, objects, n, ls)
    ensures Referenced(ls, x) <==> StoredAt(store, n, x)
  {
    hide Uniform, NodeSafe, Rebuilt, References, StaticsOk, StaticOn;
    if Referenced(ls, x) {
      var l :| l in ls && References(l, x);
      var name :| name in objects && n in objects[name].home && Rebuilt(store, objects[name], n) == Some(l);
      RebuiltReferences(store, born, objects, n, name, x);
    }
    if StoredAt(store, n, x) {
      var rc :| Has(store, n, rc) && rc.route.name == x;
      assert Attaches(objects, n, rc);
      var name :| name in rc.route.spec.refs && name in objects && n in objects[name].home;
      RebuiltReferences(store, born, objects, n, name, x);
      assert Rebuilt(store, objects[name], n).value in ls;
    }
  }

  function NamesAt(list: seq<RouteConfig>): seq<string> {
    seq(|list|, i requires 0 <= i < |list| => list[i].route.name)
  }

  lemma {:induction false} KeptAll(names: seq<string>, used: set<string>)
    requires forall x :: x in names ==> x in used
    ensures Kept(names, used) == names
    decreases |names|
  {
    if names != [] {
      var init, last := names[..|names| - 1], names[|names| - 1];
      assert names == init + [last];
      assert last in names && forall x :: x in init ==> x in names;
      KeptAll(init, used);
    }
  }

  /**
   * On a good node whose listeners are built from the current store, pruning drops no route and
   * the route half of the consistency check succeeds.
   */
  lemma GoodNodeConsistent(store: Store, born: string -> nat, objects: map<string, ListenerObject>, n: NodeId, ls: seq<EnvoyListener>, used: set<string>)
    requires NodeSafe(store) && Uniform(store, born) && GoodNode(store, objects, n)
    requires CurrentListeners(store, objects, n, ls)
    requires forall x :: x in used <==> Referenced(ls, x)
    ensures Kept(NamesAt(At(store, n)), used) == NamesAt(At(store, n))
    ensures (set x | x in Kept(NamesAt(At(store, n)), used)) == used
  {
    hide Uniform, NodeSafe, GoodNode, CurrentListeners, Referenced;
    var names := NamesAt(At(store, n));
    forall x
      ensures x in used <==> x in names
    {
      ReferencedIffStored(store, born, objects, n, ls, x);
      if StoredAt(store, n, x) {
        var rc :| Has(store, n, rc) && rc.route.name == x;
        var i :| 0 <= i < |At(store, n)| && At(store, n)[i] == rc;
        assert names[i] == x;
      }
      if x in names {
        var i :| 0 <= i < |names| && names[i] == x;
        assert Has(store, n, At(store, n)[i]);
      }
    }
    KeptAll(names, used);
  }

  // ---------------------------------------------------------------- from a drained queue

  /** The Listener objects are the ones RDS decided by, each valid by itself. */
  ghost predicate ListenersValid(w: World, objects: map<string, ListenerObject>) {
    && w.listeners.Keys == objects.Keys
    && (forall name :: name in objects ==> objects[name].name == name && w.listeners[name] == AsListener(objects[name]))
    && (forall name :: name in objects ==> objects[name].converts && StaticsOk(objects[name].chains))
    && (forall name, fc :: name in objects && fc in objects[name].chains ==> fc.rdsNames == [])
  }

  lemma DrainedNodeIsGood(w: World, born: string -> nat, s: State, objects: map<string, ListenerObject>, n: NodeId)
    requires Inv(w, born, s) && s.queue == {} && NoBrokenStored(w, s.store)
    requires ListenersValid(w, objects)
    requires forall name :: name in w.routes ==> w.routes[name].spec.hcm.builds
    ensures GoodNode(s.store, objects, n)
  {
    hide Uniform, NodeSafe, StaticsOk, Fresh, Covered, LosersYounger, StaticOn, NoBrokenStored;
    forall rc | Has(s.store, n, rc)
      ensures rc.route.spec.hcm.builds && Attaches(objects, n, rc)
      ensures forall name :: name in rc.route.spec.refs && name in objects && n in objects[name].home ==>
        !StaticOn(AsListener(objects[name]), rc.matcher, {n})
    {
      DrainedEntryFits(w, born, s, objects, n, rc);
    }
  }

  lemma DrainedEntryFits(w: World, born: string -> nat, s: State, objects: map<string, ListenerObject>, n: NodeId, rc: RouteConfig)
    requires Inv(w, born, s) && s.queue == {} && NoBrokenStored(w, s.store) && Has(s.store, n, rc)
    requires ListenersValid(w, objects)
    ensures rc.route.name in w.routes && rc.route == w.routes[rc.route.name] && Attaches(objects, n, rc)
    ensures forall name :: name in rc.route.spec.refs && name in objects && n in objects[name].home ==>
      !StaticOn(AsListener(objects[name]), rc.matcher, {n})
  {
    hide Uniform, NodeSafe, StaticsOk, Fresh, Covered, LosersYounger, StaticDuplicate, HostedNodes, Compile;
    var name := rc.route.name;
    StoredIsPlaced(w, born, s, name);
    FaithfulEntry(s.store, born, n, rc);
    var r := w.routes[name];
    assert n in RouteNodes(w.listeners, r) && Hosted(w.listeners, r.spec.refs, n);
    var l :| l in r.spec.refs && l in w.listeners && n in w.listeners[l].home;
    assert Attaches(objects, n, rc);
    forall k | k in r.spec.refs && k in objects && n in objects[k].home
      ensures !StaticOn(AsListener(objects[k]), rc.matcher, {n})
    {
      StaticConflictCovers(w, r, k, n, rc.matcher);
    }
  }

  /** No conflict with a static chain on any of the route's nodes means none on this one. */
  lemma StaticConflictCovers(w: World, r: Route, l: string, n: NodeId, m: Matcher)
    requires l in r.spec.refs && l in w.listeners && n in RouteNodes(w.listeners, r)
    requires !StaticConflict(w.listeners, r.spec.refs, m, NodeSet(RouteNodes(w.listeners, r)))
    ensures !StaticOn(w.listeners[l], m, {n})
  {
    hide StaticDuplicate, HostedNodes;
    assert !StaticOn(w.listeners[l], m, NodeSet(RouteNodes(w.listeners, r)));
    assert n in NodeSet(RouteNodes(w.listeners, r));
  }

  /**
   * End to end: after any run whose queue has drained, with every listener rebuilt from the
   * current store, each node's listeners ask for exactly the routes served there.
   */
  lemma DrainedSnapshotConsistent(w: World, born: string -> nat, s: State, objects: map<string, ListenerObject>, n: NodeId,
                                  ls: seq<EnvoyListener>, used: set<string>)
    requires Inv(w, born, s) && s.queue == {} && NoBrokenStored(w, s.store)
    requires ListenersValid(w, objects)
    requires forall name :: name in w.routes ==> w.routes[name].spec.hcm.builds
    requires CurrentListeners(s.store, objects, n, ls)
    requires forall x :: x in used <==> Referenced(ls, x)
    ensures Kept(NamesAt(At(s.store, n)), used) == NamesAt(At(s.store, n))
    ensures (set x | x in NamesAt(At(s.store, n))) == used
  {
    hide Uniform, NodeSafe, ListenersValid, CurrentListeners, Referenced, Fresh, Covered, LosersYounger, GoodNode, NoBrokenStored;
    DrainedNodeIsGood(w, born, s, objects, n);
    GoodNodeConsistent(s.store, born, objects, n, ls, used);
  }
}
