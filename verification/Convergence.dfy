/**
 * The RDS work queue drains, in any order, to the placement an oldest-first greedy pass computes:
 * invariants of the incremental algorithm over reconciles and over edits of the cluster.
 */
module Convergence {
  import opened Prelude
  import opened Matching
  import opened Routes
  import opened RouteStore

  /** The API objects: routes by name and listeners by name. */
  datatype World = World(routes: map<string, Route>, listeners: map<string, Listener>)

  /** Controller state: served routes, remembered losers, names waiting in the work queue. */
  datatype State = State(store: Store, losers: Losers, queue: set<string>)

  /** Objects carry their key as name, and a name keeps its creation time. */
  ghost predicate WellNamed(w: World, born: string -> nat) {
    forall n :: n in w.routes ==> w.routes[n].name == n && w.routes[n].created == born(n)
  }

  function Lookup(w: World, name: string): Option<Route> {
    if name in w.routes then Some(w.routes[name]) else None
  }

  // ---------------------------------------------------------------- the greedy placement

  /** A route whose spec cannot be compiled; it is left as it was last served. */
  predicate Broken(w: World, name: string) {
    name in w.routes && w.routes[name].spec.refs != [] && !Compiles(w.routes[name].spec)
  }

  /** Could the route be served if it were alone? */
  predicate Eligible(w: World, name: string) {
    name in w.routes &&
    var r := w.routes[name];
    && r.spec.refs != []
    && Compiles(r.spec)
    && RouteNodes(w.listeners, r) != []
    && !StaticConflict(w.listeners, r.spec.refs, Compile(r.spec.chainMatch).value, NodeSet(RouteNodes(w.listeners, r)))
  }

  ghost predicate ShareNode(w: World, a: Route, b: Route) {
    exists n :: n in RouteNodes(w.listeners, a) && n in RouteNodes(w.listeners, b)
  }

  /** Older eligible routes on a shared node that clash with the named one. */
  ghost function Rivals(w: World, born: string -> nat, name: string): set<string>
    requires Eligible(w, name)
  {
    set m | m in w.routes && Older(born, m, name) && Eligible(w, m)
            && ShareNode(w, w.routes[m], w.routes[name])
            && Clash(w.routes[m].spec, w.routes[name].spec)
  }

  ghost function OlderThan(w: World, born: string -> nat, name: string): set<string> {
    set m | m in w.routes && Older(born, m, name)
  }

  lemma OlderThanShrinks(w: World, born: string -> nat, m: string, name: string)
    requires m in w.routes && Older(born, m, name)
    ensures OlderThan(w, born, m) < OlderThan(w, born, name)
  {
    OlderKeyTotal(born(m), m, born(m), m);
    forall x | x in OlderThan(w, born, m)
      ensures Older(born, x, name)
    {
      OlderKeyTransitive(born(x), x, born(m), m, born(name), name);
    }
    assert m in OlderThan(w, born, name) && m !in OlderThan(w, born, m);
  }

  /** Oldest first: a route is served unless an older served route clashes with it on a shared node. */
  ghost predicate Greedy(w: World, born: string -> nat, name: string)
    decreases OlderThan(w, born, name)
  {
    Eligible(w, name) &&
    forall m :: m in Rivals(w, born, name) ==>
      (OlderThanShrinks(w, born, m, name); !Greedy(w, born, m))
  }

  // ---------------------------------------------------------------- the invariant

  /** The named route is stored with its current spec on exactly its nodes. */
  ghost predicate Placed(w: World, store: Store, name: string) {
    name in w.routes &&
    forall n, rc :: Has(store, n, rc) && rc.route.name == name ==>
      rc.route == w.routes[name] && n in RouteNodes(w.listeners, rc.route)
  }

  ghost predicate Everywhere(w: World, store: Store, name: string) {
    name in w.routes &&
    forall n :: n in RouteNodes(w.listeners, w.routes[name]) ==>
      StoredAt(store, n, name)
  }

  /** A stored route that is not queued is either broken or served as its spec says. */
  ghost predicate Fresh(w: World, s: State, name: string) {
    Stored(s.store, name) && name !in s.queue ==>
      Broken(w, name) || (Eligible(w, name) && Placed(w, s.store, name) && Everywhere(w, s.store, name))
  }

  /** The named winner is stored on one of the route's nodes and its chain clashes with the route's. */
  ghost predicate Blocks(w: World, store: Store, winner: string, r: Route)
    requires Compiles(r.spec)
  {
    exists n, rc :: && Has(store, n, rc) && rc.route.name == winner && n in RouteNodes(w.listeners, r)
                    && RouteConflict(r.spec, rc.route.spec, Compile(r.spec.chainMatch).value, rc.matcher) != Apart
  }

  /** The named winner remembers the loser, and still blocks it or is about to be reconciled. */
  ghost predicate Remembers(w: World, s: State, winner: string, loser: string)
    requires Eligible(w, loser)
  {
    loser in LosersOf(s.losers, winner) && (winner in s.queue || Blocks(w, s.store, winner, w.routes[loser]))
  }

  /** No loser is forgotten. */
  ghost predicate Covered(w: World, s: State, name: string) {
    Eligible(w, name) && !Stored(s.store, name) && name !in s.queue ==>
      exists winner :: Remembers(w, s, winner, name)
  }

  ghost predicate LosersYounger(losers: Losers, born: string -> nat) {
    forall winner, loser :: loser in LosersOf(losers, winner) ==> Older(born, winner, loser)
  }

  ghost predicate Inv(w: World, born: string -> nat, s: State) {
    && WellNamed(w, born)
    && NodeSafe(s.store)
    && Uniform(s.store, born)
    && LosersYounger(s.losers, born)
    && (forall n :: Fresh(w, s, n))
    && (forall n :: Covered(w, s, n))
  }

  // ---------------------------------------------------------------- one reconcile

  function Step(w: World, s: State, name: string): State {
    var d := Decide(s.store, w.listeners, Lookup(w, name));
    State(NextStore(s.store, name, d), NextLosers(s.losers, name, d),
          s.queue - {name} + Requeued(s.losers, name, d))
  }

  /** Is the entry on the node once the decision about the named route has been carried out? */
  ghost predicate Left(store: Store, name: string, d: Decision, n: NodeId, rc: RouteConfig) {
    match d
    case Retain => Has(store, n, rc)
    case Withdraw => Has(store, n, rc) && rc.route.name != name
    case Yield(_) => Has(store, n, rc) && rc.route.name != name
    case Claim(entry, nodes, evicted) =>
      (n in nodes && rc == entry) || (Has(store, n, rc) && rc.route.name != name && rc.route.name !in evicted)
  }

  lemma ClaimLeaves(store: Store, name: string, entry: RouteConfig, nodes: seq<NodeId>, evicted: set<string>)
    requires NamesOnce(store)
    requires entry.route.name == name && name !in evicted
    ensures NamesOnce(NextStore(store, name, Claim(entry, nodes, evicted)))
    ensures forall n, rc :: Has(NextStore(store, name, Claim(entry, nodes, evicted)), n, rc) <==>
      Left(store, name, Claim(entry, nodes, evicted), n, rc)
  {
    hide NamesOnce, Put;
    var others := Remove(store, {name}, store.Keys - NodeSet(nodes));
    RemoveNamesOnce(store, {name}, store.Keys - NodeSet(nodes));
    var cleared := Remove(others, evicted, store.Keys);
    RemoveNamesOnce(others, evicted, store.Keys);
    PutHas(cleared, nodes, entry);
    assert others.Keys == store.Keys;
    forall n, rc
      ensures Has(Put(cleared, nodes, entry), n, rc) <==> Left(store, name, Claim(entry, nodes, evicted), n, rc)
    {
      assert n in NodeSet(nodes) <==> n in nodes;
      assert Has(others, n, rc) <==> Has(store, n, rc) && !(n !in nodes && rc.route.name == name);
      assert Has(cleared, n, rc) <==> Has(others, n, rc) && rc.route.name !in evicted;
    }
  }

  lemma NextStoreHas(store: Store, name: string, d: Decision)
    requires NamesOnce(store)
    requires d.Claim? ==> d.entry.route.name == name && name !in d.evicted
    ensures NamesOnce(NextStore(store, name, d))
    ensures forall n, rc :: Has(NextStore(store, name, d), n, rc) <==> Left(store, name, d, n, rc)
  {
    if d.Claim? {
      ClaimLeaves(store, name, d.entry, d.nodes, d.evicted);
    } else if !d.Retain? {
      RemoveNamesOnce(store, {name}, store.Keys);
    }
  }

  /** A decision evicts only younger routes and yields only to older ones. */
  lemma DecisionAges(store: Store, listeners: map<string, Listener>, r: Route, born: string -> nat)
    requires Uniform(store, born) && r.created == born(r.name)
    ensures forall x :: x in Evicted(Decide(store, listeners, Some(r))) ==> Older(born, r.name, x)
    ensures Decide(store, listeners, Some(r)).Yield? ==>
      forall x :: x in Decide(store, listeners, Some(r)).winners ==> Older(born, x, r.name)
  {
    hide RouteConflict, StaticConflict, RouteNodes;
    var d := Decide(store, listeners, Some(r));
    if d.Claim? {
      var conflicts := RouteConflicts(store, listeners, r);
      forall x | x in d.evicted
        ensures Older(born, r.name, x)
      {
        var rc :| rc in conflicts && rc.route.name == x;
        var n :| Has(store, n, rc);
        OlderKeyTotal(born(r.name), r.name, born(x), x);
        assert OlderRoute(rc.route, r) ==> rc.route.name in OlderNames(conflicts, r);
      }
    }
    if d.Yield? {
      var conflicts := RouteConflicts(store, listeners, r);
      forall x | x in d.winners
        ensures Older(born, x, r.name)
      {
        var rc :| rc in conflicts && OlderRoute(rc.route, r) && rc.route.name == x;
        var n :| Has(store, n, rc);
      }
    }
  }

  /** After a claim the claimed route clashes with nothing that is left on its nodes. */
  lemma ClaimSafe(store: Store, listeners: map<string, Listener>, r: Route)
    requires NodeSafe(store)
    requires Decide(store, listeners, Some(r)).Claim?
    ensures NodeSafe(NextStore(store, r.name, Decide(store, listeners, Some(r))))
  {
    hide StaticConflict, RouteNodes, RouteConflict;
    var d := Decide(store, listeners, Some(r));
    var next := NextStore(store, r.name, d);
    NextStoreHas(store, r.name, d);
    forall n, x: RouteConfig, y: RouteConfig | n in next && x in next[n] && y in next[n] && x.route.name != y.route.name
      ensures RouteConflict(x.route.spec, y.route.spec, x.matcher, y.matcher) == Apart
    {
      assert Left(store, r.name, d, n, x) by { assert Has(next, n, x); }
      assert Left(store, r.name, d, n, y) by { assert Has(next, n, y); }
      if x == d.entry {
        UnconflictedAfterClaim(store, listeners, r, n, y);
      } else if y == d.entry {
        UnconflictedAfterClaim(store, listeners, r, n, x);
        RouteConflictSymmetric(x.route.spec, y.route.spec, x.matcher, y.matcher);
      }
    }
  }

  lemma UnconflictedAfterClaim(store: Store, listeners: map<string, Listener>, r: Route, n: NodeId, rc: RouteConfig)
    requires Decide(store, listeners, Some(r)).Claim?
    requires n in Decide(store, listeners, Some(r)).nodes
    requires Has(store, n, rc) && rc.route.name != r.name && rc.route.name !in Decide(store, listeners, Some(r)).evicted
    ensures RouteConflict(r.spec, rc.route.spec, Decide(store, listeners, Some(r)).entry.matcher, rc.matcher) == Apart
  {
    hide StaticConflict, RouteNodes, RouteConflict;
    var conflicts := RouteConflicts(store, listeners, r);
    assert rc in conflicts ==> rc.route.name in NamesOf(conflicts);
  }

  lemma NextUniform(store: Store, born: string -> nat, name: string, d: Decision)
    requires NamesOnce(store) && Uniform(store, born)
    requires d.Claim? ==>
      Faithful(d.entry) && d.entry.route.name == name && d.entry.route.created == born(name) && name !in d.evicted
    ensures Uniform(NextStore(store, name, d), born)
  {
    hide Faithful, NextStore;
    NextStoreHas(store, name, d);
    var next := NextStore(store, name, d);
    forall n, rc | Has(next, n, rc)
      ensures Faithful(rc) && rc.route.created == born(rc.route.name)
    {
      assert Left(store, name, d, n, rc);
    }
    forall n, rc, n', rc' | Has(next, n, rc) && Has(next, n', rc') && rc.route.name == rc'.route.name
      ensures rc == rc'
    {
      assert Left(store, name, d, n, rc) && Left(store, name, d, n', rc');
    }
  }

  lemma NextNoClash(store: Store, name: string, d: Decision)
    requires NodeSafe(store) && !d.Claim?
    ensures NodeSafe(NextStore(store, name, d))
  {
    hide RouteConflict;
    NextStoreHas(store, name, d);
    var next := NextStore(store, name, d);
    forall n | n in next
      ensures NoClash(next[n])
    {
      forall x: RouteConfig | x in next[n]
        ensures x in store[n]
      {
        assert Has(next, n, x);
      }
    }
  }

  /** A reconcile keeps every node free of clashes and every copy of a route the same. */
  lemma StepStoreOk(w: World, born: string -> nat, s: State, name: string)
    requires WellNamed(w, born) && NodeSafe(s.store) && Uniform(s.store, born)
    ensures NodeSafe(Step(w, s, name).store) && Uniform(Step(w, s, name).store, born)
    ensures forall n, rc :: Has(Step(w, s, name).store, n, rc) <==>
      Left(s.store, name, Decide(s.store, w.listeners, Lookup(w, name)), n, rc)
  {
    hide StaticConflict, RouteNodes, RouteConflict, NextStore, NoClash, UniqueNames, Uniform;
    var d := Decide(s.store, w.listeners, Lookup(w, name));
    if d.Claim? {
      ClaimSafe(s.store, w.listeners, w.routes[name]);
    } else {
      NextNoClash(s.store, name, d);
    }
    NextStoreHas(s.store, name, d);
    NextUniform(s.store, born, name, d);
  }

  /** Everything a reconcile enqueues is strictly younger than the reconciled route. */
  lemma StepLosersOk(w: World, born: string -> nat, s: State, name: string)
    requires WellNamed(w, born) && Uniform(s.store, born) && LosersYounger(s.losers, born)
    ensures LosersYounger(Step(w, s, name).losers, born)
    ensures forall x :: x in Requeued(s.losers, name, Decide(s.store, w.listeners, Lookup(w, name))) ==>
      Older(born, name, x)
  {
    hide Decide, NextStore, Uniform, LexLess;
    var d := Decide(s.store, w.listeners, Lookup(w, name));
    DecisionAgesByName(w, born, s.store, name);
    OlderKeyTotal(born(name), name, born(name), name);
  }

  lemma DecisionAgesByName(w: World, born: string -> nat, store: Store, name: string)
    requires WellNamed(w, born) && Uniform(store, born)
    ensures forall x :: x in Evicted(Decide(store, w.listeners, Lookup(w, name))) ==> Older(born, name, x)
    ensures Decide(store, w.listeners, Lookup(w, name)).Yield? ==>
      forall x :: x in Decide(store, w.listeners, Lookup(w, name)).winners ==> Older(born, x, name)
  {
    hide RouteConflict, StaticConflict, RouteNodes, Uniform, LexLess;
    if name in w.routes {
      DecisionAges(store, w.listeners, w.routes[name], born);
    }
  }

  // ---------------------------------------------------------------- the invariant survives a reconcile

  /** Another route that is neither enqueued nor evicted keeps its entries. */
  lemma UntouchedStays(w: World, born: string -> nat, s: State, name: string, x: string)
    requires WellNamed(w, born) && NodeSafe(s.store) && Uniform(s.store, born)
    requires x != name && x !in Step(w, s, name).queue
    ensures forall n, rc: RouteConfig | rc.route.name == x :: Has(Step(w, s, name).store, n, rc) <==> Has(s.store, n, rc)
  {
    hide Decide, NextStore, Uniform, NodeSafe, RouteConflict, LexLess;
    StepStoreOk(w, born, s, name);
    var d := Decide(s.store, w.listeners, Lookup(w, name));
    assert x !in Evicted(d);
    ClaimsOwnEntry(s.store, w, born, name);
  }

  lemma ClaimsOwnEntry(store: Store, w: World, born: string -> nat, name: string)
    requires WellNamed(w, born)
    ensures var d := Decide(store, w.listeners, Lookup(w, name));
      d.Claim? ==> Eligible(w, name) && d.entry.route == w.routes[name] && d.entry.route.name == name && d.nodes == RouteNodes(w.listeners, w.routes[name])
  {
    hide RouteConflict, StaticConflict, RouteNodes, Compiles;
  }

  lemma StepFreshOther(w: World, born: string -> nat, s: State, name: string, x: string)
    requires Inv(w, born, s) && x != name
    ensures Fresh(w, Step(w, s, name), x)
  {
    hide Decide, NextStore, Uniform, NodeSafe, Eligible, RouteNodes, LexLess;
    var s' := Step(w, s, name);
    if Stored(s'.store, x) && x !in s'.queue {
      UntouchedStays(w, born, s, name, x);
      assert Fresh(w, s, x);
    }
  }

  lemma StepFreshSelf(w: World, born: string -> nat, s: State, name: string)
    requires Inv(w, born, s)
    ensures Fresh(w, Step(w, s, name), name)
  {
    hide NextStore, Uniform, NodeSafe, StaticConflict, RouteNodes, LexLess, RouteConflict;
    var s' := Step(w, s, name);
    StepStoreOk(w, born, s, name);
    ClaimsOwnEntry(s.store, w, born, name);
    var d := Decide(s.store, w.listeners, Lookup(w, name));
    if d.Claim? {
      forall n | n in RouteNodes(w.listeners, w.routes[name])
        ensures StoredAt(s'.store, n, name)
      {
        assert Has(s'.store, n, d.entry);
      }
    }
  }

  lemma StepCoveredOther(w: World, born: string -> nat, s: State, name: string, x: string)
    requires Inv(w, born, s) && x != name
    ensures Covered(w, Step(w, s, name), x)
  {
    hide Decide, Uniform, NodeSafe, StaticConflict, RouteNodes, LexLess, RouteConflict, Compiles, NextStore;
    var s' := Step(w, s, name);
    if Eligible(w, x) && !Stored(s'.store, x) && x !in s'.queue {
      UntouchedStays(w, born, s, name, x);
      var d := Decide(s.store, w.listeners, Lookup(w, name));
      assert Covered(w, s, x);
      assert x !in s.queue;
      var winner :| Remembers(w, s, winner, x);
      assert winner != name;
      assert x in LosersOf(s'.losers, winner);
      if winner !in s'.queue {
        assert winner !in s.queue;
        UntouchedStays(w, born, s, name, winner);
        BlocksStays(w, s.store, s'.store, winner, w.routes[x]);
      }
      assert Remembers(w, s', winner, x);
    }
  }

  lemma BlocksStays(w: World, store: Store, store': Store, winner: string, r: Route)
    requires Compiles(r.spec) && Blocks(w, store, winner, r)
    requires forall n, rc: RouteConfig | rc.route.name == winner :: Has(store', n, rc) <==> Has(store, n, rc)
    ensures Blocks(w, store', winner, r)
  {
    hide RouteNodes, RouteConflict, Compile;
    var n, rc :| && Has(store, n, rc) && rc.route.name == winner && n in RouteNodes(w.listeners, r)
                 && RouteConflict(r.spec, rc.route.spec, Compile(r.spec.chainMatch).value, rc.matcher) != Apart;
    assert Has(store', n, rc);
  }

  /** An eligible route is either claimed or yields, and then to routes that block it where they stand. */
  lemma EligibleDecides(w: World, born: string -> nat, store: Store, name: string)
    requires WellNamed(w, born) && Eligible(w, name)
    ensures var d := Decide(store, w.listeners, Lookup(w, name));
      d.Claim? || (d.Yield? && exists winner :: winner in d.winners && winner != name && Blocks(w, store, winner, w.routes[name]))
  {
    hide RouteNodes, LexLess, RouteConflict, StaticConflict;
    var d := Decide(store, w.listeners, Lookup(w, name));
    var r := w.routes[name];
    if !d.Claim? {
      var winner :| winner in d.winners;
      var rc :| rc in RouteConflicts(store, w.listeners, r) && rc.route.name == winner;
      assert Blocks(w, store, winner, r);
    }
  }

  /** A claimed route is stored, because it has a node. */
  lemma ClaimStores(w: World, born: string -> nat, s: State, name: string)
    requires WellNamed(w, born) && NodeSafe(s.store) && Uniform(s.store, born)
    requires Decide(s.store, w.listeners, Lookup(w, name)).Claim?
    ensures Stored(Step(w, s, name).store, name)
  {
    hide Decide, NextStore, Uniform, NodeSafe, RouteNodes, StaticConflict;
    StepStoreOk(w, born, s, name);
    ClaimsOwnEntry(s.store, w, born, name);
    var d := Decide(s.store, w.listeners, Lookup(w, name));
    assert Has(Step(w, s, name).store, d.nodes[0], d.entry);
  }

  /** A yield leaves every other route's entries and records the loser under every winner. */
  lemma YieldEffect(w: World, born: string -> nat, s: State, name: string, winner: string)
    requires WellNamed(w, born) && NodeSafe(s.store) && Uniform(s.store, born)
    requires var d := Decide(s.store, w.listeners, Lookup(w, name)); d.Yield? && winner in d.winners && winner != name
    ensures forall n, rc: RouteConfig | rc.route.name == winner ::
      Has(Step(w, s, name).store, n, rc) <==> Has(s.store, n, rc)
    ensures name in LosersOf(Step(w, s, name).losers, winner)
  {
    hide Decide, NextStore, Uniform, NodeSafe;
    StepStoreOk(w, born, s, name);
  }

  /** A route that yields is recorded under every winner, and the winners stay where they are. */
  lemma StepCoveredSelf(w: World, born: string -> nat, s: State, name: string)
    requires Inv(w, born, s)
    ensures Covered(w, Step(w, s, name), name)
  {
    hide Decide, Step, Uniform, NodeSafe, Eligible, Blocks, Stored, Fresh, Compiles;
    var s' := Step(w, s, name);
    var d := Decide(s.store, w.listeners, Lookup(w, name));
    if Eligible(w, name) && !Stored(s'.store, name) {
      EligibleDecides(w, born, s.store, name);
      if d.Claim? {
        ClaimStores(w, born, s, name);
      }
      EligibleCompiles(w, name);
      var winner :| winner in d.winners && winner != name && Blocks(w, s.store, winner, w.routes[name]);
      YieldEffect(w, born, s, name, winner);
      BlocksStays(w, s.store, s'.store, winner, w.routes[name]);
      assert Remembers(w, s', winner, name);
    }
  }

  lemma EligibleCompiles(w: World, name: string)
    requires Eligible(w, name)
    ensures name in w.routes && Compiles(w.routes[name].spec)
  {
  }

  /** One reconcile, of any name, keeps the invariant. */
  lemma StepInv(w: World, born: string -> nat, s: State, name: string)
    requires Inv(w, born, s)
    ensures Inv(w, born, Step(w, s, name))
  {
    hide Step, Uniform, NodeSafe, Fresh, Covered, LosersYounger;
    StepStoreOk(w, born, s, name);
    StepLosersOk(w, born, s, name);
    forall x
      ensures Fresh(w, Step(w, s, name), x) && Covered(w, Step(w, s, name), x)
    {
      if x == name {
        StepFreshSelf(w, born, s, name);
        StepCoveredSelf(w, born, s, name);
      } else {
        StepFreshOther(w, born, s, name, x);
        StepCoveredOther(w, born, s, name, x);
      }
    }
  }

  // ---------------------------------------------------------------- edits of the cluster

  /**
   * Watches put every route on the queue that was created, edited or deleted, and every route
   * naming a listener that was.
   */
  ghost predicate Announced(w: World, w': World, changed: set<string>) {
    && (forall n :: Lookup(w, n) != Lookup(w', n) ==> n in changed)
    && (forall n, l :: n in w'.routes && l in w'.routes[n].spec.refs && ListenerChanged(w, w', l) ==> n in changed)
  }

  predicate ListenerChanged(w: World, w': World, l: string) {
    (l in w.listeners) != (l in w'.listeners)
    || (l in w.listeners && l in w'.listeners && w.listeners[l] != w'.listeners[l])
  }

  lemma {:induction false} HostedNodesSame(w: World, w': World, refs: seq<string>, home: seq<NodeId>)
    requires forall l :: l in refs ==> !ListenerChanged(w, w', l)
    ensures HostedNodes(w.listeners, refs, home) == HostedNodes(w'.listeners, refs, home)
  {
    if home != [] {
      HostedNodesSame(w, w', refs, home[1..]);
      assert Hosted(w.listeners, refs, home[0]) == Hosted(w'.listeners, refs, home[0]);
    }
  }

  /** A route nobody announced has the same nodes and the same standing as before. */
  lemma UnannouncedSame(w: World, w': World, changed: set<string>, x: string)
    requires Announced(w, w', changed) && x !in changed
    ensures Lookup(w, x) == Lookup(w', x)
    ensures x in w.routes ==> RouteNodes(w.listeners, w.routes[x]) == RouteNodes(w'.listeners, w'.routes[x])
    ensures Eligible(w, x) == Eligible(w', x)
    ensures Broken(w, x) == Broken(w', x)
  {
    hide Compiles, Compile, StaticOn;
    assert Lookup(w, x) == Lookup(w', x);
    if x in w.routes {
      var r := w.routes[x];
      HostedNodesSame(w, w', r.spec.refs, r.home);
      StaticConflictSame(w, w', r.spec.refs);
    }
  }

  lemma StaticConflictSame(w: World, w': World, refs: seq<string>)
    requires forall l :: l in refs ==> !ListenerChanged(w, w', l)
    ensures forall m, nodes :: StaticConflict(w.listeners, refs, m, nodes) == StaticConflict(w'.listeners, refs, m, nodes)
  {
    hide StaticOn;
  }

  lemma EditInv(w: World, w': World, born: string -> nat, s: State, changed: set<string>)
    requires Inv(w, born, s) && WellNamed(w', born) && Announced(w, w', changed)
    ensures Inv(w', born, s.(queue := s.queue + changed))
  {
    hide NodeSafe, Uniform, Announced, Eligible, Broken, RouteNodes, LosersYounger, RouteConflict, Compile;
    var s' := s.(queue := s.queue + changed);
    forall x
      ensures Fresh(w', s', x) && Covered(w', s', x)
    {
      if x !in s'.queue {
        UnannouncedSame(w, w', changed, x);
        assert Fresh(w, s, x) && Covered(w, s, x);
        if Eligible(w, x) {
          EligibleCompiles(w, x);
          EligibleCompiles(w', x);
          if !Stored(s.store, x) {
            var winner :| Remembers(w, s, winner, x);
            assert Remembers(w', s', winner, x);
          }
        }
      }
    }
  }

  // ---------------------------------------------------------------- a drained queue

  /** The entry a greedy placement holds on the node. */
  ghost predicate Target(w: World, born: string -> nat, n: NodeId, rc: RouteConfig) {
    && Greedy(w, born, rc.route.name)
    && rc.route == w.routes[rc.route.name]
    && Faithful(rc)
    && n in RouteNodes(w.listeners, rc.route)
  }

  ghost predicate MatchesGreedy(w: World, born: string -> nat, store: Store) {
    forall n, rc :: Has(store, n, rc) <==> Target(w, born, n, rc)
  }

  ghost predicate NoBrokenStored(w: World, store: Store) {
    forall n :: Stored(store, n) ==> !Broken(w, n)
  }

  /** The route is not waiting in the queue, nor served although its spec does not compile. */
  ghost predicate Calm(w: World, s: State, name: string) {
    name !in s.queue && (Stored(s.store, name) ==> !Broken(w, name))
  }

  /** So are all older routes: what the queue still holds concerns younger ones. */
  ghost predicate CalmUpTo(w: World, born: string -> nat, s: State, name: string) {
    Calm(w, s, name) && forall m :: Older(born, m, name) ==> Calm(w, s, m)
  }

  lemma CalmOlder(w: World, born: string -> nat, s: State, m: string, name: string)
    requires CalmUpTo(w, born, s, name) && Older(born, m, name)
    ensures CalmUpTo(w, born, s, m)
  {
    hide Calm, LexLess;
    forall x | Older(born, x, m)
      ensures Calm(w, s, x)
    {
      OlderKeyTransitive(born(x), x, born(m), m, born(name), name);
    }
  }

  /** Two routes stored on a shared node do not clash. */
  lemma StoredTogether(w: World, born: string -> nat, s: State, a: string, b: string)
    requires Inv(w, born, s) && Calm(w, s, a) && Calm(w, s, b) && a != b
    requires Stored(s.store, a) && Stored(s.store, b)
    ensures Eligible(w, a) && Eligible(w, b)
    ensures ShareNode(w, w.routes[a], w.routes[b]) ==>
      Compiles(w.routes[a].spec) && Compiles(w.routes[b].spec) && !Clash(w.routes[a].spec, w.routes[b].spec)
  {
    hide Eligible, RouteNodes, RouteConflict, Compile, Uniform, UniqueNames, LosersYounger, Covered;
    assert Fresh(w, s, a) && Fresh(w, s, b);
    EligibleCompiles(w, a);
    EligibleCompiles(w, b);
    if ShareNode(w, w.routes[a], w.routes[b]) {
      var n :| n in RouteNodes(w.listeners, w.routes[a]) && n in RouteNodes(w.listeners, w.routes[b]);
      var x :| Has(s.store, n, x) && x.route.name == a;
      var y :| Has(s.store, n, y) && y.route.name == b;
      FaithfulEntry(s.store, born, n, x);
      FaithfulEntry(s.store, born, n, y);
      assert NoClash(s.store[n]);
    }
  }

  lemma FaithfulEntry(store: Store, born: string -> nat, n: NodeId, rc: RouteConfig)
    requires Uniform(store, born) && Has(store, n, rc)
    ensures Compiles(rc.route.spec) && rc.matcher == Compile(rc.route.spec.chainMatch).value && rc.listenerNames == rc.route.spec.refs
  {
    hide Compile;
  }

  /** As far as the placement is calm, being stored and being chosen by the greedy pass are the same. */
  lemma {:induction false} StoredIffGreedyUpTo(w: World, born: string -> nat, s: State, name: string)
    requires Inv(w, born, s) && CalmUpTo(w, born, s, name)
    ensures Stored(s.store, name) <==> Greedy(w, born, name)
    decreases OlderThan(w, born, name)
  {
    hide Eligible, RouteNodes, RouteConflict, Compile, Uniform, NodeSafe, ShareNode, Clash, Fresh, Covered, LosersYounger, LexLess, Calm, CalmUpTo;
    CalmHere(w, born, s, name);
    if Stored(s.store, name) {
      StoredIsPlaced(w, born, s, name);
      forall m | m in Rivals(w, born, name)
        ensures !Greedy(w, born, m)
      {
        OlderThanShrinks(w, born, m, name);
        CalmOlder(w, born, s, m, name);
        CalmHere(w, born, s, m);
        StoredIffGreedyUpTo(w, born, s, m);
        OlderKeyTotal(born(name), name, born(m), m);
        if Stored(s.store, m) {
          StoredTogether(w, born, s, m, name);
        }
      }
    } else if Greedy(w, born, name) {
      var m := BlockingWinner(w, born, s, name);
      OlderThanShrinks(w, born, m, name);
      CalmOlder(w, born, s, m, name);
      StoredIffGreedyUpTo(w, born, s, m);
    }
  }

  lemma CalmHere(w: World, born: string -> nat, s: State, name: string)
    requires CalmUpTo(w, born, s, name)
    ensures Calm(w, s, name)
  {
  }

  /** With the queue empty, being stored and being chosen by the greedy pass are the same. */
  lemma StoredIffGreedy(w: World, born: string -> nat, s: State, name: string)
    requires Inv(w, born, s) && s.queue == {} && NoBrokenStored(w, s.store)
    ensures Stored(s.store, name) <==> Greedy(w, born, name)
  {
    hide Inv, Broken, Older, Greedy;
    StoredIffGreedyUpTo(w, born, s, name);
  }

  lemma StoredIsPlaced(w: World, born: string -> nat, s: State, a: string)
    requires Inv(w, born, s) && Calm(w, s, a) && Stored(s.store, a)
    ensures Eligible(w, a) && Placed(w, s.store, a) && Everywhere(w, s.store, a)
  {
    hide Eligible, RouteNodes, RouteConflict, Compile, Uniform, NodeSafe, LosersYounger, Covered;
    assert Fresh(w, s, a);
  }

  /** Where it is calm, an eligible route that is not served has a stored older rival. */
  lemma BlockingWinner(w: World, born: string -> nat, s: State, name: string) returns (m: string)
    requires Inv(w, born, s) && CalmUpTo(w, born, s, name)
    requires Eligible(w, name) && !Stored(s.store, name)
    ensures Stored(s.store, m) && m in Rivals(w, born, name) && Older(born, m, name)
  {
    hide Eligible, RouteNodes, RouteConflict, Compile, Uniform, NodeSafe, LexLess, Older;
    assert Covered(w, s, name);
    m :| Remembers(w, s, m, name);
    EligibleCompiles(w, name);
    var r := w.routes[name];
    var n, rc :| && Has(s.store, n, rc) && rc.route.name == m && n in RouteNodes(w.listeners, r)
                 && RouteConflict(r.spec, rc.route.spec, Compile(r.spec.chainMatch).value, rc.matcher) != Apart;
    StoredIsPlaced(w, born, s, m);
    FaithfulEntry(s.store, born, n, rc);
    assert rc.route == w.routes[m];
    ClashSymmetric(r.spec, rc.route.spec);
    assert ShareNode(w, w.routes[m], r);
  }

  /**
   * Whatever edits and reconciles led here: once the queue is empty the placement is the greedy
   * one exactly when no route is still served from a spec that no longer compiles.
   */
  lemma DrainedIsGreedy(w: World, born: string -> nat, s: State)
    requires Inv(w, born, s) && s.queue == {}
    ensures MatchesGreedy(w, born, s.store) <==> NoBrokenStored(w, s.store)
  {
    if NoBrokenStored(w, s.store) {
      forall n, rc
        ensures Has(s.store, n, rc) <==> Target(w, born, n, rc)
      {
        DrainedEntry(w, born, s, n, rc);
      }
    } else {
      hide Eligible, RouteNodes, RouteConflict, Uniform, NodeSafe, LosersYounger, Fresh, Covered, Compiles;
      var x :| Stored(s.store, x) && Broken(w, x);
      var n, rc :| Has(s.store, n, rc) && rc.route.name == x;
      assert !Target(w, born, n, rc) by {
        if Eligible(w, x) {
          EligibleCompiles(w, x);
        }
      }
    }
  }

  lemma DrainedEntry(w: World, born: string -> nat, s: State, n: NodeId, rc: RouteConfig)
    requires Inv(w, born, s) && s.queue == {} && NoBrokenStored(w, s.store)
    ensures Has(s.store, n, rc) <==> Target(w, born, n, rc)
  {
    hide Eligible, RouteNodes, RouteConflict, Compile, NodeSafe, LosersYounger, Fresh, Covered, Greedy, LexLess;
    var name := rc.route.name;
    StoredIffGreedy(w, born, s, name);
    if Has(s.store, n, rc) {
      StoredIsPlaced(w, born, s, name);
    }
    if Target(w, born, n, rc) {
      StoredIsPlaced(w, born, s, name);
      var rc' :| Has(s.store, n, rc') && rc'.route.name == name;
      FaithfulEntry(s.store, born, n, rc');
    }
  }
}
