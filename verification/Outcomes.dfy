/**
 * Who is served, told from the objects as written: creation times and names, nodes, listener names,
 * trie leaves and domains.
 */
module Outcomes {
  import opened Prelude
  import opened Matching
  import opened Routes
  import opened RouteStore
  import opened Convergence
  import opened RouteRuns
  import opened RouteAudit

  // ---------------------------------------------------------------- two routes on a node

  /** Some leaf of Envoy's trie would hold both chains. */
  ghost predicate SameLeaf(a: ChainMatch, b: ChainMatch) {
    exists k :: Files(a, k) && Files(b, k)
  }

  ghost predicate NextToEachOther(a: ChainMatch, b: ChainMatch, k: TrieKey, x: string, y: string) {
    Near(x, y) && Files(a, k.(serverName := x)) && Files(b, k.(serverName := y))
  }

  /** Two leaves differ in nothing but names one of which covers the other or ends in one more dot. */
  ghost predicate NextLeaf(a: ChainMatch, b: ChainMatch) {
    exists k, x, y :: NextToEachOther(a, b, k, x, y)
  }

  ghost predicate ShareDomain(a: RouteSpec, b: RouteSpec) {
    exists d :: ServesDomain(a, d) && ServesDomain(b, d)
  }

  /** Two routes that cannot stand on a node together. */
  ghost predicate Crowd(a: RouteSpec, b: RouteSpec) {
    OnOneListener(a, b) && (SameLeaf(a.chainMatch, b.chainMatch) || (NextLeaf(a.chainMatch, b.chainMatch) && ShareDomain(a, b)))
  }

  lemma CollideIff(a: ChainMatch, b: ChainMatch)
    requires Compile(a).Some? && Compile(b).Some?
    ensures Collide(Compile(a).value, Compile(b).value) <==> SameLeaf(a, b)
  {
    CompileIff(a);
    CompileIff(b);
    hide Compile, FiledUnder, Files;
    var m, o := Compile(a).value, Compile(b).value;
    if Collide(m, o) {
      var k :| FiledUnder(m, k) && FiledUnder(o, k);
      assert Files(a, k) && Files(b, k);
    }
    if SameLeaf(a, b) {
      var k :| Files(a, k) && Files(b, k);
      assert FiledUnder(m, k) && FiledUnder(o, k);
    }
  }

  lemma NearMissIff(a: ChainMatch, b: ChainMatch)
    requires Compile(a).Some? && Compile(b).Some?
    ensures NearMiss(Compile(a).value, Compile(b).value) <==> !SameLeaf(a, b) && NextLeaf(a, b)
  {
    CollideIff(a, b);
    CompileIff(a);
    CompileIff(b);
    hide Compile, Files, Near, Collide, SameLeaf;
    var m, o := Compile(a).value, Compile(b).value;
    if NearMiss(m, o) {
      var k: TrieKey :| FiledElsewhere(m, k) && FiledElsewhere(o, k);
      var x, y :| x in m.serverNames && y in o.serverNames && Near(x, y);
      assert FiledUnder(m, k.(serverName := x)) && FiledUnder(o, k.(serverName := y));
      assert NextToEachOther(a, b, k, x, y);
    }
    if !SameLeaf(a, b) && NextLeaf(a, b) {
      var k, x, y :| NextToEachOther(a, b, k, x, y);
      assert FiledUnder(m, k.(serverName := x)) && FiledUnder(o, k.(serverName := y));
      assert FiledElsewhere(m, k) && FiledElsewhere(o, k);
    }
  }

  lemma ClashIff(a: RouteSpec, b: RouteSpec)
    requires Compiles(a) && Compiles(b)
    ensures Clash(a, b) <==> Crowd(a, b)
  {
    hide Compile, SameLeaf, NextLeaf, RouteConflict, Collide, NearMiss, OnOneListener, ServesDomain;
    RouteConflictIff(a, b, Compile(a.chainMatch).value, Compile(b.chainMatch).value);
    CollideIff(a.chainMatch, b.chainMatch);
    NearMissIff(a.chainMatch, b.chainMatch);
  }

  // ---------------------------------------------------------------- one route alone

  /** A chain the named listener itself defines, on one of the route's nodes, shares a leaf with the route's. */
  ghost predicate OwnChainInTheWay(listeners: map<string, Listener>, r: Route, l: string, n: NodeId, c: ChainMatch) {
    && l in r.spec.refs && l in listeners && n in listeners[l].home && n in r.home
    && Some(c) in listeners[l].chains && Compile(c).Some? && SameLeaf(r.spec.chainMatch, c)
  }

  /** The route converts, a listener it names is on one of its nodes, and no own chain is in its way. */
  ghost predicate Servable(listeners: map<string, Listener>, r: Route) {
    && r.spec.recasts && Compile(r.spec.chainMatch).Some?
    && (exists l, n :: l in r.spec.refs && l in listeners && n in listeners[l].home && n in r.home)
    && !(exists l, n, c :: OwnChainInTheWay(listeners, r, l, n, c))
  }

  lemma StaticsIff(listeners: map<string, Listener>, r: Route)
    requires Compile(r.spec.chainMatch).Some?
    ensures StaticConflict(listeners, r.spec.refs, Compile(r.spec.chainMatch).value, NodeSet(RouteNodes(listeners, r))) <==>
      exists l, n, c :: OwnChainInTheWay(listeners, r, l, n, c)
  {
    hide Compile, StaticConflict, Collide, SameLeaf, RouteNodes;
    var m, nodes := Compile(r.spec.chainMatch).value, NodeSet(RouteNodes(listeners, r));
    StaticConflictIff(listeners, r.spec.refs, m, nodes);
    if StaticConflict(listeners, r.spec.refs, m, nodes) {
      var l, n, c :| && l in r.spec.refs && l in listeners && n in listeners[l].home && n in nodes
        && c in listeners[l].chains && c.Some? && Compile(c.value).Some? && Collide(m, Compile(c.value).value);
      CollideIff(r.spec.chainMatch, c.value);
      assert OwnChainInTheWay(listeners, r, l, n, c.value);
    }
    if l, n, c :| OwnChainInTheWay(listeners, r, l, n, c) {
      CollideIff(r.spec.chainMatch, c);
      assert Hosted(listeners, r.spec.refs, n);
      assert n in nodes && Some(c).value == c;
    }
  }

  lemma EligibleIff(w: World, name: string)
    requires name in w.routes
    ensures Eligible(w, name) <==> Servable(w.listeners, w.routes[name])
  {
    hide Compile, StaticConflict, OwnChainInTheWay;
    var r := w.routes[name];
    if Compile(r.spec.chainMatch).Some? {
      StaticsIff(w.listeners, r);
    }
    var nodes := RouteNodes(w.listeners, r);
    if nodes != [] {
      assert Hosted(w.listeners, r.spec.refs, nodes[0]);
    }
    if l, n :| l in r.spec.refs && l in w.listeners && n in w.listeners[l].home && n in r.home {
      assert Hosted(w.listeners, r.spec.refs, n) && n in nodes;
    }
  }

  /** One of the route's own nodes, and one of a listener it names. */
  ghost predicate StandsOn(listeners: map<string, Listener>, r: Route, n: NodeId) {
    n in r.home && exists l :: l in r.spec.refs && l in listeners && n in listeners[l].home
  }

  ghost predicate Meet(listeners: map<string, Listener>, a: Route, b: Route) {
    exists n :: StandsOn(listeners, a, n) && StandsOn(listeners, b, n)
  }

  // ---------------------------------------------------------------- the controller

  /** Two different routes stored on a node are never two that cannot stand there together. */
  lemma StoredNeverCrowd(store: Store, born: string -> nat, n: NodeId, x: RouteConfig, y: RouteConfig)
    requires NodeSafe(store) && Uniform(store, born)
    requires Has(store, n, x) && Has(store, n, y) && x.route.name != y.route.name
    ensures !Crowd(x.route.spec, y.route.spec)
  {
    hide Compile, RouteConflict, Crowd, UniqueNames;
    FaithfulEntry(store, born, n, x);
    FaithfulEntry(store, born, n, y);
    assert NoClash(store[n]);
    ClashIff(x.route.spec, y.route.spec);
  }

  /** At no point of any run do two routes that cannot stand together stand on a node. */
  lemma NeverCrowd(born: string -> nat, c: Cluster, run: seq<Event>, n: NodeId, x: RouteConfig, y: RouteConfig)
    requires WellNamed(c.world, born) && Fresh0(c.world, c.state) && LegalRun(born, c, run)
    requires var store := ApplyAll(c, run).state.store; Has(store, n, x) && Has(store, n, y)
    requires x.route.name != y.route.name
    ensures !Crowd(x.route.spec, y.route.spec)
  {
    hide Crowd, NodeSafe, Uniform, Fresh, Covered, Fresh0, Has, LegalRun, ApplyAll;
    StartInv(c.world, born, c.state);
    RunInv(born, c, run);
    StoredNeverCrowd(ApplyAll(c, run).state.store, born, n, x, y);
  }

  /** An older stored route stands where the named one would and cannot stand together with it. */
  ghost predicate Displaced(w: World, store: Store, name: string)
    requires name in w.routes
  {
    exists m :: m in w.routes && Stored(store, m) && Precedes(w.routes[m], w.routes[name])
      && Meet(w.listeners, w.routes[m], w.routes[name]) && Crowd(w.routes[m].spec, w.routes[name].spec)
  }

  lemma ShareNodeIff(w: World, a: Route, b: Route)
    ensures ShareNode(w, a, b) <==> Meet(w.listeners, a, b)
  {
    hide RouteNodes, StandsOn;
    forall r: Route, n
      ensures n in RouteNodes(w.listeners, r) <==> StandsOn(w.listeners, r, n)
    {
      StandsOnIff(w.listeners, r, n);
    }
  }

  lemma StandsOnIff(listeners: map<string, Listener>, r: Route, n: NodeId)
    ensures n in RouteNodes(listeners, r) <==> StandsOn(listeners, r, n)
  {
    RouteNodesAre(listeners, r, n);
  }

  lemma RivalIff(w: World, born: string -> nat, m: string, name: string)
    requires WellNamed(w, born) && m in w.routes && Eligible(w, m) && Eligible(w, name)
    ensures m in Rivals(w, born, name) <==>
      && Precedes(w.routes[m], w.routes[name])
      && Meet(w.listeners, w.routes[m], w.routes[name]) && Crowd(w.routes[m].spec, w.routes[name].spec)
  {
    hide Eligible, Compiles, ShareNode, Clash, Meet, Crowd, Precedes, OlderKey;
    EligibleCompiles(w, m);
    EligibleCompiles(w, name);
    var a, b := w.routes[m], w.routes[name];
    OlderIffPrecedes(a, b);
    assert Older(born, m, name) <==> OlderRoute(a, b);
    ShareNodeIff(w, a, b);
    ClashIff(a.spec, b.spec);
  }

  /**
   * A drained controller serves a route exactly when it can be served at all and no older served route
   * on one of its nodes stands in its way.
   */
  lemma DrainedServes(w: World, born: string -> nat, s: State, name: string)
    requires Inv(w, born, s) && s.queue == {} && NoBrokenStored(w, s.store)
    ensures Stored(s.store, name) <==>
      name in w.routes && Servable(w.listeners, w.routes[name]) && !Displaced(w, s.store, name)
  {
    hide Inv, NoBrokenStored, Eligible, Servable, Stored, Meet, Crowd, Precedes, Greedy, Rivals;
    InvNamed(w, born, s);
    StoredIffGreedy(w, born, s, name);
    if name in w.routes {
      EligibleIff(w, name);
      if Eligible(w, name) {
        GreedyUnfolds(w, born, name);
        forall m | m in w.routes
          ensures m in Rivals(w, born, name) && Greedy(w, born, m) <==>
            Stored(s.store, m) && Precedes(w.routes[m], w.routes[name])
            && Meet(w.listeners, w.routes[m], w.routes[name]) && Crowd(w.routes[m].spec, w.routes[name].spec)
        {
          StoredIffGreedy(w, born, s, m);
          GreedyEligible(w, born, m);
          if Eligible(w, m) {
            RivalIff(w, born, m, name);
          }
        }
        RivalsKnown(w, born, name);
      } else {
        GreedyEligible(w, born, name);
      }
    } else {
      OnlyKnownServed(w, born, name);
    }
  }

  lemma RivalsKnown(w: World, born: string -> nat, name: string)
    requires Eligible(w, name)
    ensures forall m :: m in Rivals(w, born, name) ==> m in w.routes
  {
    hide Eligible, ShareNode, Clash, OlderKey;
  }

  lemma GreedyEligible(w: World, born: string -> nat, name: string)
    ensures Greedy(w, born, name) ==> Eligible(w, name)
  {
    hide Eligible, Rivals;
  }

  /**
   * Of two routes that meet and cannot stand together, the one created first is served, or of two created
   * at one time the one whose name comes first, unless an older route is in its own way; the other is not.
   */
  lemma OlderOfTwoServed(w: World, born: string -> nat, s: State, a: string, b: string)
    requires Inv(w, born, s) && s.queue == {} && NoBrokenStored(w, s.store)
    requires a in w.routes && b in w.routes && Servable(w.listeners, w.routes[a])
    requires Meet(w.listeners, w.routes[a], w.routes[b]) && Crowd(w.routes[a].spec, w.routes[b].spec)
    requires w.routes[a].created < w.routes[b].created || (w.routes[a].created == w.routes[b].created && ComesFirst(a, b))
    requires forall m :: m in w.routes && Precedes(w.routes[m], w.routes[a]) && Meet(w.listeners, w.routes[m], w.routes[a]) ==>
      !Crowd(w.routes[m].spec, w.routes[a].spec)
    ensures Stored(s.store, a) && !Stored(s.store, b)
  {
    hide Inv, NoBrokenStored, Servable, Stored, Meet, Crowd, ComesFirst;
    InvNamed(w, born, s);
    DrainedServes(w, born, s, a);
    DrainedServes(w, born, s, b);
  }

  // ---------------------------------------------------------------- the audit

  /** Manifests without a creation time come last, by name; all others as the controller orders them. */
  ghost predicate AuditPrecedes(a: Route, b: Route) {
    (a.created != 0 && b.created == 0) || ((a.created == 0 <==> b.created == 0) && Precedes(a, b))
  }

  lemma AuditOrderIs(a: Route, b: Route)
    ensures AuditOlder(a, b) <==> AuditPrecedes(a, b)
  {
    hide OlderRoute, Precedes;
    OlderIffPrecedes(a, b);
  }

  /** The nodes the audit takes a route to have in common with another. */
  ghost predicate AuditMeet(listeners: map<string, Listener>, a: Route, b: Route) {
    if listeners == map[] then exists n :: n in a.home && n in b.home else Meet(listeners, a, b)
  }

  /** What the audit asks of a route alone: not whether it converts, and without Listeners only for a node. */
  ghost predicate AuditServable(listeners: map<string, Listener>, r: Route) {
    && Compile(r.spec.chainMatch).Some?
    && if listeners == map[] then r.home != []
       else Servable(listeners, r.(spec := r.spec.(recasts := true)))
  }

  lemma AuditEligibleIff(listeners: map<string, Listener>, r: Route)
    ensures AuditEligible(listeners, r) <==> AuditServable(listeners, r)
  {
    hide Compile, StaticOn, OwnChainInTheWay, Eligible;
    if listeners != map[] {
      var w := World(map[r.name := r], listeners);
      AuditEligibleIsEligible(w, r.name);
      EligibleIff(AuditView(w), r.name);
    }
  }

  lemma BeatsIff(listeners: map<string, Listener>, a: Route, b: Route)
    requires Compile(a.spec.chainMatch).Some? && Compile(b.spec.chainMatch).Some?
    ensures Beats(AsPlaced(listeners, a), AsPlaced(listeners, b)) <==> AuditMeet(listeners, a, b) && Crowd(a.spec, b.spec)
  {
    hide Compile, RouteConflict, Crowd, RouteNodes, Meet;
    var a', b' := a.spec.(recasts := true), b.spec.(recasts := true);
    ClashIff(a', b');
    CrowdSame(a.spec, b.spec);
    ConflictSame(a.spec, b.spec, Compile(a.spec.chainMatch).value, Compile(b.spec.chainMatch).value);
    if listeners != map[] {
      ShareNodeIff(World(map[], listeners), a, b);
    }
  }

  lemma CrowdSame(a: RouteSpec, b: RouteSpec)
    ensures Crowd(a.(recasts := true), b.(recasts := true)) == Crowd(a, b)
  {
    hide SameLeaf, NextLeaf;
    var a', b' := a.(recasts := true), b.(recasts := true);
    assert forall d :: (ServesDomain(a', d) <==> ServesDomain(a, d)) && (ServesDomain(b', d) <==> ServesDomain(b, d));
  }

  lemma ConflictSame(a: RouteSpec, b: RouteSpec, ma: Matcher, mb: Matcher)
    ensures RouteConflict(a.(recasts := true), b.(recasts := true), ma, mb) == RouteConflict(a, b, ma, mb)
  {
    hide Compare;
  }

  /** A served route that comes earlier has a node in common with r and cannot stand together with it. */
  ghost predicate AuditDisplaced(listeners: map<string, Listener>, served: seq<Placed>, r: Route) {
    exists p :: p in served && AuditPrecedes(p.route, r) && AuditMeet(listeners, p.route, r) && Crowd(p.route.spec, r.spec)
  }

  /** The audit's answer, told in the same terms: no unapplied manifest displaces an applied route. */
  lemma AuditServes(listeners: map<string, Listener>, routes: seq<Route>, served: seq<Placed>, r: Route)
    requires GreedyList(listeners, routes, served) && r in routes
    ensures InServed(served, r) <==> AuditServable(listeners, r) && !AuditDisplaced(listeners, served, r)
  {
    hide Compile, AuditServable, AuditMeet, Crowd, AuditOlder, AuditPrecedes, Beats, AuditEligible, AsPlaced;
    AuditEligibleIff(listeners, r);
    if AuditEligible(listeners, r) {
      AuditCompiles(listeners, r);
      forall p | p in served
        ensures AuditOlder(p.route, r) && Beats(p, AsPlaced(listeners, r)) <==>
          AuditPrecedes(p.route, r) && AuditMeet(listeners, p.route, r) && Crowd(p.route.spec, r.spec)
      {
        AuditCompiles(listeners, p.route);
        AuditOrderIs(p.route, r);
        BeatsIff(listeners, p.route, r);
      }
    }
  }

  lemma AuditCompiles(listeners: map<string, Listener>, r: Route)
    requires AuditEligible(listeners, r)
    ensures Compile(r.spec.chainMatch).Some?
  {
    hide Compile, StaticConflict, AuditNodes;
  }

  /** Of two routes that meet and cannot stand together the audit serves the one that comes first, and not the other. */
  lemma AuditServesFirst(listeners: map<string, Listener>, routes: seq<Route>, served: seq<Placed>, a: Route, b: Route)
    requires GreedyList(listeners, routes, served) && a in routes && b in routes && AuditServable(listeners, a)
    requires AuditMeet(listeners, a, b) && Crowd(a.spec, b.spec)
    requires (a.created != 0 && b.created == 0) || ((a.created == 0 <==> b.created == 0) &&
      (a.created < b.created || (a.created == b.created && ComesFirst(a.name, b.name))))
    requires forall m :: m in routes && AuditPrecedes(m, a) && AuditMeet(listeners, m, a) ==> !Crowd(m.spec, a.spec)
    ensures InServed(served, a) && !InServed(served, b)
  {
    hide AuditServable, AuditMeet, Crowd, ComesFirst, Beaten, AuditEligible, AsPlaced;
    AuditServes(listeners, routes, served, a);
    AuditServes(listeners, routes, served, b);
    assert AuditPrecedes(a, b);
    var p :| p in served && p.route == a;
  }
}
