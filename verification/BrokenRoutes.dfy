/**
 * A route that is still served with its last good version although its current spec does not compile
 * makes the outcome of the RDS queue depend on the order of reconciles.
 */
module BrokenRoutes {
  import opened Prelude
  import opened Matching
  import opened Routes
  import opened RouteStore
  import opened Convergence
  import opened RouteRuns
  import RouteAudit

  /** Every queue can be drained: keep reconciling what is queued. */
  lemma {:induction false} SomeDrain(w: World, born: string -> nat, all: set<string>, s: State) returns (order: seq<string>)
    requires Inv(w, born, s) && Within(all, s)
    ensures Dequeues(w, s, order) && Drain(w, s, order).queue == {}
    decreases Measure(born, all, s.queue)
  {
    hide Inv, Step, Within, Measure;
    if s.queue == {} {
      order := [];
    } else {
      var n :| n in s.queue;
      StepInv(w, born, s, n);
      QueueWithin(all, s, n);
      StepWithin(w, born, all, s, n);
      StepShrinks(w, born, all, s, n);
      var rest := SomeDrain(w, born, all, Step(w, s, n));
      order := [n] + rest;
      assert order[1..] == rest;
    }
  }

  /** A broken route that is not served stays out. */
  lemma {:induction false} BrokenStaysOut(w: World, born: string -> nat, s: State, order: seq<string>, name: string)
    requires Inv(w, born, s) && Broken(w, name) && !Stored(s.store, name)
    ensures !Stored(Drain(w, s, order).store, name)
    decreases |order|
  {
    hide Inv, Step, Stored;
    if order != [] {
      StepInv(w, born, s, order[0]);
      BrokenNotClaimed(w, born, s, order[0], name);
      BrokenStaysOut(w, born, Step(w, s, order[0]), order[1..], name);
    }
  }

  lemma BrokenNotClaimed(w: World, born: string -> nat, s: State, name: string, broken: string)
    requires Inv(w, born, s) && Broken(w, broken) && !Stored(s.store, broken)
    ensures !Stored(Step(w, s, name).store, broken)
  {
    hide Decide, Step, Eligible, Uniform, NodeSafe, RouteNodes, LosersYounger, Fresh, Covered, Broken;
    StepStoreOk(w, born, s, name);
    ClaimsOwnEntry(s.store, w, born, name);
    if Eligible(w, broken) {
      EligibleNotBroken(w, broken);
    }
    var next := Step(w, s, name).store;
    forall n, rc | Has(next, n, rc)
      ensures rc.route.name != broken
    {
      assert Left(s.store, name, Decide(s.store, w.listeners, Lookup(w, name)), n, rc);
    }
  }

  // ---------------------------------------------------------------- when every order ends greedy

  /** An older route the greedy pass serves clashes with the named route's stored copy on one of its nodes. */
  ghost predicate DisplacedBy(w: World, born: string -> nat, store: Store, name: string, g: string) {
    Eligible(w, g) && Greedy(w, born, g) && Older(born, g, name) && Blocks(w, store, name, w.routes[g])
  }

  ghost predicate Displaced(w: World, born: string -> nat, store: Store, name: string) {
    exists g :: DisplacedBy(w, born, store, name, g)
  }

  ghost predicate BrokenStored(w: World, store: Store, name: string) {
    Stored(store, name) && Broken(w, name)
  }

  /** Every route that is served from a spec that no longer compiles has to make room for an older one. */
  ghost predicate AllDisplaced(w: World, born: string -> nat, store: Store) {
    forall b :: BrokenStored(w, store, b) ==> Displaced(w, born, store, b)
  }

  lemma BrokenIsRetained(store: Store, w: World, name: string)
    requires Broken(w, name)
    ensures Decide(store, w.listeners, Lookup(w, name)) == Retain
  {
    hide Compiles;
  }

  /** A broken route keeps its copies until it is evicted from every node at once. */
  lemma BrokenKeepsCopies(w: World, born: string -> nat, s: State, name: string, b: string)
    requires Inv(w, born, s) && Broken(w, b) && Stored(Step(w, s, name).store, b)
    ensures forall n, rc: RouteConfig | rc.route.name == b :: Has(Step(w, s, name).store, n, rc) <==> Has(s.store, n, rc)
  {
    hide Decide, Step, Eligible, Uniform, NodeSafe, RouteNodes, LosersYounger, Fresh, Covered, Broken, LexLess;
    StepStoreOk(w, born, s, name);
    ClaimsOwnEntry(s.store, w, born, name);
    BrokenIsRetained(s.store, w, b);
    if Eligible(w, b) {
      EligibleNotBroken(w, b);
    }
    var n, rc :| Has(Step(w, s, name).store, n, rc) && rc.route.name == b;
    assert Left(s.store, name, Decide(s.store, w.listeners, Lookup(w, name)), n, rc);
  }

  /** Whether a broken route is displaced does not change while it is stored. */
  lemma StepDisplaced(w: World, born: string -> nat, s: State, name: string, b: string)
    requires Inv(w, born, s) && BrokenStored(w, Step(w, s, name).store, b)
    ensures BrokenStored(w, s.store, b)
    ensures Displaced(w, born, Step(w, s, name).store, b) <==> Displaced(w, born, s.store, b)
  {
    hide Inv, Step, Greedy, Blocks, Eligible, Broken, Stored, LexLess;
    BrokenKeepsCopies(w, born, s, name, b);
    if !Stored(s.store, b) {
      BrokenNotClaimed(w, born, s, name, b);
    }
    var t := Step(w, s, name);
    forall g | Eligible(w, g)
      ensures DisplacedBy(w, born, t.store, b, g) <==> DisplacedBy(w, born, s.store, b, g)
    {
      EligibleCompiles(w, g);
      if Blocks(w, t.store, b, w.routes[g]) {
        BlocksStays(w, t.store, s.store, b, w.routes[g]);
      }
      if Blocks(w, s.store, b, w.routes[g]) {
        BlocksStays(w, s.store, t.store, b, w.routes[g]);
      }
    }
  }

  /** No route older than the named one is queued, and the broken ones among them are displaced. */
  ghost predicate Swept(w: World, born: string -> nat, s: State, name: string) {
    forall m :: Older(born, m, name) ==>
      m !in s.queue && (BrokenStored(w, s.store, m) ==> Displaced(w, born, s.store, m))
  }

  lemma SweptOlder(w: World, born: string -> nat, s: State, m: string, name: string)
    requires Swept(w, born, s, name) && Older(born, m, name)
    ensures Swept(w, born, s, m)
  {
    hide LexLess, BrokenStored, Displaced;
    forall x | Older(born, x, m)
      ensures Older(born, x, name)
    {
      OlderKeyTransitive(born(x), x, born(m), m, born(name), name);
    }
  }

  /** A route stored where the placement is calm sits, with its current spec, on each of its nodes. */
  lemma StoredEntry(w: World, born: string -> nat, s: State, g: string, n: NodeId) returns (rc: RouteConfig)
    requires Inv(w, born, s) && Calm(w, s, g) && Stored(s.store, g)
    requires Eligible(w, g) && n in RouteNodes(w.listeners, w.routes[g])
    ensures Has(s.store, n, rc) && rc.route == w.routes[g] && rc.route.name == g
    ensures Compiles(rc.route.spec) && rc.matcher == Compile(rc.route.spec.chainMatch).value
  {
    hide Eligible, RouteNodes, Compile, Uniform, NodeSafe, LosersYounger, Fresh, Covered, Calm;
    StoredIsPlaced(w, born, s, g);
    rc :| Has(s.store, n, rc) && rc.route.name == g;
    FaithfulEntry(s.store, born, n, rc);
  }

  /** A displaced route cannot still be stored where everything older is calm: its displacer is. */
  lemma DisplacedGone(w: World, born: string -> nat, s: State, b: string)
    requires Inv(w, born, s) && BrokenStored(w, s.store, b)
    requires forall m :: Older(born, m, b) ==> Calm(w, s, m)
    ensures !Displaced(w, born, s.store, b)
  {
    if g :| DisplacedBy(w, born, s.store, b, g) {
      hide Eligible, RouteNodes, RouteConflict, Compile, Uniform, LosersYounger, Fresh, Covered, Calm, LexLess, Greedy;
      forall x | Older(born, x, g)
        ensures Calm(w, s, x)
      {
        OlderKeyTransitive(born(x), x, born(g), g, born(b), b);
      }
      StoredIffGreedyUpTo(w, born, s, g);
      EligibleCompiles(w, g);
      OlderKeyTotal(born(b), b, born(g), g);
      var r := w.routes[g];
      var n, y :| && Has(s.store, n, y) && y.route.name == b && n in RouteNodes(w.listeners, r)
                  && RouteConflict(r.spec, y.route.spec, Compile(r.spec.chainMatch).value, y.matcher) != Apart;
      var _ := StoredEntry(w, born, s, g, n);
    }
  }

  /** A swept placement is calm: no broken route is left in it. */
  lemma {:induction false} SweptIsCalm(w: World, born: string -> nat, s: State, name: string, m: string)
    requires Inv(w, born, s) && Swept(w, born, s, name) && Older(born, m, name)
    ensures Calm(w, s, m)
    decreases OlderThan(w, born, m)
  {
    hide Inv, Broken, Stored, Displaced, Older, LexLess;
    if BrokenStored(w, s.store, m) {
      SweptOlder(w, born, s, m, name);
      forall x | Older(born, x, m)
        ensures Calm(w, s, x)
      {
        if BrokenStored(w, s.store, x) {
          BrokenIsKnown(w, x);
          OlderThanShrinks(w, born, x, m);
          SweptIsCalm(w, born, s, m, x);
        }
      }
      DisplacedGone(w, born, s, m);
    }
  }

  lemma BrokenIsKnown(w: World, name: string)
    requires Broken(w, name)
    ensures name in w.routes
  {
  }

  /** In whatever order, a drain from a start where every broken route is displaced leaves none. */
  lemma {:induction false} DrainDisplaces(w: World, born: string -> nat, s: State, order: seq<string>)
    requires Inv(w, born, s) && AllDisplaced(w, born, s.store) && Drain(w, s, order).queue == {}
    ensures MatchesGreedy(w, born, Drain(w, s, order).store)
    decreases |order|
  {
    hide Inv, Step, BrokenStored, Displaced, MatchesGreedy, Older;
    if order == [] {
      forall b
        ensures !BrokenStored(w, s.store, b)
      {
        if BrokenStored(w, s.store, b) {
          forall m | Older(born, m, b)
            ensures Calm(w, s, m)
          {
            SweptIsCalm(w, born, s, b, m);
          }
          DisplacedGone(w, born, s, b);
        }
      }
      NoneBroken(w, s.store);
      DrainedIsGreedy(w, born, s);
    } else {
      StepInv(w, born, s, order[0]);
      var t := Step(w, s, order[0]);
      forall b | BrokenStored(w, t.store, b)
        ensures Displaced(w, born, t.store, b)
      {
        StepDisplaced(w, born, s, order[0], b);
      }
      DrainDisplaces(w, born, t, order[1..]);
    }
  }

  lemma NoneBroken(w: World, store: Store)
    ensures NoBrokenStored(w, store) <==> forall b :: !BrokenStored(w, store, b)
  {
    hide Stored, Broken;
    forall b
      ensures BrokenStored(w, store, b) <==> Stored(store, b) && Broken(w, b)
    {
    }
  }

  // ---------------------------------------------------------------- draining oldest first

  /** A route that claims its nodes while everything older is calm is one the greedy pass serves. */
  lemma ClaimerIsGreedy(w: World, born: string -> nat, s: State, x: string)
    requires Inv(w, born, s) && Decide(s.store, w.listeners, Lookup(w, x)).Claim?
    requires forall m :: Older(born, m, x) ==> Calm(w, s, m)
    ensures Eligible(w, x) && Greedy(w, born, x)
  {
    hide Inv, RouteNodes, RouteConflict, Compile, Calm, LexLess, Eligible, Greedy, Decide;
    InvHolds(w, born, s);
    ClaimsOwnEntry(s.store, w, born, x);
    forall m | m in Rivals(w, born, x)
      ensures !Greedy(w, born, m)
    {
      if Greedy(w, born, m) {
        RivalIsSeen(w, born, s, x, m);
      }
    }
    GreedyIff(w, born, x);
  }

  lemma InvHolds(w: World, born: string -> nat, s: State)
    requires Inv(w, born, s)
    ensures WellNamed(w, born) && NodeSafe(s.store) && Uniform(s.store, born)
  {
  }

  lemma GreedyIff(w: World, born: string -> nat, x: string)
    ensures Greedy(w, born, x) <==> Eligible(w, x) && forall m :: m in Rivals(w, born, x) ==> !Greedy(w, born, m)
  {
    hide Eligible, Rivals;
  }

  /** A greedy rival is stored on the shared node, so the reconcile finds it and yields. */
  lemma RivalIsSeen(w: World, born: string -> nat, s: State, x: string, m: string)
    requires Inv(w, born, s) && Eligible(w, x) && m in Rivals(w, born, x) && Greedy(w, born, m)
    requires forall y :: Older(born, y, x) ==> Calm(w, s, y)
    ensures !Decide(s.store, w.listeners, Lookup(w, x)).Claim?
  {
    hide RouteNodes, RouteConflict, Compile, Uniform, NodeSafe, LosersYounger, Fresh, Covered, Calm, LexLess, Greedy;
    forall y | Older(born, y, m)
      ensures Calm(w, s, y)
    {
      OlderKeyTransitive(born(y), y, born(m), m, born(x), x);
    }
    StoredIffGreedyUpTo(w, born, s, m);
    var n :| n in RouteNodes(w.listeners, w.routes[m]) && n in RouteNodes(w.listeners, w.routes[x]);
    var rc := StoredEntry(w, born, s, m, n);
    ClashSymmetric(w.routes[m].spec, w.routes[x].spec);
    OlderKeyTotal(born(x), x, born(m), m);
    assert rc in RouteConflicts(s.store, w.listeners, w.routes[x]);
    assert OlderRoute(rc.route, w.routes[x]);
    assert m in OlderNames(RouteConflicts(s.store, w.listeners, w.routes[x]), w.routes[x]);
  }

  /** Only an older route that claims its nodes ends a broken route, and it clashes with its copy there. */
  lemma EvictedByClaim(w: World, born: string -> nat, s: State, x: string, b: string)
    requires Inv(w, born, s) && BrokenStored(w, s.store, b) && !Stored(Step(w, s, x).store, b)
    ensures Decide(s.store, w.listeners, Lookup(w, x)).Claim? && Eligible(w, x) && Older(born, x, b)
    ensures Compiles(w.routes[x].spec) && Blocks(w, s.store, b, w.routes[x])
  {
    hide Eligible, Uniform, NodeSafe, RouteNodes, LosersYounger, Fresh, Covered, Broken, LexLess, RouteConflict, StaticConflict, Compile, NextStore, Older;
    StepStoreOk(w, born, s, x);
    ClaimsOwnEntry(s.store, w, born, x);
    BrokenIsRetained(s.store, w, b);
    var d := Decide(s.store, w.listeners, Lookup(w, x));
    var n, rc :| Has(s.store, n, rc) && rc.route.name == b;
    assert !Has(Step(w, s, x).store, n, rc);
    assert !Left(s.store, x, d, n, rc);
    assert d.Claim? && b in d.evicted;
    DecisionAgesByName(w, born, s.store, x);
    EligibleCompiles(w, x);
    var y :| y in RouteConflicts(s.store, w.listeners, w.routes[x]) && y.route.name == b;
    var k :| k in RouteNodes(w.listeners, w.routes[x]) && Has(s.store, k, y);
  }

  /** Oldest first, a broken route survives the step unless it is displaced, if every older one is. */
  lemma SurvivesOldest(w: World, born: string -> nat, s: State, x: string, b: string)
    requires Inv(w, born, s) && BrokenStored(w, s.store, b)
    requires forall m :: Older(born, m, b) && BrokenStored(w, s.store, m) ==> Displaced(w, born, s.store, m)
    requires forall m :: m in s.queue && m != x ==> Older(born, x, m)
    ensures Stored(Step(w, s, x).store, b) || Displaced(w, born, s.store, b)
  {
    hide Inv, Step, Eligible, Broken, Greedy, Blocks, LexLess, Decide, BrokenStored;
    if !Stored(Step(w, s, x).store, b) {
      EvictedByClaim(w, born, s, x, b);
      forall m | Older(born, m, x)
        ensures m !in s.queue
        ensures BrokenStored(w, s.store, m) ==> Displaced(w, born, s.store, m)
      {
        OlderKeyTotal(born(m), m, born(x), x);
        OlderKeyTransitive(born(m), m, born(x), x, born(b), b);
      }
      forall m | Older(born, m, x)
        ensures Calm(w, s, m)
      {
        SweptIsCalm(w, born, s, x, m);
      }
      ClaimerIsGreedy(w, born, s, x);
      assert DisplacedBy(w, born, s.store, b, x);
    }
  }

  /** Reconciling the oldest queued route first drains the queue and keeps the oldest undisplaced broken route. */
  lemma {:induction false} OldestFirst(w: World, born: string -> nat, all: set<string>, s: State, b: string)
    returns (order: seq<string>)
    requires Inv(w, born, s) && Within(all, s)
    requires BrokenStored(w, s.store, b) && !Displaced(w, born, s.store, b)
    requires forall m :: Older(born, m, b) && BrokenStored(w, s.store, m) ==> Displaced(w, born, s.store, m)
    ensures Dequeues(w, s, order) && Drain(w, s, order).queue == {}
    ensures BrokenStored(w, Drain(w, s, order).store, b)
    decreases Measure(born, all, s.queue)
  {
    hide Inv, Step, Within, Measure, Stored, Broken, Displaced, Older;
    if s.queue == {} {
      order := [];
    } else {
      var x := Oldest(born, s.queue);
      var t := Step(w, s, x);
      SurvivesOldest(w, born, s, x, b);
      StepDisplaced(w, born, s, x, b);
      forall m | Older(born, m, b) && BrokenStored(w, t.store, m)
        ensures Displaced(w, born, t.store, m)
      {
        StepDisplaced(w, born, s, x, m);
      }
      StepInv(w, born, s, x);
      QueueWithin(all, s, x);
      StepWithin(w, born, all, s, x);
      StepShrinks(w, born, all, s, x);
      var rest := OldestFirst(w, born, all, t, b);
      order := [x] + rest;
      assert order[1..] == rest;
    }
  }

  /**
   * Exactly when every order of draining the queue ends in the greedy placement: when every route
   * served at the start from a spec that no longer compiles clashes, where it is stored, with an older
   * route the greedy pass serves.
   */
  lemma EveryOrderGreedyIff(w: World, born: string -> nat, s: State)
    requires Inv(w, born, s)
    ensures (forall order :: Drain(w, s, order).queue == {} ==> MatchesGreedy(w, born, Drain(w, s, order).store))
      <==> AllDisplaced(w, born, s.store)
  {
    hide Inv, MatchesGreedy, Displaced, Step, Broken, Older;
    if AllDisplaced(w, born, s.store) {
      forall order | Drain(w, s, order).queue == {}
        ensures MatchesGreedy(w, born, Drain(w, s, order).store)
      {
        DrainDisplaces(w, born, s, order);
      }
    } else {
      var some :| BrokenStored(w, s.store, some) && !Displaced(w, born, s.store, some);
      var all := Mentioned(s);
      MentionedWithin(s);
      var left := set n | n in all && BrokenStored(w, s.store, n) && !Displaced(w, born, s.store, n);
      assert some in left;
      var b := Oldest(born, left);
      forall m | Older(born, m, b) && BrokenStored(w, s.store, m)
        ensures Displaced(w, born, s.store, m)
      {
        NotBothOlder(born, m, b);
      }
      var order := OldestFirst(w, born, all, s, b);
      var end := Drain(w, s, order);
      DrainInv(w, born, s, order);
      NoneBroken(w, end.store);
      DrainedIsGreedy(w, born, end);
    }
  }

  lemma NotBothOlder(born: string -> nat, a: string, b: string)
    requires Older(born, a, b)
    ensures a != b && !Older(born, b, a)
  {
    OlderKeyTotal(born(a), a, born(b), b);
  }

  /** After any run of edits and reconciles from a fresh start, whatever order the queue is drained in. */
  lemma AfterAnyRunGreedyIff(born: string -> nat, c: Cluster, run: seq<Event>)
    requires WellNamed(c.world, born) && Fresh0(c.world, c.state) && LegalRun(born, c, run)
    ensures var now := ApplyAll(c, run);
      (forall order :: Drain(now.world, now.state, order).queue == {} ==>
        MatchesGreedy(now.world, born, Drain(now.world, now.state, order).store))
      <==> AllDisplaced(now.world, born, now.state.store)
  {
    hide Inv, MatchesGreedy, AllDisplaced, Drain;
    StartInv(c.world, born, c.state);
    RunInv(born, c, run);
    EveryOrderGreedyIff(ApplyAll(c, run).world, born, ApplyAll(c, run).state);
  }

  // ---------------------------------------------------------------- what the audit predicts

  /**
   * From a start where every broken route is displaced, the audit of the cluster names exactly the
   * routes any drain ends with, if and only if all it serves convert.
   */
  lemma AuditPredictsDrain(
      w: World, born: string -> nat, s: State, order: seq<string>, routes: seq<Route>, served: seq<RouteAudit.Placed>)
    requires Inv(w, born, s) && AllDisplaced(w, born, s.store) && Drain(w, s, order).queue == {}
    requires RouteAudit.InputOf(w, routes) && w.listeners != map[] && RouteAudit.GreedyList(w.listeners, routes, served)
    ensures RouteAudit.Predicts(w, Drain(w, s, order).store, served) <==> RouteAudit.AllRecast(served)
  {
    hide Inv, AllDisplaced, MatchesGreedy, NoBrokenStored, Drain, RouteAudit.InputOf, RouteAudit.GreedyList;
    DrainInv(w, born, s, order);
    DrainDisplaces(w, born, s, order);
    DrainedIsGreedy(w, born, Drain(w, s, order));
    RouteAudit.AuditPredictsController(w, born, Drain(w, s, order), routes, served);
  }

  // ---------------------------------------------------------------- three routes on one node

  const NODE := NodeId("default", "edge")

  function OnPorts(ports: seq<nat>, recasts: bool): RouteSpec {
    RouteSpec(["web"], CATCH_ALL.(sourcePorts := ports), recasts, None, Hcm(true, Auto, ""), "", [])
  }

  const OLD := Route("old", 1, 1, [NODE], OnPorts([1], true))
  const MIDDLE := Route("middle", 2, 1, [NODE], OnPorts([1, 2], true))
  const YOUNG := Route("young", 3, 1, [NODE], OnPorts([2], true))
  const YOUNG_BROKEN := Route("young", 3, 2, [NODE], OnPorts([2], false))

  const LISTENERS: map<string, Listener> := map["web" := Listener("web", [NODE], [])]
  const WORLD := World(map["old" := OLD, "middle" := MIDDLE, "young" := YOUNG_BROKEN], LISTENERS)

  function PortMatcher(ports: seq<nat>): Matcher {
    Matcher(0, ANY_ADDRESSES, ANY_NAMES, "", ANY_NAMES, ANY_ADDRESSES, 0, ANY_ADDRESSES, ports)
  }

  function Entry(r: Route): RouteConfig {
    RouteConfig(r, ["web"], PortMatcher(r.spec.chainMatch.sourcePorts))
  }

  function Born(name: string): nat {
    if name == "old" then 1 else if name == "middle" then 2 else 3
  }

  /** The young route was served, then edited into something that does not compile; the others are new. */
  const START := State(map[NODE := [Entry(YOUNG)]], map[], {"old", "middle"})

  lemma PortsCompile(ports: seq<nat>)
    requires ports != [] && NoRepeats(ports)
    ensures Compile(CATCH_ALL.(sourcePorts := ports)) == Some(PortMatcher(ports))
  {
    assert CompileNames([]) == Some(ANY_NAMES);
    assert CompileRanges([]) == Some(ANY_ADDRESSES);
  }

  lemma PortsConflict(a: seq<nat>, b: seq<nat>)
    ensures RouteConflict(OnPorts(a, true), OnPorts(b, true), PortMatcher(a), PortMatcher(b)) ==
      if ShareKey(a, b) then Duplicate else Apart
  {
    assert ANY_NAMES[0] == "" && "" in ANY_NAMES;
    assert ANY_ADDRESSES[0] in ANY_ADDRESSES;
    assert "web" in ["web"];
  }

  lemma AllCompile()
    ensures forall r :: r in {OLD, MIDDLE, YOUNG} ==> Faithful(Entry(r))
  {
    PortsCompile([1]);
    PortsCompile([1, 2]);
    PortsCompile([2]);
  }

  lemma Places(r: Route)
    requires r in {OLD, MIDDLE}
    ensures Compiles(r.spec) && RouteNodes(LISTENERS, r) != [] && NodeSet(RouteNodes(LISTENERS, r)) == {NODE}
    ensures !StaticConflict(LISTENERS, r.spec.refs, Entry(r).matcher, {NODE})
  {
    AllCompile();
    assert Faithful(Entry(r));
    assert NODE in LISTENERS["web"].home;
    assert Hosted(LISTENERS, r.spec.refs, NODE);
    assert NODE in RouteNodes(LISTENERS, r);
  }

  lemma StartOk()
    ensures Inv(WORLD, Born, START) && Within(WORLD.routes.Keys, START) && Broken(WORLD, "young")
  {
    AllCompile();
    hide LexLess, RouteNodes, StaticConflict, Faithful;
    forall n, rc | Has(START.store, n, rc)
      ensures rc == Entry(YOUNG)
    {
    }
    assert Broken(WORLD, "young");
  }

  lemma Shares()
    ensures ShareKey(MIDDLE.spec.chainMatch.sourcePorts, OLD.spec.chainMatch.sourcePorts)
    ensures ShareKey(MIDDLE.spec.chainMatch.sourcePorts, YOUNG.spec.chainMatch.sourcePorts)
    ensures !ShareKey(OLD.spec.chainMatch.sourcePorts, YOUNG.spec.chainMatch.sourcePorts)
  {
    var one: nat, two: nat := 1, 2;
    assert one in MIDDLE.spec.chainMatch.sourcePorts && one in OLD.spec.chainMatch.sourcePorts;
    assert two in MIDDLE.spec.chainMatch.sourcePorts && two in YOUNG.spec.chainMatch.sourcePorts;
  }

  /** What the routes on the node would make of one that is reconciled. */
  lemma ConflictsAre(store: Store, r: Route, others: set<Route>)
    requires r in {OLD, MIDDLE} && others <= {OLD, YOUNG} && r !in others
    requires forall n, rc :: Has(store, n, rc) <==> n == NODE && exists o :: o in others && rc == Entry(o)
    ensures Compiles(r.spec)
    ensures RouteConflicts(store, LISTENERS, r) ==
      set o: Route | o in others && ShareKey(r.spec.chainMatch.sourcePorts, o.spec.chainMatch.sourcePorts) :: Entry(o)
  {
    hide LexLess, RouteNodes, StaticConflict, RouteConflict;
    Places(r);
    AllCompile();
    assert Faithful(Entry(r));
    var conflicts := RouteConflicts(store, LISTENERS, r);
    forall o | o in others
      ensures Entry(o) in conflicts <==> ShareKey(r.spec.chainMatch.sourcePorts, o.spec.chainMatch.sourcePorts)
    {
      PortsConflict(r.spec.chainMatch.sourcePorts, o.spec.chainMatch.sourcePorts);
      assert Has(store, NODE, Entry(o));
      assert NODE in RouteNodes(LISTENERS, r) by { assert NODE in NodeSet(RouteNodes(LISTENERS, r)); }
    }
  }

  /** Middle first: it evicts the young route, whose broken spec cannot come back. */
  lemma MiddleFirst() returns (order: seq<string>)
    ensures Dequeues(WORLD, START, order) && Drain(WORLD, START, order).queue == {}
    ensures !Stored(Drain(WORLD, START, order).store, "young")
  {
    hide Inv, Broken, Within;
    StartOk();
    var s := Step(WORLD, START, "middle");
    MiddleEvicts();
    StepInv(WORLD, Born, START, "middle");
    StepWithin(WORLD, Born, WORLD.routes.Keys, START, "middle");
    var rest := SomeDrain(WORLD, Born, WORLD.routes.Keys, s);
    BrokenStaysOut(WORLD, Born, s, rest, "young");
    order := ["middle"] + rest;
    assert order[1..] == rest;
  }

  lemma MiddleClaims()
    ensures var d := Decide(START.store, LISTENERS, Some(MIDDLE));
      d.Claim? && d.entry == Entry(MIDDLE) && "young" in d.evicted
  {
    hide LexLess, RouteNodes, StaticConflict, RouteConflict, ShareKey;
    Places(MIDDLE);
    AllCompile();
    assert Faithful(Entry(MIDDLE));
    ConflictsAre(START.store, MIDDLE, {YOUNG});
    Shares();
    assert Entry(YOUNG) in RouteConflicts(START.store, LISTENERS, MIDDLE);
  }

  lemma MiddleEvicts()
    ensures !Stored(Step(WORLD, START, "middle").store, "young")
  {
    hide Decide, NextStore, LexLess, RouteNodes, StaticConflict, RouteConflict;
    StartOk();
    MiddleClaims();
    var d := Decide(START.store, LISTENERS, Lookup(WORLD, "middle"));
    StepStoreOk(WORLD, Born, START, "middle");
    var next := Step(WORLD, START, "middle").store;
    forall n, rc | Has(next, n, rc)
      ensures rc.route.name != "young"
    {
      assert Left(START.store, "middle", d, n, rc);
    }
  }

  /** Old first: the middle route then yields, and the young one keeps its last good version. */
  lemma OldFirst()
    ensures Dequeues(WORLD, START, ["old", "middle"]) && Drain(WORLD, START, ["old", "middle"]).queue == {}
    ensures Stored(Drain(WORLD, START, ["old", "middle"]).store, "young")
  {
    hide Inv, Decide, NextStore;
    var s1 := OldClaims();
    var s2 := MiddleYields(s1);
    var order := ["old", "middle"];
    assert order[1..] == ["middle"] && order[1..][1..] == [];
    assert Drain(WORLD, s1, ["middle"]) == s2;
  }

  lemma OldDecides()
    ensures var d := Decide(START.store, LISTENERS, Some(OLD));
      d.Claim? && d.entry == Entry(OLD) && NodeSet(d.nodes) == {NODE} && d.evicted == {}
  {
    hide LexLess, RouteNodes, StaticConflict, RouteConflict, ShareKey;
    Places(OLD);
    AllCompile();
    assert Faithful(Entry(OLD));
    ConflictsAre(START.store, OLD, {YOUNG});
    Shares();
    assert RouteConflicts(START.store, LISTENERS, OLD) == {};
  }

  lemma OldClaims() returns (s: State)
    ensures s == Step(WORLD, START, "old") && Inv(WORLD, Born, s)
    ensures s.queue == {"middle"} && s.losers == map[]
    ensures forall n, rc :: Has(s.store, n, rc) <==> n == NODE && rc in {Entry(OLD), Entry(YOUNG)}
  {
    hide Decide, NextStore, LexLess, RouteNodes, StaticConflict, RouteConflict;
    s := Step(WORLD, START, "old");
    StartOk();
    OldDecides();
    var d := Decide(START.store, LISTENERS, Lookup(WORLD, "old"));
    StepStoreOk(WORLD, Born, START, "old");
    StepInv(WORLD, Born, START, "old");
    forall n, rc
      ensures Has(s.store, n, rc) <==> n == NODE && rc in {Entry(OLD), Entry(YOUNG)}
    {
      assert Has(s.store, n, rc) <==> Left(START.store, "old", d, n, rc);
      assert n in d.nodes <==> n in NodeSet(d.nodes);
    }
  }

  lemma MiddleYieldsTo(store: Store)
    requires forall n, rc :: Has(store, n, rc) <==> n == NODE && rc in {Entry(OLD), Entry(YOUNG)}
    ensures Decide(store, LISTENERS, Some(MIDDLE)) == Yield({"old"})
  {
    hide LexLess, RouteNodes, StaticConflict, RouteConflict, ShareKey;
    Places(MIDDLE);
    AllCompile();
    assert Faithful(Entry(MIDDLE));
    ConflictsAre(store, MIDDLE, {OLD, YOUNG});
    Shares();
    var conflicts := RouteConflicts(store, LISTENERS, MIDDLE);
    assert Entry(OLD) in conflicts;
    assert OlderNames(conflicts, MIDDLE) == {"old"};
  }

  lemma MiddleYields(s: State) returns (next: State)
    requires Inv(WORLD, Born, s) && s.queue == {"middle"} && s.losers == map[]
    requires forall n, rc :: Has(s.store, n, rc) <==> n == NODE && rc in {Entry(OLD), Entry(YOUNG)}
    ensures next == Step(WORLD, s, "middle") && next.queue == {} && Stored(next.store, "young")
  {
    hide Decide, NextStore, LexLess, RouteNodes, StaticConflict, RouteConflict, Fresh, Covered;
    next := Step(WORLD, s, "middle");
    MiddleYieldsTo(s.store);
    var d := Decide(s.store, LISTENERS, Lookup(WORLD, "middle"));
    StepStoreOk(WORLD, Born, s, "middle");
    assert Has(next.store, NODE, Entry(YOUNG)) by { assert Left(s.store, "middle", d, NODE, Entry(YOUNG)); }
  }

  /** From one and the same state two drains of the queue end with different routes served. */
  lemma OrderCanMatter() returns (order: seq<string>, other: seq<string>)
    ensures Inv(WORLD, Born, START)
    ensures Dequeues(WORLD, START, order) && Drain(WORLD, START, order).queue == {}
    ensures Dequeues(WORLD, START, other) && Drain(WORLD, START, other).queue == {}
    ensures !Stored(Drain(WORLD, START, order).store, "young") && Stored(Drain(WORLD, START, other).store, "young")
  {
    StartOk();
    order := MiddleFirst();
    other := ["old", "middle"];
    OldFirst();
  }

  // ---------------------------------------------------------------- one pinned route

  /** The young route edited to a matcher that does not compile. */
  const YOUNG_INVALID := YOUNG.(generation := 2, spec := YOUNG.spec.(chainMatch := YOUNG.spec.chainMatch.(valid := false)))
  const PINNED := World(map["young" := YOUNG_INVALID], LISTENERS)
  const SETTLED := State(map[NODE := [Entry(YOUNG)]], map[], {})

  /**
   * The audit predicts nothing about a route that is pinned to its last good version: it serves only
   * routes that convert, here none, yet the controller, with nothing left to do, serves one.
   */
  lemma PinnedDisagrees()
    ensures Inv(PINNED, Born, SETTLED) && SETTLED.queue == {}
    ensures RouteAudit.InputOf(PINNED, [YOUNG_INVALID]) && RouteAudit.GreedyList(LISTENERS, [YOUNG_INVALID], [])
    ensures RouteAudit.AllRecast([]) && !RouteAudit.Predicts(PINNED, SETTLED.store, [])
  {
    AllCompile();
    hide LexLess, RouteNodes, StaticConflict, Faithful;
    forall n, rc | Has(SETTLED.store, n, rc)
      ensures rc == Entry(YOUNG)
    {
    }
    assert Broken(PINNED, "young");
    assert Has(SETTLED.store, NODE, Entry(YOUNG));
    assert Stored(SETTLED.store, "young");
    assert !RouteAudit.InServed([], PINNED.routes["young"]);
  }
}
