/** Whole runs of the RDS controller: every run terminates, and every drained run agrees with the greedy pass. */
module RouteRuns {
  import opened Prelude
  import opened Matching
  import opened Routes
  import opened RouteStore
  import opened Convergence

  // ---------------------------------------------------------------- runs with edits

  datatype Event =
    | Reconciled(name: string)
    | Edited(world: World, changed: set<string>)

  datatype Cluster = Cluster(world: World, state: State)

  function Apply(c: Cluster, e: Event): Cluster {
    match e
    case Reconciled(name) => Cluster(c.world, Step(c.world, c.state, name))
    case Edited(w, changed) => Cluster(w, c.state.(queue := c.state.queue + changed))
  }

  /** Edits keep names and creation times and are announced to the queue; anything may be reconciled. */
  ghost predicate LegalEvent(born: string -> nat, c: Cluster, e: Event) {
    e.Edited? ==> WellNamed(e.world, born) && Announced(c.world, e.world, e.changed)
  }

  ghost predicate LegalRun(born: string -> nat, c: Cluster, run: seq<Event>)
    decreases |run|
  {
    run == [] || (LegalEvent(born, c, run[0]) && LegalRun(born, Apply(c, run[0]), run[1..]))
  }

  function ApplyAll(c: Cluster, run: seq<Event>): Cluster
    decreases |run|
  {
    if run == [] then c else ApplyAll(Apply(c, run[0]), run[1..])
  }

  lemma {:induction false} RunInv(born: string -> nat, c: Cluster, run: seq<Event>)
    requires Inv(c.world, born, c.state) && LegalRun(born, c, run)
    ensures Inv(ApplyAll(c, run).world, born, ApplyAll(c, run).state)
    decreases |run|
  {
    hide Inv, Step, Announced;
    if run != [] {
      match run[0] {
        case Reconciled(name) => StepInv(c.world, born, c.state, name);
        case Edited(w, changed) => EditInv(c.world, w, born, c.state, changed);
      }
      RunInv(born, Apply(c, run[0]), run[1..]);
    }
  }

  /** A controller that just started: nothing served, nothing remembered, every route queued. */
  ghost predicate Fresh0(w: World, s: State) {
    s.store == map[] && s.losers == map[] && w.routes.Keys <= s.queue
  }

  lemma StartInv(w: World, born: string -> nat, s: State)
    requires WellNamed(w, born) && Fresh0(w, s)
    ensures Inv(w, born, s)
  {
    hide StaticConflict, RouteNodes, Compiles;
  }

  /**
   * Any run of edits and reconciles from a fresh start, in any order: whenever the queue is empty,
   * the placement is the greedy one of the current cluster exactly when no served route's current
   * spec fails to compile.
   */
  lemma EventuallyGreedy(born: string -> nat, c: Cluster, run: seq<Event>)
    requires WellNamed(c.world, born) && Fresh0(c.world, c.state) && LegalRun(born, c, run)
    requires ApplyAll(c, run).state.queue == {}
    ensures var end := ApplyAll(c, run);
      MatchesGreedy(end.world, born, end.state.store) <==> NoBrokenStored(end.world, end.state.store)
  {
    hide Inv, MatchesGreedy, NoBrokenStored;
    StartInv(c.world, born, c.state);
    RunInv(born, c, run);
    DrainedIsGreedy(ApplyAll(c, run).world, born, ApplyAll(c, run).state);
  }

  // ---------------------------------------------------------------- draining a fixed cluster

  /** Is every name still queued when its turn comes? */
  predicate Dequeues(w: World, s: State, order: seq<string>)
    decreases |order|
  {
    order == [] || (order[0] in s.queue && Dequeues(w, Step(w, s, order[0]), order[1..]))
  }

  function Drain(w: World, s: State, order: seq<string>): State
    decreases |order|
  {
    if order == [] then s else Drain(w, Step(w, s, order[0]), order[1..])
  }

  lemma {:induction false} DrainInv(w: World, born: string -> nat, s: State, order: seq<string>)
    requires Inv(w, born, s)
    ensures Inv(w, born, Drain(w, s, order))
    ensures NoBrokenStored(w, s.store) ==> NoBrokenStored(w, Drain(w, s, order).store)
    decreases |order|
  {
    hide Inv, Step, NoBrokenStored;
    if order != [] {
      StepInv(w, born, s, order[0]);
      if NoBrokenStored(w, s.store) {
        StepNoBroken(w, born, s, order[0]);
      }
      DrainInv(w, born, Step(w, s, order[0]), order[1..]);
    }
  }

  /** A reconcile never starts to serve a route whose spec does not compile. */
  lemma StepNoBroken(w: World, born: string -> nat, s: State, name: string)
    requires Inv(w, born, s) && NoBrokenStored(w, s.store)
    ensures NoBrokenStored(w, Step(w, s, name).store)
  {
    hide Decide, NextStore, Uniform, NodeSafe, Eligible, RouteNodes, LosersYounger, Fresh, Covered, Broken;
    StepStoreOk(w, born, s, name);
    ClaimsOwnEntry(s.store, w, born, name);
    var next := Step(w, s, name).store;
    forall x | Stored(next, x)
      ensures !Broken(w, x)
    {
      var n, rc :| Has(next, n, rc) && rc.route.name == x;
      if Eligible(w, x) {
        EligibleNotBroken(w, x);
      } else {
        assert Left(s.store, name, Decide(s.store, w.listeners, Lookup(w, name)), n, rc);
        assert Has(s.store, n, rc);
      }
    }
  }

  lemma EligibleNotBroken(w: World, name: string)
    requires Eligible(w, name)
    ensures !Broken(w, name)
  {
    hide RouteNodes, StaticConflict, Compile;
  }

  /** In any order, a drained queue leaves the greedy placement, provided no broken route is served at the start. */
  lemma DrainIsGreedy(w: World, born: string -> nat, s: State, order: seq<string>)
    requires Inv(w, born, s) && NoBrokenStored(w, s.store)
    requires Drain(w, s, order).queue == {}
    ensures MatchesGreedy(w, born, Drain(w, s, order).store)
  {
    hide Inv, MatchesGreedy, NoBrokenStored;
    DrainInv(w, born, s, order);
    DrainedIsGreedy(w, born, Drain(w, s, order));
  }

  /** Two controllers started on the same cluster end with the same entries on every node. */
  lemma OrderDoesNotMatter(w: World, born: string -> nat, s: State, order: seq<string>, other: seq<string>)
    requires WellNamed(w, born) && Fresh0(w, s)
    requires Drain(w, s, order).queue == {} && Drain(w, s, other).queue == {}
    ensures forall n, rc :: Has(Drain(w, s, order).store, n, rc) <==> Has(Drain(w, s, other).store, n, rc)
  {
    hide Inv, Target, Broken;
    StartInv(w, born, s);
    DrainIsGreedy(w, born, s, order);
    DrainIsGreedy(w, born, s, other);
  }

  // ---------------------------------------------------------------- draining terminates

  ghost function Younger(born: string -> nat, all: set<string>, name: string): set<string> {
    set x | x in all && Older(born, name, x)
  }

  ghost function Weight(born: string -> nat, all: set<string>, name: string): nat {
    Pow2(|Younger(born, all, name)|)
  }

  /** The queue read as a binary number whose higher digits belong to older routes. */
  ghost function Measure(born: string -> nat, all: set<string>, queue: set<string>): nat {
    if queue == {} then 0
    else
      var n :| n in queue;
      Weight(born, all, n) + Measure(born, all, queue - {n})
  }

  lemma {:induction false} MeasureWithout(born: string -> nat, all: set<string>, queue: set<string>, name: string)
    requires name in queue
    ensures Measure(born, all, queue) == Weight(born, all, name) + Measure(born, all, queue - {name})
    decreases |queue|
  {
    hide Weight;
    var n :| n in queue && Measure(born, all, queue) == Weight(born, all, n) + Measure(born, all, queue - {n});
    if n != name {
      MeasureWithout(born, all, queue - {n}, name);
      MeasureWithout(born, all, queue - {name}, n);
      assert queue - {n} - {name} == queue - {name} - {n};
    }
  }

  lemma {:induction false} MeasureUnion(born: string -> nat, all: set<string>, a: set<string>, b: set<string>)
    ensures Measure(born, all, a + b) <= Measure(born, all, a) + Measure(born, all, b)
    decreases |b|
  {
    hide Weight;
    if b == {} {
      assert a + b == a;
    } else {
      var n :| n in b;
      MeasureUnion(born, all, a, b - {n});
      MeasureWithout(born, all, b, n);
      if n in a {
        assert a + b == a + (b - {n});
      } else {
        MeasureWithout(born, all, a + b, n);
        assert a + b - {n} == a + (b - {n});
      }
    }
  }

  lemma {:induction false} Oldest(born: string -> nat, names: set<string>) returns (o: string)
    requires names != {}
    ensures o in names && forall x :: x in names && x != o ==> Older(born, o, x)
    decreases |names|
  {
    o :| o in names;
    if names != {o} {
      var p := Oldest(born, names - {o});
      OlderKeyTotal(born(o), o, born(p), p);
      if Older(born, p, o) {
        o := p;
      } else {
        forall x | x in names && x != o && x != p
          ensures Older(born, o, x)
        {
          assert x in names - {o};
          OlderKeyTransitive(born(o), o, born(p), p, born(x), x);
        }
      }
    }
  }

  lemma Pow2Monotone(a: nat, b: nat)
    requires a <= b
    ensures Pow2(a) <= Pow2(b)
  {
    Pow2Split(a, b - a);
    assert Pow2(a) * Pow2(b - a) >= Pow2(a) * 1;
  }

  /** All routes younger than one weigh less together than it does alone. */
  lemma {:induction false} YoungerWeighLess(born: string -> nat, all: set<string>, name: string, some: set<string>)
    requires some <= Younger(born, all, name)
    ensures Measure(born, all, some) < Weight(born, all, name)
    decreases |some|
  {
    hide LexLess;
    if some != {} {
      var o := Oldest(born, some);
      MeasureWithout(born, all, some, o);
      YoungerWeighLess(born, all, o, some - {o});
      forall x | x in Younger(born, all, o)
        ensures Older(born, name, x)
      {
        OlderKeyTransitive(born(name), name, born(o), o, born(x), x);
      }
      OlderKeyTotal(born(o), o, born(o), o);
      assert Younger(born, all, o) <= Younger(born, all, name) - {o};
      Cardinality(Younger(born, all, o), Younger(born, all, name) - {o});
      Pow2Monotone(|Younger(born, all, o)| + 1, |Younger(born, all, name)|);
    }
  }

  lemma {:induction false} Cardinality<T>(a: set<T>, b: set<T>)
    requires a <= b
    ensures |a| <= |b|
    decreases |a|
  {
    if a != {} {
      var x :| x in a;
      Cardinality(a - {x}, b - {x});
    }
  }

  /** The names a run can ever see. */
  ghost predicate Within(all: set<string>, s: State) {
    && s.queue <= all
    && (forall n :: Stored(s.store, n) ==> n in all)
    && (forall winner, loser :: loser in LosersOf(s.losers, winner) ==> loser in all)
  }

  /** Every name the state mentions. */
  ghost function Mentioned(s: State): set<string> {
    s.queue
    + (set n, rc | n in s.store && rc in s.store[n] :: rc.route.name)
    + (set winner, loser | winner in s.losers && loser in s.losers[winner] :: loser)
  }

  lemma MentionedWithin(s: State)
    ensures Within(Mentioned(s), s)
  {
    forall name | Stored(s.store, name)
      ensures name in Mentioned(s)
    {
      var n, rc :| Has(s.store, n, rc) && rc.route.name == name;
    }
  }

  lemma DecisionWithin(store: Store, listeners: map<string, Listener>, found: Option<Route>)
    ensures forall x :: x in Evicted(Decide(store, listeners, found)) ==> Stored(store, x)
  {
    hide RouteNodes, RouteConflict, StaticConflict, Compiles;
    if found.Some? && Decide(store, listeners, found).Claim? {
      forall x | x in Decide(store, listeners, found).evicted
        ensures Stored(store, x)
      {
        var rc :| rc in RouteConflicts(store, listeners, found.value) && rc.route.name == x;
      }
    }
  }

  lemma StepStored(w: World, born: string -> nat, s: State, name: string, x: string)
    requires Inv(w, born, s) && Stored(Step(w, s, name).store, x)
    ensures x == name || Stored(s.store, x)
  {
    hide Decide, NextStore, Uniform, NodeSafe, Fresh, Covered, LosersYounger, Eligible, RouteNodes;
    StepStoreOk(w, born, s, name);
    ClaimsOwnEntry(s.store, w, born, name);
    var n, rc :| Has(Step(w, s, name).store, n, rc) && rc.route.name == x;
    assert Left(s.store, name, Decide(s.store, w.listeners, Lookup(w, name)), n, rc);
  }

  lemma StepWithin(w: World, born: string -> nat, all: set<string>, s: State, name: string)
    requires Inv(w, born, s) && Within(all, s) && name in all
    ensures Within(all, Step(w, s, name))
    ensures Requeued(s.losers, name, Decide(s.store, w.listeners, Lookup(w, name))) <= all
  {
    hide Decide, NextStore, Inv, Stored;
    DecisionWithin(s.store, w.listeners, Lookup(w, name));
    forall x | Stored(Step(w, s, name).store, x)
      ensures x in all
    {
      StepStored(w, born, s, name, x);
    }
    forall winner, loser | loser in LosersOf(Step(w, s, name).losers, winner)
      ensures loser in all
    {
      assert loser in LosersOf(s.losers, winner) || loser == name;
    }
  }

  /** Every dequeued reconcile makes the queue strictly lighter. */
  lemma StepShrinks(w: World, born: string -> nat, all: set<string>, s: State, name: string)
    requires Inv(w, born, s) && Within(all, s) && name in s.queue
    ensures Measure(born, all, Step(w, s, name).queue) < Measure(born, all, s.queue)
  {
    hide Decide, NextStore, NodeSafe, Fresh, Covered, Uniform, Weight, Measure, Older;
    var enqueued := Requeued(s.losers, name, Decide(s.store, w.listeners, Lookup(w, name)));
    StepWithin(w, born, all, s, name);
    StepLosersOk(w, born, s, name);
    assert enqueued <= Younger(born, all, name);
    YoungerWeighLess(born, all, name, enqueued);
    MeasureWithout(born, all, s.queue, name);
    MeasureUnion(born, all, s.queue - {name}, enqueued);
  }

  /** No drain of a fixed cluster is longer than the weight of its queue. */
  lemma {:induction false} DrainBounded(w: World, born: string -> nat, all: set<string>, s: State, order: seq<string>)
    requires Inv(w, born, s) && Within(all, s) && Dequeues(w, s, order)
    ensures |order| <= Measure(born, all, s.queue)
    decreases |order|
  {
    hide Inv, Measure, Step, Within;
    if order != [] {
      StepInv(w, born, s, order[0]);
      QueueWithin(all, s, order[0]);
      StepWithin(w, born, all, s, order[0]);
      StepShrinks(w, born, all, s, order[0]);
      DrainBounded(w, born, all, Step(w, s, order[0]), order[1..]);
    }
  }

  lemma QueueWithin(all: set<string>, s: State, name: string)
    requires Within(all, s) && name in s.queue
    ensures name in all
  {
  }
}
