/** Draining the work queue through the mutable reconciler. */
module RouteQueue {
  import opened Prelude
  import opened Routes
  import opened RouteStore
  import opened Convergence
  import opened RouteRuns
  import opened RouteController
  import RouteTrace

  /** A stored entry of the same generation as the cluster's route has the same spec. */
  ghost predicate GenerationsAgree(w: World, store: Store) {
    forall name :: name in w.routes ==> GenerationFixesSpec(store, w.routes[name])
  }

  lemma StepGenerations(w: World, born: string -> nat, s: State, name: string)
    requires Inv(w, born, s) && GenerationsAgree(w, s.store)
    ensures GenerationsAgree(w, Step(w, s, name).store)
  {
    hide Decide, NextStore, NodeSafe, Uniform, Fresh, Covered, Eligible, LosersYounger, RouteNodes;
    StepStoreOk(w, born, s, name);
    ClaimsOwnEntry(s.store, w, born, name);
    var next := Step(w, s, name).store;
    forall x, n, rc | x in w.routes && Has(next, n, rc) && rc.route.name == w.routes[x].name
                      && rc.route.generation == w.routes[x].generation
      ensures rc.route.spec == w.routes[x].spec
    {
      assert Left(s.store, name, Decide(s.store, w.listeners, Lookup(w, name)), n, rc);
    }
  }

  /**
   * Reconciles queued routes, whichever comes up, until none is queued. It terminates, and if no
   * route with a broken spec was served at the start it leaves exactly the greedy placement.
   */
  method DrainQueue(r: RouteReconciler, w: World, queue: set<string>)
    requires Inv(w, r.born, State(r.configs, r.losers, queue))
    requires GenerationsAgree(w, r.configs)
    modifies r
    ensures Inv(w, r.born, State(r.configs, r.losers, {}))
    ensures NoBrokenStored(w, old(r.configs)) ==> MatchesGreedy(w, r.born, r.configs)
  {
    hide Inv, NoBrokenStored, Measure, Within, GenerationsAgree, Decide, NextStore, NextLosers, Requeued, RouteTrace.Told, RouteTrace.Follows, MatchesGreedy;
    var waiting := queue;
    ghost var all := Mentioned(State(r.configs, r.losers, queue));
    MentionedWithin(State(r.configs, r.losers, queue));
    while waiting != {}
      invariant Inv(w, r.born, State(r.configs, r.losers, waiting))
      invariant Within(all, State(r.configs, r.losers, waiting))
      invariant GenerationsAgree(w, r.configs)
      invariant NoBrokenStored(w, old(r.configs)) ==> NoBrokenStored(w, r.configs)
      decreases Measure(r.born, all, waiting)
    {
      ghost var s := State(r.configs, r.losers, waiting);
      var name :| name in waiting;
      ReadyToReconcile(w, r.born, s, name);
      var sent := |r.requeue|;
      var _ := r.Reconcile(name, if name in w.routes then Found(w.routes[name]) else Missing, w.listeners);
      waiting := waiting - {name} + (set x | x in r.requeue[sent..]);
      assert State(r.configs, r.losers, waiting) == Step(w, s, name);
      StepInv(w, r.born, s, name);
      QueueWithin(all, s, name);
      StepWithin(w, r.born, all, s, name);
      StepShrinks(w, r.born, all, s, name);
      StepGenerations(w, r.born, s, name);
      if NoBrokenStored(w, s.store) {
        StepNoBroken(w, r.born, s, name);
      }
    }
    DrainedIsGreedy(w, r.born, State(r.configs, r.losers, {}));
  }

  lemma ReadyToReconcile(w: World, born: string -> nat, s: State, name: string)
    requires Inv(w, born, s) && GenerationsAgree(w, s.store)
    ensures NodeSafe(s.store) && Uniform(s.store, born)
    ensures name in w.routes ==>
      w.routes[name].name == name && w.routes[name].created == born(name) && GenerationFixesSpec(s.store, w.routes[name])
  {
    hide NodeSafe, Uniform, Fresh, Covered, GenerationFixesSpec;
  }
}
