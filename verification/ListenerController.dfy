/** LDS: ListenerReconciler, which rebuilds a listener on its nodes from the served routes. */
module ListenerController {
  import opened Prelude
  import opened Routes
  import opened RouteStore
  import opened ListenerBuild
  import opened PendingListeners
  import opened Snapshots
  import opened Convergence

  /** Built listeners by node. */
  type Configs = map<NodeId, seq<EnvoyListener>>

  function On(configs: Configs, n: NodeId): seq<EnvoyListener> {
    if n in configs then configs[n] else []
  }

  function Named(list: seq<EnvoyListener>, name: string): seq<EnvoyListener>
    decreases |list|
  {
    if list == [] then []
    else Named(list[..|list| - 1], name) + (if list[|list| - 1].name == name then [list[|list| - 1]] else [])
  }

  function Others(list: seq<EnvoyListener>, name: string): seq<EnvoyListener>
    decreases |list|
  {
    if list == [] then []
    else Others(list[..|list| - 1], name) + (if list[|list| - 1].name != name then [list[|list| - 1]] else [])
  }

  lemma {:induction false} Members(list: seq<EnvoyListener>, name: string)
    ensures forall l :: l in Named(list, name) <==> l in list && l.name == name
    ensures forall l :: l in Others(list, name) <==> l in list && l.name != name
    decreases |list|
  {
    if list != [] {
      Members(list[..|list| - 1], name);
      assert list == list[..|list| - 1] + [list[|list| - 1]];
    }
  }

  predicate OnePerName(list: seq<EnvoyListener>) {
    forall i, j :: 0 <= i < j < |list| ==> list[i].name != list[j].name
  }

  lemma {:induction false} NoneNamed(list: seq<EnvoyListener>, name: string)
    requires forall k :: 0 <= k < |list| ==> list[k].name != name
    ensures Named(list, name) == [] && Others(list, name) == list
    decreases |list|
  {
    if list != [] {
      NoneNamed(list[..|list| - 1], name);
      assert list == list[..|list| - 1] + [list[|list| - 1]];
    }
  }

  lemma OthersTwice(list: seq<EnvoyListener>, name: string)
    ensures Others(Others(list, name), name) == Others(list, name) && Named(Others(list, name), name) == []
  {
    Members(list, name);
    var rest := Others(list, name);
    assert forall k :: 0 <= k < |rest| ==> rest[k] in rest;
    NoneNamed(rest, name);
  }

  lemma {:induction false} OthersOnePerName(list: seq<EnvoyListener>, name: string)
    requires OnePerName(list)
    ensures OnePerName(Others(list, name))
    decreases |list|
  {
    if list != [] {
      var init, last := list[..|list| - 1], list[|list| - 1];
      OthersOnePerName(init, name);
      Members(init, name);
      var rest := Others(init, name);
      forall i | 0 <= i < |rest|
        ensures rest[i].name != last.name
      {
        assert rest[i] in rest;
        var k :| 0 <= k < |init| && init[k] == rest[i];
        assert list[k] == rest[i];
      }
    }
  }

  lemma {:induction false} SplitAround(a: seq<EnvoyListener>, b: seq<EnvoyListener>, name: string)
    ensures Named(a + b, name) == Named(a, name) + Named(b, name)
    ensures Others(a + b, name) == Others(a, name) + Others(b, name)
    decreases |b|
  {
    if b == [] {
      assert a + b == a;
    } else {
      var init, last := b[..|b| - 1], b[|b| - 1];
      SplitAround(a, init, name);
      assert (a + b)[..|a + b| - 1] == a + init && (a + b)[|a + b| - 1] == last;
    }
  }

  /** A list whose only listener of the name stands between a and b. */
  lemma AroundOne(a: seq<EnvoyListener>, l: EnvoyListener, b: seq<EnvoyListener>)
    requires forall k :: 0 <= k < |a| ==> a[k].name != l.name
    requires forall k :: 0 <= k < |b| ==> b[k].name != l.name
    ensures Named(a + ([l] + b), l.name) == [l] && Others(a + ([l] + b), l.name) == a + b
  {
    hide Named, Others;
    NoneNamed(a, l.name);
    OneFirst(l, b);
    SplitAround(a, [l] + b, l.name);
    assert [] + [l] == [l];
  }

  lemma OneFirst(l: EnvoyListener, b: seq<EnvoyListener>)
    requires forall k :: 0 <= k < |b| ==> b[k].name != l.name
    ensures Named([l] + b, l.name) == [l] && Others([l] + b, l.name) == b
  {
    hide Named, Others;
    NoneNamed(b, l.name);
    OneAlone(l);
    SplitAround([l], b, l.name);
    assert [l] + [] == [l] && [] + b == b;
  }

  /** Replacing the only listener of a name. */
  lemma ReplacedAt(list: seq<EnvoyListener>, i: nat, l: EnvoyListener)
    requires OnePerName(list) && i < |list| && list[i].name == l.name
    ensures Named(list[i := l], l.name) == [l] && Others(list[i := l], l.name) == Others(list, l.name)
  {
    hide Named, Others;
    var a, b := list[..i], list[i + 1..];
    assert list == a + ([list[i]] + b) && list[i := l] == a + ([l] + b);
    forall k | 0 <= k < |b|
      ensures b[k].name != l.name
    {
      assert b[k] == list[i + 1 + k];
    }
    AroundOne(a, l, b);
    AroundOne(a, list[i], b);
  }

  lemma ReplacedOnePerName(list: seq<EnvoyListener>, i: nat, l: EnvoyListener)
    requires OnePerName(list) && i < |list| && list[i].name == l.name
    ensures OnePerName(list[i := l])
  {
  }

  lemma OneAlone(l: EnvoyListener)
    ensures Named([l], l.name) == [l] && Others([l], l.name) == []
  {
    assert [l][..0] == [];
  }

  lemma Appended(list: seq<EnvoyListener>, l: EnvoyListener)
    requires OnePerName(list) && forall k :: 0 <= k < |list| ==> list[k].name != l.name
    ensures OnePerName(list + [l])
    ensures Named(list + [l], l.name) == [l] && Others(list + [l], l.name) == Others(list, l.name)
  {
    hide Named, Others;
    NoneNamed(list, l.name);
    AroundOne(list, l, []);
    assert [l] + [] == [l] && list + [] == list;
  }

  /** The list with the name removed from position i on. */
  function Swept(list: seq<EnvoyListener>, i: nat, name: string): seq<EnvoyListener>
    requires i <= |list|
  {
    list[..i] + Others(list[i..], name)
  }

  lemma SweptStep(list: seq<EnvoyListener>, i: nat, name: string)
    requires i < |list|
    ensures
      var cur := Swept(list, i + 1, name);
      i < |cur| && cur[i] == list[i] &&
      Swept(list, i, name) == if list[i].name == name then cur[..i] + cur[i + 1..] else cur
  {
    assert list[i..] == [list[i]] + list[i + 1..];
    SplitAround([list[i]], list[i + 1..], name);
    assert [list[i]][..0] == [];
    assert list[..i + 1] == list[..i] + [list[i]];
  }

  lemma SweptEnds(list: seq<EnvoyListener>, name: string)
    ensures Swept(list, |list|, name) == list && Swept(list, 0, name) == Others(list, name)
  {
    assert list[0..] == list;
  }

  // ---------------------------------------------------------------- what a reconcile does to a node

  /** What reading the Listener gave. */
  datatype Read = Unreadable | Missing | Present(o: ListenerObject)

  datatype Verdict = Leave | Gone | Replace(l: EnvoyListener)

  /** What a node should hold of the listener afterwards. */
  ghost function Outcome(store: Store, n: NodeId, api: Read): Verdict {
    match api
    case Unreadable => Leave
    case Missing => Gone
    case Present(o) =>
      if n !in o.home || (!o.declared && RoutesFor(store, n, o.name) == []) then Gone
      else if Rebuilt(store, o, n).None? then Leave
      else Replace(Rebuilt(store, o, n).value)
  }

  function Left(v: Verdict, was: seq<EnvoyListener>): seq<EnvoyListener> {
    match v
    case Leave => was
    case Gone => []
    case Replace(l) => [l]
  }

  /** On a node, the listener is as decided and every other listener as before. */
  ghost predicate Settled(was: seq<EnvoyListener>, now: seq<EnvoyListener>, name: string, v: Verdict) {
    && Others(now, name) == Others(was, name)
    && Named(now, name) == Left(v, Named(was, name))
  }

  lemma SettledAgain(a: seq<EnvoyListener>, b: seq<EnvoyListener>, c: seq<EnvoyListener>, name: string, v: Verdict)
    requires Settled(a, b, name, v) && Settled(b, c, name, v)
    ensures Settled(a, c, name, v)
  {
  }

  /** A stored route attached to the listener has it among its listener names. */
  lemma AttachedIff(store: Store, born: string -> nat, n: NodeId, name: string)
    requires Uniform(store, born)
    ensures RoutesFor(store, n, name) != [] <==> exists rc :: Has(store, n, rc) && name in rc.listenerNames
  {
    hide Compiles, OlderRoute;
    RoutesForMembers(store, n, name);
    if RoutesFor(store, n, name) != [] {
      var r := RoutesFor(store, n, name)[0];
      assert r in RoutesFor(store, n, name);
      var rc :| Has(store, n, rc) && rc.route == r && name in r.spec.refs;
    }
    if rc :| Has(store, n, rc) && name in rc.listenerNames {
      assert rc.route in RoutesFor(store, n, name);
    }
  }

  /** When every node of a listener was settled by its own reconcile, the node's listeners are current. */
  lemma SettledIsCurrent(store: Store, objects: map<string, ListenerObject>, n: NodeId, list: seq<EnvoyListener>)
    requires forall l :: l in list ==> l.name in objects && n in objects[l.name].home
    requires forall name :: name in objects && n in objects[name].home ==>
      objects[name].name == name && Named(list, name) == match Rebuilt(store, objects[name], n) { case None => [] case Some(l) => [l] }
    ensures CurrentListeners(store, objects, n, list)
  {
    hide Rebuilt;
    forall l | l in list
      ensures Rebuilt(store, objects[l.name], n) == Some(l)
    {
      Members(list, l.name);
      assert l in Named(list, l.name);
    }
    forall name | name in objects && n in objects[name].home && Rebuilt(store, objects[name], n).Some?
      ensures Rebuilt(store, objects[name], n).value in list
    {
      Members(list, name);
      assert Rebuilt(store, objects[name], n).value in Named(list, name);
    }
  }

  /**
   * A listener that names no chains of its own but sets an empty list is left as it was when its last
   * route goes: the old copy, chains and all, stays on the node.
   */
  lemma EmptyListLeavesStale(store: Store, o: ListenerObject, n: NodeId, was: seq<EnvoyListener>, now: seq<EnvoyListener>)
    requires o.chains == [] && n in o.home && RoutesFor(store, n, o.name) == []
    requires o.declared && Settled(was, now, o.name, Outcome(store, n, Present(o)))
    ensures Named(now, o.name) == Named(was, o.name)
    ensures Outcome(store, n, Present(o.(declared := false))) == Gone
  {
  }

  // ---------------------------------------------------------------- rebuilding every listener

  /** What reading the named Listener gives. */
  function ApiOf(objects: map<string, ListenerObject>, name: string): Read {
    if name in objects then Present(objects[name]) else Missing
  }

  /** The listener is left as it is on one of its nodes: it has something to be built from and cannot be built. */
  ghost predicate Leaves(store: Store, o: ListenerObject, n: NodeId) {
    var routes := RoutesFor(store, n, o.name);
    && (o.declared || routes != [])
    && (!o.converts || !StaticsOk(o.chains) || (o.chains == [] && routes == []))
  }

  lemma LeaveIff(store: Store, o: ListenerObject, n: NodeId)
    requires n in o.home && WellDeclared(o)
    ensures Outcome(store, n, Present(o)) == Leave <==> Leaves(store, o, n)
    ensures Outcome(store, n, Present(o)) == Gone ==> Rebuilt(store, o, n).None?
  {
    hide RoutesFor, StaticsOk, Chains, Accepted, StaticMatchers;
  }

  /** Every listener has been reconciled against the store, whatever the order. */
  ghost predicate AllSettled(
      store: Store, objects: map<string, ListenerObject>, n: NodeId, was: seq<EnvoyListener>, now: seq<EnvoyListener>)
  {
    forall name :: Named(now, name) == Left(Outcome(store, n, ApiOf(objects, name)), Named(was, name))
  }

  /** No listener that is left as it is had a copy on the node. */
  ghost predicate NoneLeftStale(store: Store, objects: map<string, ListenerObject>, n: NodeId, was: seq<EnvoyListener>) {
    forall name :: name in objects && n in objects[name].home && Leaves(store, objects[name], n) ==> Named(was, name) == []
  }

  ghost predicate OwnNames(objects: map<string, ListenerObject>) {
    forall name :: name in objects ==> objects[name].name == name && WellDeclared(objects[name])
  }

  /** Once every listener has been reconciled the node's listeners are current exactly when none was left stale. */
  lemma CurrentIff(store: Store, objects: map<string, ListenerObject>, n: NodeId, was: seq<EnvoyListener>, now: seq<EnvoyListener>)
    requires OwnNames(objects) && AllSettled(store, objects, n, was, now)
    ensures CurrentListeners(store, objects, n, now) <==> NoneLeftStale(store, objects, n, was)
  {
    hide Rebuilt, Leaves, Named;
    if NoneLeftStale(store, objects, n, was) {
      forall l | l in now
        ensures l.name in objects && n in objects[l.name].home
      {
        Members(now, l.name);
        assert l in Named(now, l.name);
        SettledNames(store, objects, n, was, now, l.name);
      }
      forall name | name in objects && n in objects[name].home
        ensures Named(now, name) == match Rebuilt(store, objects[name], n) { case None => [] case Some(l) => [l] }
      {
        LeaveIff(store, objects[name], n);
      }
      SettledIsCurrent(store, objects, n, now);
    } else {
      var name :| name in objects && n in objects[name].home && Leaves(store, objects[name], n) && Named(was, name) != [];
      LeaveIff(store, objects[name], n);
      Members(now, name);
      var l := Named(now, name)[0];
      assert l in Named(now, name);
      if CurrentListeners(store, objects, n, now) {
        var other :| other in objects && n in objects[other].home && Rebuilt(store, objects[other], n) == Some(l);
        RebuiltName(store, objects[other], n);
      }
    }
  }

  lemma RebuiltName(store: Store, o: ListenerObject, n: NodeId)
    ensures Rebuilt(store, o, n).Some? ==> Rebuilt(store, o, n).value.name == o.name
  {
  }

  /** A listener that is still there belongs there, unless its copy was there and could not be read. */
  lemma SettledNames(
      store: Store, objects: map<string, ListenerObject>, n: NodeId, was: seq<EnvoyListener>, now: seq<EnvoyListener>, name: string)
    requires AllSettled(store, objects, n, was, now) && Named(now, name) != []
    ensures name in objects && n in objects[name].home
  {
    hide Rebuilt, Named, RoutesFor;
    assert Named(now, name) == Left(Outcome(store, n, ApiOf(objects, name)), Named(was, name));
  }

  /** Other names are not touched when one is settled. */
  lemma {:induction false} NamedOfOthers(list: seq<EnvoyListener>, name: string, other: string)
    requires name != other
    ensures Named(Others(list, name), other) == Named(list, other)
    decreases |list|
  {
    if list != [] {
      var init, last := list[..|list| - 1], list[|list| - 1];
      NamedOfOthers(init, name, other);
      var rest := Others(init, name);
      assert (rest + [last])[..|rest + [last]| - 1] == rest;
      assert rest + [] == rest && Named(init, other) + [] == Named(init, other);
    }
  }

  /** The listener's chain list is set but empty, and no route on the node attaches to it. */
  predicate Emptied(store: Store, o: ListenerObject, n: NodeId) {
    o.declared && o.chains == [] && RoutesFor(store, n, o.name) == []
  }

  /**
   * End to end: with the RDS queue drained and every listener reconciled since, the routes on a node
   * are exactly those its listeners ask for, if no listener with an empty chain list lost its last
   * route while a copy of it was there.
   */
  lemma DrainedRebuiltConsistent(
      w: World, born: string -> nat, s: State, objects: map<string, ListenerObject>, n: NodeId,
      was: seq<EnvoyListener>, now: seq<EnvoyListener>, used: set<string>)
    requires Inv(w, born, s) && s.queue == {} && NoBrokenStored(w, s.store)
    requires ListenersValid(w, objects) && OwnNames(objects)
    requires forall name :: name in w.routes ==> w.routes[name].spec.hcm.builds
    requires AllSettled(s.store, objects, n, was, now)
    requires forall name ::
      name in objects && n in objects[name].home && Emptied(s.store, objects[name], n) ==> Named(was, name) == []
    requires forall x :: x in used <==> Referenced(now, x)
    ensures Kept(NamesAt(At(s.store, n)), used) == NamesAt(At(s.store, n))
    ensures (set x | x in NamesAt(At(s.store, n))) == used
  {
    hide Inv, NoBrokenStored, CurrentListeners, Referenced, AllSettled, RoutesFor, StaticsOk, Named, Kept;
    CurrentIff(s.store, objects, n, was, now);
    DrainedSnapshotConsistent(w, born, s, objects, n, now, used);
  }

  // ---------------------------------------------------------------- the reconciler

  class ListenerReconciler {
    var configs: Configs
    var counter: nat

    ghost predicate Valid()
      reads this
    {
      forall n :: OnePerName(On(configs, n))
    }

    constructor ()
      ensures Valid() && configs == map[] && counter == 0
    {
      configs, counter := map[], 0;
    }

    method RemoveFrom(node: NodeId, name: string)
      modifies this
      ensures forall n :: On(configs, n) == if n == node then Others(On(old(configs), n), name) else On(old(configs), n)
      ensures old(counter) <= counter && (configs == old(configs) || old(counter) < counter)
    {
      hide Others, Swept;
      ghost var was, list := configs, On(configs, node);
      SweptEnds(list, name);
      var i := |On(configs, node)|;
      while i > 0
        invariant 0 <= i <= |list|
        invariant On(configs, node) == Swept(list, i, name)
        invariant forall n :: n != node ==> On(configs, n) == On(was, n)
        invariant old(counter) <= counter && (configs == was || old(counter) < counter)
      {
        i := i - 1;
        SweptStep(list, i, name);
        if configs[node][i].name == name {
          configs := configs[node := configs[node][..i] + configs[node][i + 1..]];
          counter := counter + 1;
        }
      }
    }

    /** One locked section: the listener leaves the nodes. */
    method RemoveListenerFromNodes(name: string, nodes: set<NodeId>)
      requires Valid()
      modifies this
      ensures Valid()
      ensures forall n :: On(configs, n) == if n in nodes then Others(On(old(configs), n), name) else On(old(configs), n)
      ensures old(counter) <= counter && (configs == old(configs) || old(counter) < counter)
    {
      hide Others, OnePerName;
      ghost var was := configs;
      var rest := nodes;
      while rest != {}
        invariant rest <= nodes
        invariant forall n :: On(configs, n) == if n in nodes && n !in rest then Others(On(was, n), name) else On(was, n)
        invariant old(counter) <= counter && (configs == was || old(counter) < counter)
      {
        var n :| n in rest;
        RemoveFrom(n, name);
        rest := rest - {n};
      }
      forall n
        ensures OnePerName(On(configs, n))
      {
        OthersOnePerName(On(was, n), name);
      }
    }

    /** One locked section: the listener is replaced where it stands, or added. */
    method UpdateListenerConfig(node: NodeId, l: EnvoyListener)
      requires Valid()
      modifies this
      ensures Valid()
      ensures forall n :: n != node ==> On(configs, n) == On(old(configs), n)
      ensures Named(On(configs, node), l.name) == [l]
      ensures Others(On(configs, node), l.name) == Others(On(old(configs), node), l.name)
      ensures old(counter) < counter
    {
      hide Others, Named, OnePerName;
      var list := On(configs, node);
      for i := 0 to |list|
        invariant configs == old(configs) && counter == old(counter)
        invariant forall j :: 0 <= j < i ==> list[j].name != l.name
      {
        if list[i].name == l.name {
          ReplacedAt(list, i, l);
          ReplacedOnePerName(list, i, l);
          configs := configs[node := list[i := l]];
          counter := counter + 1;
          assert forall n :: n != node ==> On(configs, n) == On(old(configs), n);
          return;
        }
      }
      Appended(list, l);
      configs := configs[node := list + [l]];
      counter := counter + 1;
      assert forall n :: n != node ==> On(configs, n) == On(old(configs), n);
    }

    /** Nodes where the listener is stored. */
    method PreviousNodes(name: string) returns (nodes: set<NodeId>)
      ensures forall n :: n in nodes <==> Named(On(configs, n), name) != []
    {
      nodes := {};
      var rest := configs.Keys;
      while rest != {}
        invariant rest <= configs.Keys
        invariant forall n :: n in nodes <==> n in configs && n !in rest && Named(On(configs, n), name) != []
      {
        var n :| n in rest;
        var found := false;
        for i := 0 to |configs[n]|
          invariant found <==> exists k :: 0 <= k < i && configs[n][k].name == name
        {
          if configs[n][i].name == name {
            found := true;
          }
        }
        NamedSome(configs[n], name);
        if found {
          nodes := nodes + {n};
        }
        rest := rest - {n};
      }
    }

    /** Does any route on the nodes attach to the listener? */
    method HasRoutesFor(store: Store, name: string, nodes: seq<NodeId>) returns (some: bool)
      ensures some <==> exists n, rc :: n in nodes && Has(store, n, rc) && name in rc.listenerNames
    {
      for i := 0 to |nodes|
        invariant forall n, rc :: n in nodes[..i] && Has(store, n, rc) ==> name !in rc.listenerNames
      {
        var list := At(store, nodes[i]);
        for j := 0 to |list|
          invariant forall k :: 0 <= k < j ==> name !in list[k].listenerNames
        {
          if name in list[j].listenerNames {
            assert Has(store, nodes[i], list[j]);
            return true;
          }
        }
        assert nodes[..i + 1] == nodes[..i] + [nodes[i]];
      }
      assert nodes[..|nodes|] == nodes;
      return false;
    }

    /** The Envoy listener for a node, or an error. */
    static method ListenerRecast(o: ListenerObject, routes: seq<Route>) returns (l: Option<EnvoyListener>)
      ensures l == if !o.converts || (o.chains == [] && routes == []) then None
                   else match ListenerChains(o.chains, routes, o.quic)
                        case None => None
                        case Some(chains) => Some(EnvoyListener(o.name, chains, None))
      ensures l.Some? ==> StaticsCompile(o.chains)
      ensures l.Some? ==>
        AddsCarriers(l.value.chains, o.chains, Accepted(StaticMatchers(o.chains), routes), o.quic)
    {
      hide ListenerChains, Accepted, StaticMatchers, Separate, AddsCarriers;
      ChainsCarry(o.chains, routes, o.quic);
      if !o.converts || (|routes| == 0 && |o.chains| == 0) {
        return None;
      }
      var objects: seq<RouteObject> := [];
      for i := 0 to |routes|
        invariant |objects| == i && forall k :: 0 <= k < i ==> objects[k].route == routes[k]
      {
        var r := new RouteObject(routes[i]);
        objects := objects + [r];
      }
      assert RoutesOf(objects) == routes;
      var chains := ProcessRoutes(objects, o.chains, o.quic, null);
      return if chains.None? then None else Some(EnvoyListener(o.name, chains.value, None));
    }

    /** Rebuilds the listener on one of its nodes. */
    method RebuildOn(node: NodeId, o: ListenerObject, store: Store)
      requires Valid() && node in o.home
      modifies this
      ensures Valid()
      ensures forall n :: n != node ==> On(configs, n) == On(old(configs), n)
      ensures Settled(On(old(configs), node), On(configs, node), o.name, Outcome(store, node, Present(o)))
      ensures old(counter) <= counter && (configs == old(configs) || old(counter) < counter)
    {
      hide Others, Named, OnePerName, RoutesFor, ListenerChains;
      var routes := GetRoutesForNode(store, node, o.name);
      if !o.declared && |routes| == 0 {
        OthersTwice(On(configs, node), o.name);
        RemoveListenerFromNodes(o.name, {node});
        return;
      }
      var l := ListenerRecast(o, routes);
      if l.Some? {
        UpdateListenerConfig(node, l.value);
      }
    }

    /**
     * One reconcile of the named listener. Every node ends up as decided, other listeners are not
     * touched, and unless the Listener could not be read the pending mark found at the start is
     * cleared, but not one placed since.
     */
    method Reconcile(name: string, key: string, ready: bool, api: Read, store: Store, ghost born: string -> nat,
                     status: ReconciliationStatus)
      returns (ok: bool)
      requires Valid() && Uniform(store, born)
      requires api.Present? ==> api.o.name == name && WellDeclared(api.o)
      modifies this, status
      ensures Valid()
      ensures ok <==> ready && !api.Unreadable?
      ensures !ok ==> configs == old(configs) && status.State() == old(status.State())
      ensures ok ==> forall n :: Settled(On(old(configs), n), On(configs, n), name, Outcome(store, n, api))
      ensures ok ==> status.State() == ClearPending(old(status.State()), key, TokenOf(old(status.State()), key))
      ensures old(counter) <= counter && (configs == old(configs) || old(counter) < counter)
    {
      if !ready {
        return false;
      }
      var token := status.ListenerPendingSeq(key);
      if api.Unreadable? {
        return false;
      }
      Rebuild(name, api, store, born);
      status.ClearListenerPending(key, token);
      return true;
    }

    method Rebuild(name: string, api: Read, store: Store, ghost born: string -> nat)
      requires Valid() && Uniform(store, born) && !api.Unreadable?
      requires api.Present? ==> api.o.name == name && WellDeclared(api.o)
      modifies this
      ensures Valid()
      ensures forall n :: Settled(On(old(configs), n), On(configs, n), name, Outcome(store, n, api))
      ensures old(counter) <= counter && (configs == old(configs) || old(counter) < counter)
    {
      hide Others, Named, OnePerName, Uniform, Has, Settled, Outcome, RoutesFor;
      ghost var was := configs;
      var previous := PreviousNodes(name);
      GoneWhereNamed(was, previous, name);
      if api.Missing? {
        OutcomeGone(store, api);
        RemoveListenerFromNodes(name, previous);
        return;
      }
      var o := api.o;
      var some := HasRoutesFor(store, name, o.home);
      if !api.o.declared && !some {
        NothingAttached(store, born, o.home, name);
        OutcomeGone(store, api);
        RemoveListenerFromNodes(name, previous);
        return;
      }
      OutcomeGone(store, api);
      var leaving := set n | n in previous && n !in o.home;
      RemoveListenerFromNodes(name, leaving);
      RebuildNodes(o, store, was);
    }

    /** Rebuilds the listener on all of its nodes; it has already left the others. */
    method RebuildNodes(o: ListenerObject, store: Store, ghost was: Configs)
      requires Valid()
      requires forall n :: n in o.home ==> On(configs, n) == On(was, n)
      requires forall n :: n !in o.home ==>
        Settled(On(was, n), On(configs, n), o.name, Outcome(store, n, Present(o)))
      modifies this
      ensures Valid()
      ensures forall n :: Settled(On(was, n), On(configs, n), o.name, Outcome(store, n, Present(o)))
      ensures old(counter) <= counter && (configs == old(configs) || old(counter) < counter)
    {
      hide Settled, Outcome, OnePerName;
      ghost var api := Present(o);
      for i := 0 to |o.home|
        invariant Valid()
        invariant forall n :: n in o.home && n !in o.home[..i] ==> On(configs, n) == On(was, n)
        invariant forall n :: n in o.home[..i] || n !in o.home ==>
          Settled(On(was, n), On(configs, n), o.name, Outcome(store, n, api))
        invariant old(counter) <= counter && (configs == old(configs) || old(counter) < counter)
      {
        ghost var before := configs;
        var node := o.home[i];
        RebuildOn(node, o, store);
        if node in o.home[..i] {
          SettledAgain(On(was, node), On(before, node), On(configs, node), o.name, Outcome(store, node, api));
        }
        assert o.home[..i + 1] == o.home[..i] + [node];
      }
      assert o.home[..|o.home|] == o.home;
    }
  }

  /** Where the listener has nothing to be built from, or does not belong, it goes. */
  lemma OutcomeGone(store: Store, api: Read)
    ensures api.Missing? ==> forall n :: Outcome(store, n, api) == Gone
    ensures api.Present? ==> forall n :: n !in api.o.home ==> Outcome(store, n, api) == Gone
    ensures api.Present? && !api.o.declared && (forall n :: n in api.o.home ==> RoutesFor(store, n, api.o.name) == []) ==>
      forall n :: Outcome(store, n, api) == Gone
  {
    hide RoutesFor, Rebuilt;
  }

  lemma NothingAttached(store: Store, born: string -> nat, nodes: seq<NodeId>, name: string)
    requires Uniform(store, born)
    requires !exists n, rc :: n in nodes && Has(store, n, rc) && name in rc.listenerNames
    ensures forall n :: n in nodes ==> RoutesFor(store, n, name) == []
  {
    hide Uniform, RoutesFor;
    forall n | n in nodes
      ensures RoutesFor(store, n, name) == []
    {
      AttachedIff(store, born, n, name);
    }
  }

  /** What settling one listener does to each: that one is decided, the others are as before. */
  lemma SettleOne(
      store: Store, objects: map<string, ListenerObject>, n: NodeId, was: seq<EnvoyListener>, before: seq<EnvoyListener>,
      now: seq<EnvoyListener>, done: set<string>, name: string)
    requires name !in done && Settled(before, now, name, Outcome(store, n, ApiOf(objects, name)))
    requires SettledFor(store, objects, n, was, before, done)
    ensures SettledFor(store, objects, n, was, now, done + {name})
  {
    hide Outcome, Named, Others;
    forall x
      ensures Named(now, x) == if x in done + {name} then Left(Outcome(store, n, ApiOf(objects, x)), Named(was, x)) else Named(was, x)
    {
      if x != name {
        NamedOfOthers(before, name, x);
        NamedOfOthers(now, name, x);
      }
    }
  }

  ghost predicate SettledFor(
      store: Store, objects: map<string, ListenerObject>, n: NodeId, was: seq<EnvoyListener>, now: seq<EnvoyListener>, done: set<string>)
  {
    forall x ::
      Named(now, x) == if x in done then Left(Outcome(store, n, ApiOf(objects, x)), Named(was, x)) else Named(was, x)
  }

  /** Names nobody knows have no listener, so all are settled. */
  lemma SettledForAll(
      store: Store, objects: map<string, ListenerObject>, n: NodeId, was: seq<EnvoyListener>, now: seq<EnvoyListener>, names: set<string>)
    requires SettledFor(store, objects, n, was, now, names)
    requires objects.Keys <= names && forall l :: l in was ==> l.name in names
    ensures AllSettled(store, objects, n, was, now)
  {
    hide Named;
    forall x | x !in names
      ensures Named(was, x) == [] && Outcome(store, n, ApiOf(objects, x)) == Gone
    {
      Members(was, x);
      if Named(was, x) != [] {
        assert Named(was, x)[0] in Named(was, x);
      }
    }
  }

  /**
   * Reconciles every known and every stored listener, in whatever order, against one store. Then a
   * node's listeners are current exactly when no listener there was left as it was with a copy.
   */
  method RebuildAll(r: ListenerReconciler, names: set<string>, objects: map<string, ListenerObject>, store: Store,
                    ghost born: string -> nat, status: ReconciliationStatus)
    requires r.Valid() && Uniform(store, born) && OwnNames(objects)
    requires objects.Keys <= names && forall n, l :: l in On(r.configs, n) ==> l.name in names
    modifies r, status
    ensures r.Valid()
    ensures forall n :: AllSettled(store, objects, n, old(On(r.configs, n)), On(r.configs, n))
    ensures forall n ::
      CurrentListeners(store, objects, n, On(r.configs, n)) <==> NoneLeftStale(store, objects, n, old(On(r.configs, n)))
  {
    hide Outcome, Settled, Uniform, Named, OnePerName, SettledFor, CurrentListeners, NoneLeftStale, AllSettled;
    ghost var was := r.configs;
    var rest := names;
    ghost var done: set<string> := {};
    forall n
      ensures SettledFor(store, objects, n, On(was, n), On(was, n), {})
    {
      SettledForNone(store, objects, n, On(was, n));
    }
    while rest != {}
      invariant r.Valid() && done + rest == names && done !! rest
      invariant forall n :: SettledFor(store, objects, n, On(was, n), On(r.configs, n), done)
    {
      var name :| name in rest;
      ghost var before := r.configs;
      var _ := r.Reconcile(name, name, true, ApiOf(objects, name), store, born, status);
      forall n
        ensures SettledFor(store, objects, n, On(was, n), On(r.configs, n), done + {name})
      {
        SettleOne(store, objects, n, On(was, n), On(before, n), On(r.configs, n), done, name);
      }
      rest, done := rest - {name}, done + {name};
    }
    assert done == names;
    forall n
      ensures AllSettled(store, objects, n, On(was, n), On(r.configs, n))
      ensures CurrentListeners(store, objects, n, On(r.configs, n)) <==> NoneLeftStale(store, objects, n, On(was, n))
    {
      SettledForAll(store, objects, n, On(was, n), On(r.configs, n), names);
      CurrentIff(store, objects, n, On(was, n), On(r.configs, n));
    }
  }

  lemma SettledForNone(store: Store, objects: map<string, ListenerObject>, n: NodeId, was: seq<EnvoyListener>)
    ensures SettledFor(store, objects, n, was, was, {})
  {
  }

  lemma NamedSome(list: seq<EnvoyListener>, name: string)
    ensures Named(list, name) != [] <==> exists k :: 0 <= k < |list| && list[k].name == name
  {
    Members(list, name);
    if k :| 0 <= k < |list| && list[k].name == name {
      assert list[k] in Named(list, name);
    }
    if Named(list, name) != [] {
      assert Named(list, name)[0] in Named(list, name);
    }
  }

  /** Removing the name from every node that has it leaves no node with it. */
  lemma GoneWhereNamed(configs: Configs, nodes: set<NodeId>, name: string)
    requires forall n :: n in nodes <==> Named(On(configs, n), name) != []
    ensures forall n :: Settled(On(configs, n), if n in nodes then Others(On(configs, n), name) else On(configs, n), name, Gone)
  {
    forall n
      ensures Settled(On(configs, n), if n in nodes then Others(On(configs, n), name) else On(configs, n), name, Gone)
    {
      OthersTwice(On(configs, n), name);
    }
  }
}
