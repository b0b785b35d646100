/** RouteReconciler: the mutable route store, its locked sections, and the reconcile loop. */
module RouteController {
  import opened Prelude
  import opened Matching
  import opened Sorting
  import opened Routes
  import opened RouteStore
  import opened Convergence
  import opened RouteRuns
  import opened RouteTrace

  // ---------------------------------------------------------------- list facts

  lemma {:induction false} KeepTwice(list: seq<RouteConfig>, a: set<string>, b: set<string>)
    ensures Keep(Keep(list, a), b) == Keep(list, a + b)
  {
    if list != [] {
      KeepTwice(list[1..], a, b);
      var rest := Keep(list[1..], a);
      if list[0].route.name !in a {
        assert ([list[0]] + rest)[1..] == rest;
      } else {
        assert [] + rest == rest;
      }
    }
  }

  lemma {:induction false} KeepAll(list: seq<RouteConfig>, gone: set<string>)
    requires forall rc :: rc in list ==> rc.route.name !in gone
    ensures Keep(list, gone) == list
  {
    if list != [] {
      assert list[0] in list;
      KeepAll(list[1..], gone);
      assert list == [list[0]] + list[1..];
    }
  }

  /** Deleting the one entry of a name is the same as keeping all others. */
  lemma {:induction false} DeleteIsKeep(list: seq<RouteConfig>, i: nat)
    requires UniqueNames(list) && i < |list|
    ensures list[..i] + list[i + 1..] == Keep(list, {list[i].route.name})
  {
    if i == 0 {
      forall rc | rc in list[1..]
        ensures rc.route.name !in {list[0].route.name}
      {
        var k :| 1 <= k < |list| && list[k] == rc;
      }
      KeepAll(list[1..], {list[0].route.name});
      assert list[..0] + list[1..] == list[1..];
    } else {
      DeleteIsKeep(list[1..], i - 1);
      assert list[..i] + list[i + 1..] == [list[0]] + (list[1..][..i - 1] + list[1..][i..]);
    }
  }

  /** Removing in two sections is removing at once; the names and the nodes may grow separately. */
  lemma RemoveTwice(store: Store, a: set<string>, b: set<string>, nodes: set<NodeId>)
    ensures Remove(Remove(store, a, nodes), b, nodes) == Remove(store, a + b, nodes)
  {
    forall n | n in store && n in nodes {
      KeepTwice(store[n], a, b);
    }
  }

  lemma RemoveMoreNodes(store: Store, gone: set<string>, a: set<NodeId>, b: set<NodeId>)
    ensures Remove(Remove(store, gone, a), gone, b) == Remove(store, gone, a + b)
  {
    assert gone + gone == gone;
    forall n | n in store
      ensures Keep(Keep(store[n], gone), gone) == Keep(store[n], gone)
    {
      KeepTwice(store[n], gone, gone);
    }
  }

  /** Nodes that do not store the names need no removal. */
  lemma RemoveWhereStored(store: Store, gone: set<string>, a: set<NodeId>, b: set<NodeId>)
    requires forall n, rc :: Has(store, n, rc) && rc.route.name in gone ==> (n in a <==> n in b)
    ensures Remove(store, gone, a) == Remove(store, gone, b)
  {
    forall n | n in store && (n in a) != (n in b)
      ensures Keep(store[n], gone) == store[n]
    {
      forall rc | rc in store[n]
        ensures rc.route.name !in gone
      {
        assert Has(store, n, rc);
      }
      KeepAll(store[n], gone);
    }
  }

  lemma RemoveAtNode(store: Store, n: NodeId, name: string, list: seq<RouteConfig>)
    requires n in store && list == Keep(store[n], {name})
    ensures store[n := list] == Remove(store, {name}, {n})
  {
  }

  lemma RemoveNothing(store: Store, n: NodeId, name: string)
    requires forall rc :: rc in At(store, n) ==> rc.route.name != name
    ensures Remove(store, {name}, {n}) == store
  {
    if n in store {
      KeepAll(store[n], {name});
    }
  }

  /** Is the listener named by an entry of the route on one of the nodes? */
  ghost predicate Names(store: Store, nodes: set<NodeId>, name: string, l: string) {
    exists n, rc :: n in nodes && Has(store, n, rc) && rc.route.name == name && l in rc.listenerNames
  }

  lemma NamesAtEntry(store: Store, n: NodeId, i: nat)
    requires n in store && i < |store[n]| && UniqueNames(store[n])
    ensures forall l :: Names(store, {n}, store[n][i].route.name, l) <==> l in store[n][i].listenerNames
  {
    var rc := store[n][i];
    assert Has(store, n, rc);
    forall x | Has(store, n, x) && x.route.name == rc.route.name
      ensures x == rc
    {
      var k :| 0 <= k < |store[n]| && store[n][k] == x;
    }
  }

  // ---------------------------------------------------------------- name lists

  predicate NameLess(a: string, b: string) {
    LexLess(Codes(a), Codes(b))
  }

  lemma NameLessTotal()
    ensures TotalOrder(NameLess)
  {
    forall x, y
      ensures NameLess(x, y) || NameLess(y, x) || x == y
      ensures NameLess(x, y) ==> !NameLess(y, x)
    {
      OlderKeyTotal(0, x, 0, y);
    }
    forall x, y, z | NameLess(x, z)
      ensures NameLess(x, y) || NameLess(y, z)
    {
      OlderKeyTotal(0, x, 0, y);
      if NameLess(y, x) {
        OlderKeyTransitive(0, y, 0, x, 0, z);
      }
    }
  }

  function Compact(s: seq<string>): (c: seq<string>)
    ensures forall x :: x in c <==> x in s
  {
    if |s| < 2 then s
    else if s[0] == s[1] then Compact(s[1..])
    else [s[0]] + Compact(s[1..])
  }

  /** The union of two name lists, sorted and without repeats. */
  function MergeNames(a: seq<string>, b: seq<string>): (c: seq<string>)
    ensures forall x :: x in c <==> x in a || x in b
  {
    MergeKeeps(a, b);
    Compact(Sort(NameLess, a + b))
  }

  lemma MergeKeeps(a: seq<string>, b: seq<string>)
    ensures forall x :: x in Sort(NameLess, a + b) <==> x in a || x in b
  {
    NameLessTotal();
    SortSorts(NameLess, a + b);
    SameElements(Sort(NameLess, a + b), a + b);
  }

  lemma {:induction false} CompactInOrder(s: seq<string>)
    requires Sorted(NameLess, s)
    ensures forall i, j :: 0 <= i < j < |Compact(s)| ==> NameLess(Compact(s)[i], Compact(s)[j])
  {
    hide NameLess;
    if |s| >= 2 {
      NameLessTotal();
      CompactInOrder(s[1..]);
      var rest := Compact(s[1..]);
      if s[0] != s[1] {
        forall j | 0 <= j < |rest|
          ensures NameLess(s[0], rest[j])
        {
          assert rest[j] in rest && rest[j] in s[1..];
          var k :| 1 <= k < |s| && s[k] == rest[j];
          assert !NameLess(s[1], s[0]) && !NameLess(s[k], s[1]) && !NameLess(s[k], s[0]);
          assert NameLess(s[0], s[1]);
        }
      }
    }
  }

  /** The merged list is in order, and so without repeats. */
  lemma MergedInOrder(a: seq<string>, b: seq<string>)
    ensures forall i, j :: 0 <= i < j < |MergeNames(a, b)| ==> ComesFirst(MergeNames(a, b)[i], MergeNames(a, b)[j])
  {
    NameLessTotal();
    SortSorts(NameLess, a + b);
    CompactInOrder(Sort(NameLess, a + b));
    forall i, j | 0 <= i < j < |MergeNames(a, b)|
      ensures ComesFirst(MergeNames(a, b)[i], MergeNames(a, b)[j])
    {
      NamesCompare(MergeNames(a, b)[i], MergeNames(a, b)[j]);
    }
  }

  // ---------------------------------------------------------------- the age order on entries

  predicate OlderEntry(a: RouteConfig, b: RouteConfig) {
    OlderRoute(a.route, b.route)
  }

  lemma OlderEntryWeakOrder()
    ensures WeakOrder(OlderEntry)
  {
    forall x: RouteConfig, y: RouteConfig
      ensures OlderEntry(x, y) ==> !OlderEntry(y, x)
    {
      OlderKeyTotal(x.route.created, x.route.name, y.route.created, y.route.name);
    }
    forall x: RouteConfig, y: RouteConfig, z: RouteConfig | OlderEntry(x, z)
      ensures OlderEntry(x, y) || OlderEntry(y, z)
    {
      OlderKeyTotal(x.route.created, x.route.name, y.route.created, y.route.name);
      if OlderEntry(y, x) {
        OlderKeyTransitive(y.route.created, y.route.name, x.route.created, x.route.name, z.route.created, z.route.name);
      }
    }
  }

  // ---------------------------------------------------------------- the reconciler

  /** The outcome of reading the Route object. */
  datatype Read = Failed | Missing | Found(route: Route)

  function FoundRoute(api: Read): Option<Route> {
    if api.Found? then Some(api.route) else None
  }

  /** The nodes, listeners and generation of a route's stored entries. */
  datatype Placement = Placement(nodes: set<NodeId>, listeners: seq<string>, generation: int) {
    predicate Same(current: set<NodeId>, names: seq<string>, gen: int) {
      generation == gen && nodes == current && listeners == MergeNames(names, [])
    }
  }

  class RouteReconciler {
    var configs: Store
    var losers: Losers
    /** Routes sent to the requeue channel. */
    var requeue: seq<string>
    /** Listeners marked pending and sent to LDS. */
    var notified: seq<string>
    /** The config counter the publisher watches. */
    var counter: nat
    /** Every locked write section and every mark, in order. */
    ghost var trace: seq<TraceEvent>
    ghost const born: string -> nat

    ghost predicate Valid()
      reads this
    {
      NodeSafe(configs) && Uniform(configs, born)
    }

    ghost function Now(): Held
      reads this
    {
      Held(configs, counter)
    }

    constructor (ghost born: string -> nat)
      ensures Valid() && configs == map[] && losers == map[] && requeue == [] && notified == [] && trace == [] && counter == 0
      ensures this.born == born
    {
      configs, losers, requeue, notified := map[], map[], [], [];
      counter, trace := 0, [];
      this.born := born;
    }

    method RemoveRouteLocked(node: NodeId, name: string, listeners: seq<string>) returns (merged: seq<string>)
      requires NamesOnce(configs)
      modifies this`configs, this`counter
      ensures configs == Remove(old(configs), {name}, {node})
      ensures old(counter) <= counter && (configs != old(configs) ==> old(counter) < counter)
      ensures forall l :: l in merged <==> l in listeners || Names(old(configs), {node}, name, l)
    {
      hide Remove, Names, Keep, MergeNames;
      var routes := At(configs, node);
      AtOnce(configs, node);
      for i := 0 to |routes|
        invariant configs == old(configs) && counter == old(counter)
        invariant forall j :: 0 <= j < i ==> routes[j].route.name != name
      {
        if routes[i].route.name == name {
          DeleteIsKeep(routes, i);
          RemoveAtNode(configs, node, name, routes[..i] + routes[i + 1..]);
          NamesAtEntry(configs, node, i);
          configs := configs[node := routes[..i] + routes[i + 1..]];
          counter := counter + 1;
          merged := MergeNames(listeners, routes[i].listenerNames);
          return;
        }
      }
      assert forall rc :: rc in routes ==> rc.route.name != name;
      RemoveNothing(configs, node, name);
      NobodyNamed(configs, node, name);
      return listeners;
    }

    /** One locked section: the route leaves the given nodes. */
    method RemoveRouteFromNodes(name: string, nodes: set<NodeId>) returns (listeners: seq<string>)
      requires NodeSafe(configs) && RefsListed(configs)
      modifies this`configs, this`counter, this`trace
      ensures configs == Remove(old(configs), {name}, nodes)
      ensures NodeSafe(configs) && RefsListed(configs)
      ensures trace == old(trace) + if nodes == {} then [] else [Section(Removal(name, nodes), Now())]
      ensures Follows(old(trace), old(Now()), trace, Now(), set l | l in listeners)
      ensures forall l :: l in listeners <==> Names(old(configs), nodes, name, l)
    {
      listeners := [];
      FollowsNothing(trace, Now());
      if nodes == {} {
        KeepNowhere(configs, {name});
        assert (set l: string | l in listeners) == {};
        return;
      }
      var rest := nodes;
      ghost var done: set<NodeId> := {};
      KeepNowhere(configs, {name});
      while rest != {}
        invariant done + rest == nodes && done !! rest
        invariant configs == Remove(old(configs), {name}, done)
        invariant NamesOnce(configs)
        invariant forall l :: l in listeners <==> Names(old(configs), done, name, l)
        invariant trace == old(trace)
        invariant old(counter) <= counter && (configs != old(configs) ==> old(counter) < counter)
      {
        hide Remove, UniqueNames, NodeSafe, Follows;
        var n :| n in rest;
        rest := rest - {n};
        ghost var before := configs;
        listeners := RemoveRouteLocked(n, name, listeners);
        RemoveMoreNodes(old(configs), {name}, done, {n});
        RemoveNamesOnce(before, {name}, {n});
        NamesElsewhere(old(configs), done, n, name);
        done := done + {n};
      }
      hide Remove, UniqueNames, NodeSafe, Follows, Told, Names;
      RemoveSafe(old(configs), {name}, nodes);
      RemovedListed(old(configs), {name}, nodes);
      trace := trace + [Section(Removal(name, nodes), Now())];
      RemovedFromTold(old(configs), name, nodes, listeners);
      FollowsSection(old(trace), old(Now()), old(trace), old(Now()), {}, Removal(name, nodes), Now(), set l | l in listeners);
      assert {} + (set l | l in listeners) == set l | l in listeners;
    }

    /** One locked section: the route leaves every node. */
    method RemoveRouteEverywhere(name: string) returns (listeners: seq<string>)
      requires NodeSafe(configs) && RefsListed(configs)
      modifies this`configs, this`counter, this`trace
      ensures configs == Remove(old(configs), {name}, old(configs).Keys)
      ensures NodeSafe(configs) && RefsListed(configs)
      ensures Follows(old(trace), old(Now()), trace, Now(), set l | l in listeners)
      ensures forall l :: l in listeners <==> Names(old(configs), old(configs).Keys, name, l)
    {
      listeners := RemoveRouteFromNodes(name, configs.Keys);
    }

    /** One locked section: the route's entry on a node is replaced or appended. */
    method UpdateRouteConfig(node: NodeId, rc: RouteConfig) returns (updated: bool)
      modifies this`configs, this`counter, this`trace
      ensures configs == old(configs)[node := PutEntry(At(old(configs), node), rc)]
      ensures counter == old(counter) + 1
      ensures trace == old(trace) + [Section(Write(node, rc), Now())]
      ensures updated <==> exists x :: x in At(old(configs), node) && x.route.name == rc.route.name
    {
      counter := counter + 1;
      var list := At(configs, node);
      for i := 0 to |list|
        invariant configs == old(configs) && trace == old(trace) && counter == old(counter) + 1
        invariant forall j :: 0 <= j < i ==> list[j].route.name != rc.route.name
      {
        if list[i].route.name == rc.route.name {
          assert IndexOf(list, rc.route.name) == i;
          configs := configs[node := list[i := rc]];
          trace := trace + [Section(Write(node, rc), Now())];
          assert list[i] in list;
          return true;
        }
      }
      assert IndexOf(list, rc.route.name) == |list|;
      configs := configs[node := list + [rc]];
      trace := trace + [Section(Write(node, rc), Now())];
      return false;
    }

    method RoutePlacement(name: string) returns (p: Placement)
      requires Valid()
      ensures forall n :: n in p.nodes <==> StoredAt(configs, n, name)
      ensures forall l :: l in p.listeners <==> Names(configs, configs.Keys, name, l)
      ensures forall n, rc :: Has(configs, n, rc) && rc.route.name == name ==> p.generation == rc.route.generation
    {
      var nodes: set<NodeId>, listeners: seq<string>, generation := {}, [], 0;
      var rest := configs.Keys;
      ghost var done: set<NodeId> := {};
      while rest != {}
        invariant done + rest == configs.Keys && done !! rest
        invariant forall n :: n in nodes <==> n in done && StoredAt(configs, n, name)
        invariant forall l :: l in listeners <==> Names(configs, done, name, l)
        invariant forall n, rc :: n in done && Has(configs, n, rc) && rc.route.name == name ==> generation == rc.route.generation
      {
        hide Names, MergeNames, NodeSafe, Uniform;
        var n :| n in rest;
        var i := FindRoute(n, name);
        if i < |configs[n]| {
          assert Has(configs, n, configs[n][i]);
          EntriesAgree(configs, born, n, i);
          nodes, listeners := nodes + {n}, MergeNames(listeners, configs[n][i].listenerNames);
          generation := configs[n][i].route.generation;
          UniqueAt(configs, n);
          NamesAtEntry(configs, n, i);
        } else {
          NobodyNamed(configs, n, name);
        }
        NamesElsewhere(configs, done, n, name);
        rest, done := rest - {n}, done + {n};
      }
      assert done == configs.Keys;
      return Placement(nodes, listeners, generation);
    }

    method FindRoute(node: NodeId, name: string) returns (i: nat)
      requires node in configs
      ensures i <= |configs[node]|
      ensures i < |configs[node]| ==> configs[node][i].route.name == name
      ensures i == |configs[node]| ==> forall rc :: rc in configs[node] ==> rc.route.name != name
    {
      i := 0;
      while i < |configs[node]| && configs[node][i].route.name != name
        invariant i <= |configs[node]|
        invariant forall j :: 0 <= j < i ==> configs[node][j].route.name != name
      {
        i := i + 1;
      }
    }

    /** The conflicting entries on the nodes, sorted by age. */
    method FindConflicts(r: Route, m: Matcher, nodes: set<NodeId>) returns (out: seq<RouteConfig>)
      requires Valid()
      ensures forall rc :: rc in out <==> rc in Conflicts(configs, r, m, nodes)
      ensures Sorted(OlderEntry, out)
    {
      hide RouteConflict, Faithful, NodeSafe, Uniform, Against;
      var found: seq<RouteConfig>, seen: set<string> := [], {};
      var rest := nodes;
      ghost var done: set<NodeId> := {};
      while rest != {}
        invariant done + rest == nodes && done !! rest
        invariant forall name :: name in seen <==> name != r.name && SeenOn(configs, done, name)
        invariant forall rc :: rc in found <==> AgainstOn(configs, done, r, m, rc)
      {
        var n :| n in rest;
        found, seen := CollectConflicts(r, m, n, done, found, seen);
        rest, done := rest - {n}, done + {n};
      }
      assert done == nodes;
      ConflictsAre(configs, nodes, r, m);
      out := Sort(OlderEntry, found);
      OlderEntryWeakOrder();
      SortSorts(OlderEntry, found);
      SameElements(out, found);
    }

    /** Adds the conflicts on one more node, passing over names seen before. */
    method CollectConflicts(r: Route, m: Matcher, n: NodeId, ghost done: set<NodeId>, found0: seq<RouteConfig>, seen0: set<string>)
      returns (found: seq<RouteConfig>, seen: set<string>)
      requires Valid()
      requires forall name :: name in seen0 <==> name != r.name && SeenOn(configs, done, name)
      requires forall rc :: rc in found0 <==> AgainstOn(configs, done, r, m, rc)
      ensures forall name :: name in seen <==> name != r.name && SeenOn(configs, done + {n}, name)
      ensures forall rc :: rc in found <==> AgainstOn(configs, done + {n}, r, m, rc)
    {
      hide RouteConflict, Faithful, NodeSafe;
      found, seen := found0, seen0;
      var list := At(configs, n);
      for i := 0 to |list|
        invariant forall name :: name in seen <==>
          name != r.name && (SeenOn(configs, done, name) || exists k :: 0 <= k < i && list[k].route.name == name)
        invariant forall rc :: rc in found <==>
          AgainstOn(configs, done, r, m, rc) || (rc in list[..i] && Against(r, m, rc))
      {
        var rc := list[i];
        EntriesAgree(configs, born, n, i);
        assert forall x :: x in list[..i + 1] <==> x in list[..i] || x == rc;
        assert forall k :: 0 <= k < i ==> Has(configs, n, list[k]);
        if rc.route.name != r.name && rc.route.name !in seen {
          seen := seen + {rc.route.name};
          if Against(r, m, rc) {
            found := found + [rc];
          }
        }
      }
      assert list[..|list|] == list;
    }

    method AddLoser(winner: string, loser: string)
      modifies this`losers
      ensures losers == AddLosers(old(losers), {winner}, loser)
    {
      if winner !in losers {
        losers := losers[winner := {}];
      }
      losers := losers[winner := losers[winner] + {loser}];
      SameLosers(losers, AddLosers(old(losers), {winner}, loser));
    }

    method EnqueueRoute(name: string)
      modifies this`requeue
      ensures requeue == old(requeue) + [name]
    {
      requeue := requeue + [name];
    }

    /** Routes this one evicted, or that yielded to it, may win now. */
    method RequeueLosers(winner: string)
      modifies this`losers, this`requeue
      ensures losers == old(losers) - {winner}
      ensures old(requeue) <= requeue && Since(requeue, |old(requeue)|) == LosersOf(old(losers), winner)
    {
      var rest := LosersOf(losers, winner);
      losers := losers - {winner};
      while rest != {}
        invariant losers == old(losers) - {winner}
        invariant old(requeue) <= requeue
        invariant Since(requeue, |old(requeue)|) + rest == LosersOf(old(losers), winner)
      {
        var key :| key in rest;
        ghost var before := requeue;
        EnqueueRoute(key);
        SinceGrows(before, requeue, |old(requeue)|);
        rest := rest - {key};
      }
    }

    /** Marks listeners pending and asks LDS to rebuild them. */
    method NotifyListeners(names: seq<string>)
      modifies this`notified, this`trace
      ensures notified == old(notified) + names
      ensures trace == old(trace) + Marks(names)
    {
      assert trace + Marks(names[..0]) == trace;
      for i := 0 to |names|
        invariant notified == old(notified) + names[..i]
        invariant trace == old(trace) + Marks(names[..i])
      {
        notified := notified + [names[i]];
        trace := trace + [Mark(names[i])];
        assert Marks(names[..i + 1]) == Marks(names[..i]) + [Mark(names[i])];
      }
      assert names[..|names|] == names;
    }

    /** Younger conflicting routes leave every node and are enqueued to be reconciled again. */
    method Evict(conflicts: seq<RouteConfig>)
      requires NodeSafe(configs)
      requires RefsListed(configs)
      modifies this`configs, this`counter, this`trace, this`requeue, this`notified
      ensures configs == Remove(old(configs), NamesIn(conflicts), old(configs).Keys)
      ensures NodeSafe(configs)
      ensures old(requeue) <= requeue && Since(requeue, |old(requeue)|) == NamesIn(conflicts)
      ensures old(notified) <= notified && Told(old(configs), configs, Since(notified, |old(notified)|))
      ensures Follows(old(trace), old(Now()), trace, Now(), {})
    {
      hide NodeSafe, Remove, Told, Follows, RefsListed;
      RemoveNobody(configs, configs.Keys);
      ToldSame(configs);
      FollowsNothing(trace, Now());
      assert NamesIn(conflicts[..0]) == {} && Since(notified, |notified|) == {};
      for i := 0 to |conflicts|
        invariant configs == Remove(old(configs), NamesIn(conflicts[..i]), old(configs).Keys)
        invariant NodeSafe(configs) && RefsListed(configs)
        invariant old(requeue) <= requeue && Since(requeue, |old(requeue)|) == NamesIn(conflicts[..i])
        invariant old(notified) <= notified && Told(old(configs), configs, Since(notified, |old(notified)|))
        invariant Follows(old(trace), old(Now()), trace, Now(), {})
      {
        var name := conflicts[i].route.name;
        ghost var store, told, queued, t, h := configs, notified, requeue, trace, Now();
        var listeners := RemoveRouteEverywhere(name);
        ghost var t' := trace;
        NotifyListeners(listeners);
        MarkedAll(t, h, t', Now(), listeners);
        FollowsTwice(old(trace), old(Now()), t, h, trace, Now(), {});
        EnqueueRoute(name);
        assert conflicts[..i + 1] == conflicts[..i] + [conflicts[i]];
        assert NamesIn(conflicts[..i + 1]) == NamesIn(conflicts[..i]) + {name};
        RemoveKeys(old(configs), NamesIn(conflicts[..i]), old(configs).Keys);
        RemoveTwice(old(configs), NamesIn(conflicts[..i]), {name}, old(configs).Keys);
        SinceGrows(queued, requeue, |old(requeue)|);
        SinceAppends(told, listeners, |old(notified)|);
        RemovedFromTold(store, name, store.Keys, listeners);
        ToldTwice(old(configs), store, configs, Since(told, |old(notified)|), (set l | l in listeners));
      }
      assert conflicts[..|conflicts|] == conflicts;
    }

    /** The route's entry is written node by node; every intermediate store is safe. */
    method Place(nodes: seq<NodeId>, rc: RouteConfig, ghost names: set<string>)
      requires NodeSafe(configs)
      requires forall n, x :: n in nodes && Has(configs, n, x) && x.route.name != rc.route.name ==>
        RouteConflict(rc.route.spec, x.route.spec, rc.matcher, x.matcher) == Apart
      requires forall n :: n in nodes ==> Told(configs, configs[n := PutEntry(At(configs, n), rc)], names)
      modifies this`configs, this`counter, this`trace
      ensures configs == Put(old(configs), nodes, rc)
      ensures NodeSafe(configs)
      ensures Follows(old(trace), old(Now()), trace, Now(), names)
    {
      FollowsNothing(trace, Now());
      hide NodeSafe, PutEntry, RouteConflict, Follows, Told;
      FollowsMore(trace, Now(), trace, Now(), {}, names);
      for i := 0 to |nodes|
        invariant configs == Put(old(configs), nodes[..i], rc)
        invariant NodeSafe(configs)
        invariant Follows(old(trace), old(Now()), trace, Now(), names)
      {
        ghost var t, h := trace, Now();
        SafeNamesOnce(old(configs));
        NextWriteTold(old(configs), nodes[..i], rc, nodes[i], names);
        var _ := UpdateRouteConfig(nodes[i], rc);
        assert nodes[..i + 1][..i] == nodes[..i];
        PutSafe(old(configs), nodes[..i + 1], rc);
        FollowsSection(old(trace), old(Now()), t, h, names, Write(nodes[i], rc), Now(), names);
        assert names + names == names;
      }
      assert nodes[..|nodes|] == nodes;
    }

    /** Stops serving a route that is gone or has nowhere to be served. */
    method Unplace(name: string, previous: Placement)
      requires Valid()
      requires forall n :: n in previous.nodes <==> StoredAt(configs, n, name)
      modifies this`configs, this`counter, this`trace, this`notified
      ensures configs == Remove(old(configs), {name}, old(configs).Keys)
      ensures old(notified) <= notified && Told(old(configs), configs, Since(notified, |old(notified)|))
      ensures Follows(old(trace), old(Now()), trace, Now(), {})
    {
      ListenersAreRefs(configs, born);
      hide NodeSafe, Uniform, Told, Follows, RefsListed, Remove, Names, StoredAt;
      var removed := RemoveRouteFromNodes(name, previous.nodes);
      ghost var t := trace;
      NotifyListeners(removed);
      MarkedAll(old(trace), old(Now()), t, Now(), removed);
      SinceAppends(old(notified), removed, |old(notified)|);
      RemoveFromAll(old(configs), name, previous.nodes);
      RemovedFromTold(old(configs), name, previous.nodes, removed);
    }

    /** The route loses: it leaves every node. */
    method Reject(name: string, previous: Placement)
      requires Valid()
      modifies this`configs, this`counter, this`trace, this`notified
      ensures configs == Remove(old(configs), {name}, old(configs).Keys)
      ensures old(notified) <= notified && Told(old(configs), configs, Since(notified, |old(notified)|))
      ensures Follows(old(trace), old(Now()), trace, Now(), {})
    {
      ListenersAreRefs(configs, born);
      hide NodeSafe, Told, MergeNames, Follows, RefsListed;
      var removed := RemoveRouteEverywhere(name);
      var names := MergeNames(previous.listeners, removed);
      ghost var t := trace;
      NotifyListeners(names);
      FollowsMore(old(trace), old(Now()), t, Now(), (set l | l in removed), (set l | l in names));
      MarkedAll(old(trace), old(Now()), t, Now(), names);
      SinceAppends(old(notified), names, |old(notified)|);
      RemovedFromTold(old(configs), name, old(configs).Keys, removed);
      ToldMore(old(configs), configs, (set l | l in removed), (set l | l in names));
    }

    /** The first named listener with a static chain that duplicates the route's, if there is one. */
    method StaticChainConflict(listeners: map<string, Listener>, r: Route, m: Matcher, nodes: set<NodeId>)
      returns (culprit: Option<string>)
      ensures culprit.Some? <==> StaticConflict(listeners, r.spec.refs, m, nodes)
      ensures culprit.Some? ==> culprit.value in r.spec.refs && culprit.value in listeners
                                && StaticOn(listeners[culprit.value], m, nodes)
    {
      hide Compare, Compile;
      for i := 0 to |r.spec.refs|
        invariant forall k :: 0 <= k < i && r.spec.refs[k] in listeners ==> !StaticOn(listeners[r.spec.refs[k]], m, nodes)
      {
        var name := r.spec.refs[i];
        if name in listeners && |listeners[name].chains| > 0 {
          var l := listeners[name];
          var onNode := false;
          for j := 0 to |l.home|
            invariant onNode <==> exists k :: 0 <= k < j && l.home[k] in nodes
          {
            if l.home[j] in nodes {
              onNode := true;
            }
          }
          if onNode {
            for j := 0 to |l.chains|
              invariant forall k :: 0 <= k < j ==> !StaticDuplicate(m, l.chains[k])
            {
              if StaticDuplicate(m, l.chains[j]) {
                return Some(name);
              }
            }
          }
        }
      }
      return None;
    }

    /**
     * A route whose matcher compiles and which has nodes leaves the nodes it no longer belongs to;
     * then static chains and its conflicts decide.
     */
    method Contend(r: Route, m: Matcher, nodes: seq<NodeId>, previous: Placement, listeners: map<string, Listener>)
      requires Valid()
      requires r.created == born(r.name) && GenerationFixesSpec(configs, r)
      requires r.spec.refs != [] && Compiles(r.spec) && m == Compile(r.spec.chainMatch).value
      requires nodes != [] && nodes == RouteNodes(listeners, r)
      requires forall n :: n in previous.nodes <==> StoredAt(configs, n, r.name)
      requires forall l :: l in previous.listeners <==> Names(configs, configs.Keys, r.name, l)
      requires forall n, rc :: Has(configs, n, rc) && rc.route.name == r.name ==> previous.generation == rc.route.generation
      modifies this`configs, this`counter, this`losers, this`requeue, this`notified, this`trace
      ensures configs == NextStore(old(configs), r.name, Decide(old(configs), listeners, Some(r)))
      ensures var d := Decide(old(configs), listeners, Some(r));
        losers == if d.Yield? then AddLosers(old(losers), d.winners, r.name) else old(losers)
      ensures old(requeue) <= requeue && Since(requeue, |old(requeue)|) == Evicted(Decide(old(configs), listeners, Some(r)))
      ensures old(notified) <= notified && Told(old(configs), configs, Since(notified, |old(notified)|))
      ensures Follows(old(trace), old(Now()), trace, Now(), {})
    {
      hide NodeSafe, Uniform, StaticConflict, Compile, RouteNodes, Told, Remove, NextStore,
        GenerationFixesSpec, Names, Conflicts, AddLosers, Decide, Follows, Since, OnCurrent;
      var current := NodeSet(nodes);
      LeaveNodes(r.name, previous.nodes - current);
      ghost var store1, told1, trace1, held1 := configs, notified, trace, Now();
      LeftOnCurrent(old(configs), r, previous, current);
      LeavingDecidesNothing(old(configs), listeners, r, previous.nodes - current);
      Judge(r, m, nodes, previous, listeners);
      ToldAcross(old(configs), store1, configs, old(notified), told1, notified);
      FollowsTwice(old(trace), old(Now()), trace1, held1, trace, Now(), {});
    }

    /** Static chains, older and younger conflicts decide about a route that is stored on its own nodes only. */
    method Judge(r: Route, m: Matcher, nodes: seq<NodeId>, previous: Placement, listeners: map<string, Listener>)
      requires Valid()
      requires r.created == born(r.name) && GenerationFixesSpec(configs, r)
      requires r.spec.refs != [] && Compiles(r.spec) && m == Compile(r.spec.chainMatch).value
      requires nodes != [] && nodes == RouteNodes(listeners, r)
      requires OnCurrent(configs, r.name, previous, NodeSet(nodes))
      modifies this`configs, this`counter, this`losers, this`requeue, this`notified, this`trace
      ensures configs == NextStore(old(configs), r.name, Decide(old(configs), listeners, Some(r)))
      ensures var d := Decide(old(configs), listeners, Some(r));
        losers == if d.Yield? then AddLosers(old(losers), d.winners, r.name) else old(losers)
      ensures old(requeue) <= requeue && Since(requeue, |old(requeue)|) == Evicted(Decide(old(configs), listeners, Some(r)))
      ensures old(notified) <= notified && Told(old(configs), configs, Since(notified, |old(notified)|))
      ensures Follows(old(trace), old(Now()), trace, Now(), {})
    {
      hide NodeSafe, Uniform, RouteConflict, StaticConflict, Compile, RouteNodes, Told, Remove, Put,
        GenerationFixesSpec, Conflicts, AddLosers, Decide, Follows, Since, OnCurrent;
      DecideContended(configs, listeners, r);
      var culprit := StaticChainConflict(listeners, r, m, NodeSet(nodes));
      if culprit.Some? {
        Reject(r.name, previous);
        SinceNone(requeue);
        return;
      }
      var conflicts := FindConflicts(r, m, NodeSet(nodes));
      AgeSplit(conflicts, r);
      SameConflicts(conflicts, RouteConflicts(configs, listeners, r), r);
      if |conflicts| > 0 && OlderRoute(conflicts[0].route, r) {
        RecordYield(conflicts, r);
        Reject(r.name, previous);
        SinceNone(requeue);
        return;
      }
      StoredNowhereElse(configs, r.name, previous, NodeSet(nodes));
      ClaimNodes(r, m, nodes, previous, conflicts);
    }

    /** One locked section: the route leaves nodes it no longer belongs to. */
    method LeaveNodes(name: string, nodes: set<NodeId>)
      requires Valid()
      modifies this`configs, this`counter, this`notified, this`trace
      ensures Valid()
      ensures configs == Remove(old(configs), {name}, nodes)
      ensures old(notified) <= notified && Told(old(configs), configs, Since(notified, |old(notified)|))
      ensures Follows(old(trace), old(Now()), trace, Now(), {})
    {
      ListenersAreRefs(configs, born);
      hide NodeSafe, Uniform, Told, Remove, Names, Follows, RefsListed;
      var left := RemoveRouteFromNodes(name, nodes);
      ghost var t := trace;
      NotifyListeners(left);
      MarkedAll(old(trace), old(Now()), t, Now(), left);
      SinceAppends(old(notified), left, |old(notified)|);
      RemovedFromTold(old(configs), name, nodes, left);
      RemoveValid(old(configs), born, {name}, nodes);
    }

    /** Evicts the younger conflicts, then writes the route's entry on its nodes. */
    method ClaimNodes(r: Route, m: Matcher, nodes: seq<NodeId>, previous: Placement, conflicts: seq<RouteConfig>)
      requires Valid()
      requires r.created == born(r.name) && GenerationFixesSpec(configs, r)
      requires OnCurrent(configs, r.name, previous, NodeSet(nodes))
      requires forall rc :: rc in conflicts <==> rc in Conflicts(configs, r, m, NodeSet(nodes))
      modifies this`configs, this`counter, this`requeue, this`notified, this`trace
      ensures configs == Put(Remove(old(configs), NamesIn(conflicts), old(configs).Keys), nodes, RouteConfig(r, r.spec.refs, m))
      ensures old(requeue) <= requeue && Since(requeue, |old(requeue)|) == NamesIn(conflicts)
      ensures old(notified) <= notified && Told(old(configs), configs, Since(notified, |old(notified)|))
      ensures Follows(old(trace), old(Now()), trace, Now(), {})
    {
      hide NodeSafe, Uniform, RouteConflict, Told, Remove, Put, PutEntry, GenerationFixesSpec, Conflicts, Follows, Since, OnCurrent, MergeNames, RefsListed;
      var entry := RouteConfig(r, r.spec.refs, m);
      ListenersAreRefs(configs, born);
      Evict(conflicts);
      ghost var store2, told2, trace2, held2 := configs, notified, trace, Now();
      EvictedAside(old(configs), r, m, nodes, conflicts);
      RemoveValid(old(configs), born, NamesIn(conflicts), old(configs).Keys);
      StoredOnCurrent(old(configs), r, previous, NodeSet(nodes), NamesIn(conflicts), old(configs).Keys);
      var names := if previous.Same(NodeSet(nodes), r.spec.refs, r.generation) then [] else MergeNames(previous.listeners, r.spec.refs);
      ghost var owed := set l | l in names;
      EachWriteTold(store2, born, r, entry, nodes, previous, names);
      Place(nodes, entry, owed);
      FollowsTwice(old(trace), old(Now()), trace2, held2, trace, Now(), owed);
      ghost var trace3 := trace;
      SinceNone(told2);
      if !previous.Same(NodeSet(nodes), r.spec.refs, r.generation) {
        NotifyListeners(names);
        MarkedAll(old(trace), old(Now()), trace3, Now(), names);
        SinceAppends(told2, names, |told2|);
        assert Since(notified, |told2|) == set l | l in names;
        ClaimTold(store2, born, r, entry, nodes, previous, names);
      } else {
        SameClaimTold(store2, born, r, entry, nodes, previous);
        assert owed == {};
      }
      ToldAcross(old(configs), store2, configs, old(notified), told2, notified);
    }

    /** The body of the reconcile, before the deferred requeueing of the route's own losers. */
    method Resolve(name: string, api: Read, listeners: map<string, Listener>)
      requires Valid() && !api.Failed?
      requires api.Found? ==> api.route.name == name && api.route.created == born(name)
      requires api.Found? ==> GenerationFixesSpec(configs, api.route)
      modifies this`configs, this`counter, this`losers, this`requeue, this`notified, this`trace
      ensures configs == NextStore(old(configs), name, Decide(old(configs), listeners, FoundRoute(api)))
      ensures var d := Decide(old(configs), listeners, FoundRoute(api));
        losers == if d.Yield? then AddLosers(old(losers), d.winners, name) else old(losers)
      ensures old(requeue) <= requeue && Since(requeue, |old(requeue)|) == Evicted(Decide(old(configs), listeners, FoundRoute(api)))
      ensures old(notified) <= notified && Told(old(configs), configs, Since(notified, |old(notified)|))
      ensures Follows(old(trace), old(Now()), trace, Now(), {})
    {
      FollowsNothing(trace, Now());
      hide NodeSafe, Uniform, RouteConflict, StaticConflict, Compile, RouteNodes, Told, Remove, Put, GenerationFixesSpec, Names, Follows;
      ToldSame(configs);
      assert Since(notified, |notified|) == {} && Since(requeue, |requeue|) == {};
      var previous := RoutePlacement(name);
      if api.Missing? || api.route.spec.refs == [] {
        Unplace(name, previous);
        return;
      }
      if !Compiles(api.route.spec) {
        return;
      }
      var nodes := RouteNodes(listeners, api.route);
      if |nodes| == 0 {
        Unplace(name, previous);
        return;
      }
      Contend(api.route, Compile(api.route.spec.chainMatch).value, nodes, previous, listeners);
    }

    /**
     * One reconcile of the named route. The store, the remembered losers and the requeued routes
     * become what Decide says; every locked section on the way leaves each node free of clashes;
     * and every listener whose attached routes changed has been notified.
     */
    method Reconcile(name: string, api: Read, listeners: map<string, Listener>) returns (ok: bool)
      requires Valid()
      requires api.Found? ==> api.route.name == name && api.route.created == born(name)
      requires api.Found? ==> GenerationFixesSpec(configs, api.route)
      modifies this`configs, this`counter, this`losers, this`requeue, this`notified, this`trace
      ensures Valid()
      ensures ok <==> !api.Failed?
      ensures !ok ==> configs == old(configs) && losers == old(losers) && requeue == old(requeue) && notified == old(notified) && trace == old(trace)
      ensures ok ==> configs == NextStore(old(configs), name, Decide(old(configs), listeners, FoundRoute(api)))
      ensures ok ==> losers == NextLosers(old(losers), name, Decide(old(configs), listeners, FoundRoute(api)))
      ensures old(requeue) <= requeue
      ensures ok ==> Since(requeue, |old(requeue)|) == Requeued(old(losers), name, Decide(old(configs), listeners, FoundRoute(api)))
      ensures old(notified) <= notified && Told(old(configs), configs, Since(notified, |old(notified)|))
      ensures Follows(old(trace), old(Now()), trace, Now(), {})
    {
      FollowsNothing(trace, Now());
      hide NodeSafe, Uniform, Decide, NextStore, Told, GenerationFixesSpec, Follows;
      if api.Failed? {
        ToldSame(configs);
        assert Since(notified, |notified|) == {};
        return false;
      }
      Resolve(name, api, listeners);
      DecisionKeepsValid(old(configs), born, listeners, name, FoundRoute(api));
      ghost var queued := requeue;
      RequeueLosers(name);
      SinceTwice(old(requeue), queued, requeue);
      return true;
    }

    /** The route is remembered under every older conflicting route. */
    method RecordYield(conflicts: seq<RouteConfig>, r: Route)
      modifies this`losers
      ensures losers == AddLosers(old(losers), OlderIn(conflicts, r), r.name)
    {
      AddNobody(losers, r.name);
      for i := 0 to |conflicts|
        invariant losers == AddLosers(old(losers), OlderIn(conflicts[..i], r), r.name)
      {
        hide AddLosers, OlderRoute, OlderIn;
        OlderInGrows(conflicts, i, r);
        if OlderRoute(conflicts[i].route, r) {
          AddLoser(conflicts[i].route.name, r.name);
          AddMore(old(losers), OlderIn(conflicts[..i], r), conflicts[i].route.name, r.name);
        }
      }
      assert conflicts[..|conflicts|] == conflicts;
    }
  }

  function OlderIn(rcs: seq<RouteConfig>, r: Route): set<string> {
    set rc | rc in rcs && OlderRoute(rc.route, r) :: rc.route.name
  }

  lemma OlderInGrows(rcs: seq<RouteConfig>, i: nat, r: Route)
    requires i < |rcs|
    ensures OlderIn(rcs[..i + 1], r) ==
      OlderIn(rcs[..i], r) + (if OlderRoute(rcs[i].route, r) then {rcs[i].route.name} else {})
  {
    hide OlderRoute;
    assert rcs[..i + 1] == rcs[..i] + [rcs[i]];
  }

  lemma SameLosers(a: Losers, b: Losers)
    requires a.Keys == b.Keys
    requires forall w :: LosersOf(a, w) == LosersOf(b, w)
    ensures a == b
  {
    forall w | w in a
      ensures a[w] == b[w]
    {
      assert LosersOf(a, w) == LosersOf(b, w);
    }
  }

  lemma AddNobody(losers: Losers, loser: string)
    ensures AddLosers(losers, {}, loser) == losers
  {
    SameLosers(AddLosers(losers, {}, loser), losers);
  }

  lemma AddMore(losers: Losers, some: set<string>, winner: string, loser: string)
    ensures AddLosers(AddLosers(losers, some, loser), {winner}, loser) == AddLosers(losers, some + {winner}, loser)
  {
    SameLosers(AddLosers(AddLosers(losers, some, loser), {winner}, loser), AddLosers(losers, some + {winner}, loser));
  }

  /** In a list sorted by age, the first entry decides whether any is older. */
  lemma AgeSplit(conflicts: seq<RouteConfig>, r: Route)
    requires Sorted(OlderEntry, conflicts)
    ensures OlderIn(conflicts, r) != {} <==> |conflicts| > 0 && OlderRoute(conflicts[0].route, r)
  {
    hide OlderKey;
    if |conflicts| > 0 && OlderRoute(conflicts[0].route, r) {
      assert conflicts[0].route.name in OlderIn(conflicts, r);
    }
    if OlderIn(conflicts, r) != {} {
      var rc :| rc in conflicts && OlderRoute(rc.route, r);
      var i :| 0 <= i < |conflicts| && conflicts[i] == rc;
      if i > 0 {
        assert !OlderEntry(conflicts[i], conflicts[0]);
        var first := conflicts[0].route;
        OlderKeyTotal(first.created, first.name, rc.route.created, rc.route.name);
        if OlderRoute(first, rc.route) {
          OlderKeyTransitive(first.created, first.name, rc.route.created, rc.route.name, r.created, r.name);
        }
      }
    }
  }

  /** The elements appended to a list since it had the given length. */
  ghost function Since<T>(xs: seq<T>, k: nat): set<T>
    requires k <= |xs|
  {
    set x | x in xs[k..]
  }

  lemma SinceGrows<T>(before: seq<T>, after: seq<T>, k: nat)
    requires k <= |before| && |after| == |before| + 1 && before <= after
    ensures Since(after, k) == Since(before, k) + {after[|before|]}
  {
    assert after[k..] == before[k..] + [after[|before|]];
  }

  lemma SinceAppends<T>(before: seq<T>, more: seq<T>, k: nat)
    requires k <= |before|
    ensures Since(before + more, k) == Since(before, k) + set x | x in more
  {
    assert (before + more)[k..] == before[k..] + more;
  }

  function NamesIn(rcs: seq<RouteConfig>): set<string> {
    set rc | rc in rcs :: rc.route.name
  }

  lemma RemoveNobody(store: Store, nodes: set<NodeId>)
    ensures Remove(store, {}, nodes) == store
  {
    forall n | n in store
      ensures Keep(store[n], {}) == store[n]
    {
      KeepAll(store[n], {});
    }
  }

  lemma RemoveKeys(store: Store, gone: set<string>, nodes: set<NodeId>)
    ensures Remove(store, gone, nodes).Keys == store.Keys
  {
  }

  lemma SinceTwice<T>(a: seq<T>, b: seq<T>, c: seq<T>)
    requires a <= b <= c
    ensures Since(c, |a|) == Since(b, |a|) + Since(c, |b|)
  {
    assert c[|a|..] == b[|a|..] + c[|b|..];
  }

  /** Leaving the nodes it is stored on, a route leaves all. */
  lemma RemoveFromAll(store: Store, name: string, nodes: set<NodeId>)
    requires forall n :: n in nodes <==> StoredAt(store, n, name)
    ensures Remove(store, {name}, nodes) == Remove(store, {name}, store.Keys)
  {
    forall n, rc | Has(store, n, rc) && rc.route.name in {name}
      ensures n in nodes && n in store.Keys
    {
      assert StoredAt(store, n, name);
    }
    RemoveWhereStored(store, {name}, nodes, store.Keys);
  }

  /** Entries list the listeners their spec refers to. */
  ghost predicate RefsListed(store: Store) {
    forall n, rc :: Has(store, n, rc) ==> rc.listenerNames == rc.route.spec.refs
  }

  lemma RemovedListed(store: Store, gone: set<string>, nodes: set<NodeId>)
    requires RefsListed(store)
    ensures RefsListed(Remove(store, gone, nodes))
  {
  }

  lemma SafeNamesOnce(store: Store)
    requires NodeSafe(store)
    ensures NamesOnce(store)
  {
  }

  /** Marking all that may be owed settles the trace. */
  lemma MarkedAll(t0: seq<TraceEvent>, h0: Held, t1: seq<TraceEvent>, h1: Held, names: seq<string>)
    requires Follows(t0, h0, t1, h1, set l | l in names)
    ensures Follows(t0, h0, t1 + Marks(names), h1, {})
  {
    hide Follows;
    FollowsMarks(t0, h0, t1, h1, (set l | l in names), names);
    assert (set l | l in names) - (set l | l in names) == {};
  }

  lemma RemovedFromTold(store: Store, name: string, nodes: set<NodeId>, listeners: seq<string>)
    requires RefsListed(store)
    requires forall l :: l in listeners <==> Names(store, nodes, name, l)
    ensures Told(store, Remove(store, {name}, nodes), set l | l in listeners)
  {
    forall n, rc, l | Has(store, n, rc) && n in nodes && rc.route.name in {name} && l in rc.route.spec.refs
      ensures l in listeners
    {
      assert Names(store, nodes, name, l);
    }
    RemoveTold(store, {name}, nodes, set l | l in listeners);
  }

  lemma RemoveValid(store: Store, born: string -> nat, gone: set<string>, nodes: set<NodeId>)
    requires NodeSafe(store) && Uniform(store, born)
    ensures NodeSafe(Remove(store, gone, nodes)) && Uniform(Remove(store, gone, nodes), born)
  {
    hide Faithful, NodeSafe;
    RemoveSafe(store, gone, nodes);
  }

  /** A name and a generation fix the spec, as the API server guarantees. */
  ghost predicate GenerationFixesSpec(store: Store, r: Route) {
    forall n, rc :: Has(store, n, rc) && rc.route.name == r.name && rc.route.generation == r.generation ==>
      rc.route.spec == r.spec
  }

  /** Removing the route itself leaves its conflicts as they were. */
  lemma ConflictsOfOthers(store: Store, after: Store, r: Route, m: Matcher, nodes: set<NodeId>, gone: set<string>)
    requires forall n, rc: RouteConfig :: rc.route.name !in gone ==> (Has(after, n, rc) <==> Has(store, n, rc))
    requires gone == {r.name}
    ensures Conflicts(after, r, m, nodes) == Conflicts(store, r, m, nodes)
  {
    hide RouteConflict, Conflicts, Has;
  }

  lemma SameConflicts(list: seq<RouteConfig>, conflicts: set<RouteConfig>, r: Route)
    requires forall rc :: rc in list <==> rc in conflicts
    ensures OlderIn(list, r) == OlderNames(conflicts, r)
    ensures NamesIn(list) == NamesOf(conflicts)
  {
    hide OlderRoute;
  }

  lemma SinceNone<T>(xs: seq<T>)
    ensures Since(xs, |xs|) == {}
  {
  }

  lemma ToldAcross(a: Store, b: Store, c: Store, n0: seq<string>, n1: seq<string>, n2: seq<string>)
    requires n0 <= n1 <= n2
    requires Told(a, b, Since(n1, |n0|)) && Told(b, c, Since(n2, |n1|))
    ensures Told(a, c, Since(n2, |n0|))
  {
    hide Told;
    SinceTwice(n0, n1, n2);
    ToldTwice(a, b, c, Since(n1, |n0|), Since(n2, |n1|));
  }

  /** What Decide says about a route that compiles and has nodes. */
  lemma DecideContended(store: Store, listeners: map<string, Listener>, r: Route)
    requires r.spec.refs != [] && Compiles(r.spec) && RouteNodes(listeners, r) != []
    ensures var m := Compile(r.spec.chainMatch).value;
      var nodes := RouteNodes(listeners, r);
      var conflicts := RouteConflicts(store, listeners, r);
      Decide(store, listeners, Some(r)) ==
        if StaticConflict(listeners, r.spec.refs, m, NodeSet(nodes)) then Withdraw
        else if OlderNames(conflicts, r) != {} then Yield(OlderNames(conflicts, r))
        else Claim(RouteConfig(r, r.spec.refs, m), nodes, NamesOf(conflicts))
  {
    hide RouteConflict, StaticConflict, RouteNodes, RouteConflicts, OlderNames, NamesOf;
  }

  /** The route is stored on exactly those of its former nodes that it keeps, as the placement says. */
  ghost predicate OnCurrent(store: Store, name: string, previous: Placement, current: set<NodeId>) {
    && (forall n :: n in previous.nodes && n in current <==> StoredAt(store, n, name))
    && (forall n, rc :: Has(store, n, rc) && rc.route.name == name ==>
          rc.route.generation == previous.generation && forall l :: l in rc.listenerNames ==> l in previous.listeners)
  }

  lemma StoredNowhereElse(store: Store, name: string, previous: Placement, current: set<NodeId>)
    requires OnCurrent(store, name, previous, current)
    ensures Remove(store, {name}, store.Keys - current) == store
  {
    forall n, rc | Has(store, n, rc) && rc.route.name in {name}
      ensures n in current
    {
      assert StoredAt(store, n, name);
    }
    RemoveWhereStored(store, {name}, store.Keys - current, {});
    KeepNowhere(store, {name});
  }

  /** The decision about a route, and the store after it, do not depend on where the route itself is stored. */
  lemma LeavingDecidesNothing(store: Store, listeners: map<string, Listener>, r: Route, nodes: set<NodeId>)
    requires r.spec.refs != [] && Compiles(r.spec) && RouteNodes(listeners, r) != []
    requires nodes <= store.Keys - NodeSet(RouteNodes(listeners, r))
    ensures var store1 := Remove(store, {r.name}, nodes);
      && Decide(store1, listeners, Some(r)) == Decide(store, listeners, Some(r))
      && NextStore(store1, r.name, Decide(store1, listeners, Some(r))) ==
         NextStore(store, r.name, Decide(store, listeners, Some(r)))
  {
    hide RouteConflict, StaticConflict, RouteNodes, Decide, Conflicts, OlderNames, NamesOf, Put, Remove;
    var store1 := Remove(store, {r.name}, nodes);
    var m, current := Compile(r.spec.chainMatch).value, NodeSet(RouteNodes(listeners, r));
    OthersStay(store, r.name, nodes);
    ConflictsOfOthers(store, store1, r, m, current, {r.name});
    DecideContended(store, listeners, r);
    DecideContended(store1, listeners, r);
    RemoveKeys(store, {r.name}, nodes);
    RemoveMoreNodes(store, {r.name}, nodes, store.Keys);
    RemoveMoreNodes(store, {r.name}, nodes, store.Keys - current);
    assert nodes + store.Keys == store.Keys && nodes + (store.Keys - current) == store.Keys - current;
  }

  lemma OthersStay(store: Store, name: string, nodes: set<NodeId>)
    ensures forall n, rc: RouteConfig :: rc.route.name !in {name} ==> (Has(Remove(store, {name}, nodes), n, rc) <==> Has(store, n, rc))
  {
  }

  lemma LeftOnCurrent(store: Store, r: Route, previous: Placement, current: set<NodeId>)
    requires forall n :: n in previous.nodes <==> StoredAt(store, n, r.name)
    requires forall l :: l in previous.listeners <==> Names(store, store.Keys, r.name, l)
    requires forall n, rc :: Has(store, n, rc) && rc.route.name == r.name ==> previous.generation == rc.route.generation
    requires GenerationFixesSpec(store, r)
    ensures OnCurrent(Remove(store, {r.name}, previous.nodes - current), r.name, previous, current)
    ensures GenerationFixesSpec(Remove(store, {r.name}, previous.nodes - current), r)
  {
    var after := Remove(store, {r.name}, previous.nodes - current);
    forall n
      ensures n in previous.nodes && n in current <==> StoredAt(after, n, r.name)
    {
      if n in previous.nodes && n in current {
        var rc :| Has(store, n, rc) && rc.route.name == r.name;
        assert Has(after, n, rc);
      }
    }
    forall n, rc, l | Has(after, n, rc) && rc.route.name == r.name && l in rc.listenerNames
      ensures l in previous.listeners
    {
      assert Has(store, n, rc);
      assert Names(store, store.Keys, r.name, l);
    }
  }

  lemma StoredOnCurrent(store: Store, r: Route, previous: Placement, current: set<NodeId>, gone: set<string>, nodes: set<NodeId>)
    requires OnCurrent(store, r.name, previous, current) && GenerationFixesSpec(store, r) && r.name !in gone
    ensures OnCurrent(Remove(store, gone, nodes), r.name, previous, current)
    ensures GenerationFixesSpec(Remove(store, gone, nodes), r)
  {
    var after := Remove(store, gone, nodes);
    forall n
      ensures StoredAt(after, n, r.name) <==> StoredAt(store, n, r.name)
    {
      if rc :| Has(store, n, rc) && rc.route.name == r.name {
        assert Has(after, n, rc);
      }
    }
  }

  lemma ListenersAreRefs(store: Store, born: string -> nat)
    requires Uniform(store, born)
    ensures RefsListed(store)
    ensures forall n, rc :: Has(store, n, rc) ==> rc.listenerNames == rc.route.spec.refs && rc.route.created == born(rc.route.name)
  {
    hide Compiles, Compile;
  }

  /** Once the conflicts are gone nothing on the nodes clashes with the route, which was not among them. */
  lemma EvictedAside(store: Store, r: Route, m: Matcher, nodes: seq<NodeId>, conflicts: seq<RouteConfig>)
    requires forall rc :: rc in conflicts <==> rc in Conflicts(store, r, m, NodeSet(nodes))
    ensures r.name !in NamesIn(conflicts)
    ensures forall n, x :: n in nodes && Has(Remove(store, NamesIn(conflicts), store.Keys), n, x) && x.route.name != r.name ==>
      RouteConflict(r.spec, x.route.spec, m, x.matcher) == Apart
  {
    hide RouteConflict, Conflicts;
    forall n, x | n in nodes && Has(Remove(store, NamesIn(conflicts), store.Keys), n, x) && x.route.name != r.name
      ensures RouteConflict(r.spec, x.route.spec, m, x.matcher) == Apart
    {
      assert n in NodeSet(nodes) && Has(store, n, x);
      assert x in conflicts ==> x.route.name in NamesIn(conflicts);
    }
  }

  lemma ClaimTold(store: Store, born: string -> nat, r: Route, entry: RouteConfig, nodes: seq<NodeId>, previous: Placement, names: seq<string>)
    requires NodeSafe(store) && Uniform(store, born) && entry.route == r
    requires OnCurrent(store, r.name, previous, NodeSet(nodes))
    requires forall l :: l in names <==> l in previous.listeners || l in r.spec.refs
    ensures Told(store, Put(store, nodes, entry), set l | l in names)
  {
    hide Told, RouteConflict;
    ListenersAreRefs(store, born);
    PutTold(store, nodes, entry, set l | l in names);
  }

  /** An unchanged placement of an unchanged generation changes no listener. */
  lemma SameClaimTold(store: Store, born: string -> nat, r: Route, entry: RouteConfig, nodes: seq<NodeId>, previous: Placement)
    requires NodeSafe(store) && Uniform(store, born) && entry.route == r
    requires r.created == born(r.name) && GenerationFixesSpec(store, r)
    requires OnCurrent(store, r.name, previous, NodeSet(nodes))
    requires previous.nodes == NodeSet(nodes) && previous.generation == r.generation
    ensures Told(store, Put(store, nodes, entry), {})
  {
    hide Told, RouteConflict;
    ListenersAreRefs(store, born);
    forall n | n in nodes
      ensures StoredAt(store, n, entry.route.name)
    {
      assert n in NodeSet(nodes);
    }
    PutSameTold(store, nodes, entry);
  }

  /** Every single write of a claim changes only listeners among the names, and none if the placement is the same. */
  lemma EachWriteTold(store: Store, born: string -> nat, r: Route, entry: RouteConfig, nodes: seq<NodeId>, previous: Placement, names: seq<string>)
    requires NodeSafe(store) && Uniform(store, born) && entry.route == r
    requires r.created == born(r.name) && GenerationFixesSpec(store, r)
    requires OnCurrent(store, r.name, previous, NodeSet(nodes))
    requires previous.Same(NodeSet(nodes), r.spec.refs, r.generation) || forall l :: l in names <==> l in previous.listeners || l in r.spec.refs
    ensures forall n :: n in nodes ==> Told(store, store[n := PutEntry(At(store, n), entry)], set l | l in names)
  {
    hide Told, RouteConflict, PutEntry, Put, MergeNames;
    ListenersAreRefs(store, born);
    forall n | n in nodes
      ensures Told(store, store[n := PutEntry(At(store, n), entry)], set l | l in names)
    {
      PutOne(store, n, entry);
      if previous.Same(NodeSet(nodes), r.spec.refs, r.generation) {
        assert n in NodeSet(nodes);
        assert StoredAt(store, n, entry.route.name);
        PutSameTold(store, [n], entry);
        ToldMore(store, Put(store, [n], entry), {}, set l | l in names);
      } else {
        PutTold(store, [n], entry, set l | l in names);
      }
    }
  }

  lemma PutOne(store: Store, n: NodeId, rc: RouteConfig)
    ensures Put(store, [n], rc) == store[n := PutEntry(At(store, n), rc)]
  {
    assert [n][..0] == [];
  }

  /** The store after any decision is again one the controller may work on. */
  lemma DecisionKeepsValid(store: Store, born: string -> nat, listeners: map<string, Listener>, name: string, found: Option<Route>)
    requires NodeSafe(store) && Uniform(store, born)
    requires found.Some? ==> found.value.name == name && found.value.created == born(name)
    ensures var d := Decide(store, listeners, found);
      NodeSafe(NextStore(store, name, d)) && Uniform(NextStore(store, name, d), born)
  {
    hide NodeSafe, Uniform, Decide;
    var w := World(if found.Some? then map[name := found.value] else map[], listeners);
    assert Lookup(w, name) == found;
    StepStoreOk(w, born, State(store, map[], {}), name);
  }

  lemma PutSafe(store: Store, nodes: seq<NodeId>, rc: RouteConfig)
    requires NodeSafe(store)
    requires forall n, x :: n in nodes && Has(store, n, x) && x.route.name != rc.route.name ==>
      RouteConflict(rc.route.spec, x.route.spec, rc.matcher, x.matcher) == Apart
    ensures NodeSafe(Put(store, nodes, rc))
  {
    hide RouteConflict;
    PutHas(store, nodes, rc);
    var s := Put(store, nodes, rc);
    forall n, x: RouteConfig, y: RouteConfig | n in s && x in s[n] && y in s[n] && x.route.name != y.route.name
      ensures RouteConflict(x.route.spec, y.route.spec, x.matcher, y.matcher) == Apart
    {
      assert Has(s, n, x) && Has(s, n, y);
      if n in nodes && y == rc {
        RouteConflictSymmetric(x.route.spec, y.route.spec, x.matcher, y.matcher);
      } else if !(n in nodes && x == rc) {
        assert Has(store, n, x) && Has(store, n, y);
      }
    }
  }

  ghost predicate SeenOn(store: Store, nodes: set<NodeId>, name: string) {
    exists n, rc :: n in nodes && Has(store, n, rc) && rc.route.name == name
  }

  /** Is the entry another route's, with a chain that cannot coexist with the route's? */
  predicate Against(r: Route, m: Matcher, rc: RouteConfig) {
    rc.route.name != r.name && RouteConflict(r.spec, rc.route.spec, m, rc.matcher) != Apart
  }

  ghost predicate AgainstOn(store: Store, nodes: set<NodeId>, r: Route, m: Matcher, rc: RouteConfig) {
    Against(r, m, rc) && exists n :: n in nodes && Has(store, n, rc)
  }

  lemma ConflictsAre(store: Store, nodes: set<NodeId>, r: Route, m: Matcher)
    ensures forall rc :: rc in Conflicts(store, r, m, nodes) <==> AgainstOn(store, nodes, r, m, rc)
  {
    hide RouteConflict, Has;
  }

  lemma UniqueAt(store: Store, n: NodeId)
    requires NodeSafe(store) && n in store
    ensures UniqueNames(store[n])
  {
  }

  lemma EntriesAgree(store: Store, born: string -> nat, n: NodeId, i: nat)
    requires Uniform(store, born) && n in store && i < |store[n]|
    ensures forall n', rc :: Has(store, n', rc) && rc.route.name == store[n][i].route.name ==> rc == store[n][i]
  {
    assert Has(store, n, store[n][i]);
  }

  lemma NobodyNamed(store: Store, n: NodeId, name: string)
    requires forall rc :: rc in At(store, n) ==> rc.route.name != name
    ensures forall l :: !Names(store, {n}, name, l)
  {
  }

  /** Removing the route from other nodes first does not change what it names on this one. */
  lemma NamesElsewhere(store: Store, done: set<NodeId>, n: NodeId, name: string)
    requires n !in done
    ensures forall l :: Names(Remove(store, {name}, done), {n}, name, l) <==> Names(store, {n}, name, l)
    ensures forall l :: Names(store, done + {n}, name, l) <==> Names(store, done, name, l) || Names(store, {n}, name, l)
  {
    var s := Remove(store, {name}, done);
    assert forall rc :: Has(s, n, rc) <==> Has(store, n, rc);
  }

  lemma RemoveSafe(store: Store, gone: set<string>, nodes: set<NodeId>)
    requires NodeSafe(store)
    ensures NodeSafe(Remove(store, gone, nodes))
  {
    hide RouteConflict;
    RemoveNamesOnce(store, gone, nodes);
  }

  lemma KeepNowhere(store: Store, gone: set<string>)
    ensures Remove(store, gone, {}) == store
  {
  }
}
