/** The served routes per node and the pure effect of one route reconcile on them. */
module RouteStore {
  import opened Prelude
  import opened Matching
  import opened Routes

  /** What updateRouteConfig stores: the route, its listener names and its compiled matcher. */
  datatype RouteConfig = RouteConfig(route: Route, listenerNames: seq<string>, matcher: Matcher)

  type Store = map<NodeId, seq<RouteConfig>>

  ghost predicate Has(store: Store, node: NodeId, rc: RouteConfig) {
    node in store && rc in store[node]
  }

  ghost predicate Stored(store: Store, name: string) {
    exists node, rc :: Has(store, node, rc) && rc.route.name == name
  }

  ghost predicate StoredAt(store: Store, node: NodeId, name: string) {
    exists rc :: Has(store, node, rc) && rc.route.name == name
  }

  // ---------------------------------------------------------------- safety of a store

  predicate UniqueNames(list: seq<RouteConfig>) {
    forall i, j :: 0 <= i < j < |list| ==> list[i].route.name != list[j].route.name
  }

  /** An entry holds exactly what its route's spec compiles to. */
  predicate Faithful(rc: RouteConfig) {
    && Compiles(rc.route.spec)
    && rc.matcher == Compile(rc.route.spec.chainMatch).value
    && rc.listenerNames == rc.route.spec.refs
  }

  ghost predicate NoClash(list: seq<RouteConfig>) {
    forall x, y :: x in list && y in list && x.route.name != y.route.name ==>
      RouteConflict(x.route.spec, y.route.spec, x.matcher, y.matcher) == Apart
  }

  /** No node stores a name twice or two routes whose chains conflict. */
  ghost predicate NodeSafe(store: Store) {
    forall n :: n in store ==> UniqueNames(store[n]) && NoClash(store[n])
  }

  /** Every copy of a route is the same, and the creation time of a name never changes. */
  ghost predicate Uniform(store: Store, born: string -> nat) {
    && (forall n, rc :: Has(store, n, rc) ==> Faithful(rc) && rc.route.created == born(rc.route.name))
    && (forall n, rc, n', rc' :: Has(store, n, rc) && Has(store, n', rc') && rc.route.name == rc'.route.name ==> rc == rc')
  }

  ghost predicate Older(born: string -> nat, a: string, b: string) {
    OlderKey(born(a), a, born(b), b)
  }

  // ---------------------------------------------------------------- store updates

  function Keep(list: seq<RouteConfig>, gone: set<string>): (kept: seq<RouteConfig>)
    ensures forall rc :: rc in kept <==> rc in list && rc.route.name !in gone
  {
    if list == [] then []
    else (if list[0].route.name in gone then [] else [list[0]]) + Keep(list[1..], gone)
  }

  /** The store without the named routes on the given nodes. */
  function Remove(store: Store, gone: set<string>, nodes: set<NodeId>): (s: Store)
    ensures s.Keys == store.Keys
    ensures forall n, rc :: Has(s, n, rc) <==> Has(store, n, rc) && !(n in nodes && rc.route.name in gone)
  {
    map n | n in store :: if n in nodes then Keep(store[n], gone) else store[n]
  }

  function IndexOf(list: seq<RouteConfig>, name: string): (i: nat)
    ensures i <= |list|
    ensures forall j :: 0 <= j < i ==> list[j].route.name != name
    ensures i < |list| ==> list[i].route.name == name
  {
    if list == [] || list[0].route.name == name then 0 else 1 + IndexOf(list[1..], name)
  }

  /** Replaces the entry of the same name, or appends. */
  function PutEntry(list: seq<RouteConfig>, rc: RouteConfig): seq<RouteConfig> {
    var i := IndexOf(list, rc.route.name);
    if i < |list| then list[i := rc] else list + [rc]
  }

  function At(store: Store, node: NodeId): seq<RouteConfig> {
    if node in store then store[node] else []
  }

  function Put(store: Store, nodes: seq<NodeId>, rc: RouteConfig): Store
    decreases |nodes|
  {
    if nodes == [] then store
    else
      var n := nodes[|nodes| - 1];
      var s := Put(store, nodes[..|nodes| - 1], rc);
      s[n := PutEntry(At(s, n), rc)]
  }

  lemma PutEntryHas(list: seq<RouteConfig>, rc: RouteConfig)
    requires UniqueNames(list)
    ensures UniqueNames(PutEntry(list, rc))
    ensures forall x :: x in PutEntry(list, rc) <==> x == rc || (x in list && x.route.name != rc.route.name)
  {
    var i := IndexOf(list, rc.route.name);
    var out := PutEntry(list, rc);
    forall x
      ensures x in out <==> x == rc || (x in list && x.route.name != rc.route.name)
    {
      if x in out {
        var k :| 0 <= k < |out| && out[k] == x;
      }
      if x in list && x.route.name != rc.route.name {
        var k :| 0 <= k < |list| && list[k] == x;
        assert out[k] == x;
      }
      assert out[i] == rc;
    }
  }

  lemma {:induction false} KeepUnique(list: seq<RouteConfig>, gone: set<string>)
    requires UniqueNames(list)
    ensures UniqueNames(Keep(list, gone))
  {
    if list != [] {
      KeepUnique(list[1..], gone);
      var rest := Keep(list[1..], gone);
      forall j | 0 <= j < |rest|
        ensures rest[j].route.name != list[0].route.name
      {
        assert rest[j] in rest;
      }
    }
  }

  ghost predicate NamesOnce(store: Store) {
    forall n :: n in store ==> UniqueNames(store[n])
  }

  lemma AtOnce(store: Store, n: NodeId)
    requires NamesOnce(store)
    ensures UniqueNames(At(store, n))
  {
  }

  lemma RemoveNamesOnce(store: Store, gone: set<string>, nodes: set<NodeId>)
    requires NamesOnce(store)
    ensures NamesOnce(Remove(store, gone, nodes))
  {
    forall n | n in store
      ensures UniqueNames(Remove(store, gone, nodes)[n])
    {
      KeepUnique(store[n], gone);
    }
  }

  /** What a put leaves on each node, when no node stores a name twice. */
  lemma {:induction false} PutHas(store: Store, nodes: seq<NodeId>, rc: RouteConfig)
    requires NamesOnce(store)
    ensures NamesOnce(Put(store, nodes, rc))
    ensures forall n, x :: Has(Put(store, nodes, rc), n, x) <==>
      (n in nodes && x == rc) || (Has(store, n, x) && !(n in nodes && x.route.name == rc.route.name))
    decreases |nodes|
  {
    hide UniqueNames, PutEntry;
    if nodes != [] {
      var last, init := nodes[|nodes| - 1], nodes[..|nodes| - 1];
      PutHas(store, init, rc);
      var s := Put(store, init, rc);
      AtOnce(s, last);
      PutEntryHas(At(s, last), rc);
      assert forall n :: n in nodes <==> n in init || n == last;
    }
  }

  // ---------------------------------------------------------------- one reconcile

  /** The other routes' entries on the nodes that conflict with the route. */
  function Conflicts(store: Store, r: Route, m: Matcher, nodes: set<NodeId>): (rcs: set<RouteConfig>)
    ensures forall rc :: rc in rcs <==>
      && (exists n :: n in nodes && Has(store, n, rc))
      && rc.route.name != r.name
      && RouteConflict(r.spec, rc.route.spec, m, rc.matcher) != Apart
  {
    set n, rc | n in nodes && n in store && rc in store[n] && rc.route.name != r.name
                && RouteConflict(r.spec, rc.route.spec, m, rc.matcher) != Apart :: rc
  }

  /** The conflicts of a route at its own nodes. */
  function RouteConflicts(store: Store, listeners: map<string, Listener>, r: Route): (rcs: set<RouteConfig>)
    requires Compiles(r.spec)
    ensures forall rc :: rc in rcs <==>
      && (exists n :: n in RouteNodes(listeners, r) && Has(store, n, rc))
      && rc.route.name != r.name
      && RouteConflict(r.spec, rc.route.spec, Compile(r.spec.chainMatch).value, rc.matcher) != Apart
  {
    Conflicts(store, r, Compile(r.spec.chainMatch).value, NodeSet(RouteNodes(listeners, r)))
  }

  function NamesOf(rcs: set<RouteConfig>): set<string> {
    set rc | rc in rcs :: rc.route.name
  }

  function OlderNames(rcs: set<RouteConfig>, r: Route): set<string> {
    set rc | rc in rcs && OlderRoute(rc.route, r) :: rc.route.name
  }

  /** What a reconcile decides about the route it was called for. */
  datatype Decision =
    | Retain                        // the spec does not compile: keep the last good version
    | Withdraw                      // gone, nowhere to serve it, or a static chain wins
    | Yield(winners: set<string>)   // older routes win
    | Claim(entry: RouteConfig, nodes: seq<NodeId>, evicted: set<string>)

  function Decide(store: Store, listeners: map<string, Listener>, found: Option<Route>): Decision {
    if found.None? then Withdraw
    else
      var r := found.value;
      if r.spec.refs == [] then Withdraw
      else if !Compiles(r.spec) then Retain
      else
        var m := Compile(r.spec.chainMatch).value;
        var nodes := RouteNodes(listeners, r);
        if nodes == [] || StaticConflict(listeners, r.spec.refs, m, NodeSet(nodes)) then Withdraw
        else
          var conflicts := RouteConflicts(store, listeners, r);
          var winners := OlderNames(conflicts, r);
          if winners != {} then Yield(winners)
          else Claim(RouteConfig(r, r.spec.refs, m), nodes, NamesOf(conflicts))
  }

  function NextStore(store: Store, name: string, d: Decision): Store {
    match d
    case Retain => store
    case Withdraw => Remove(store, {name}, store.Keys)
    case Yield(_) => Remove(store, {name}, store.Keys)
    case Claim(rc, nodes, evicted) =>
      Put(Remove(Remove(store, {name}, store.Keys - NodeSet(nodes)), evicted, store.Keys), nodes, rc)
  }

  type Losers = map<string, set<string>>

  function LosersOf(losers: Losers, winner: string): set<string> {
    if winner in losers then losers[winner] else {}
  }

  function AddLosers(losers: Losers, winners: set<string>, loser: string): (l: Losers)
    ensures forall w :: LosersOf(l, w) == LosersOf(losers, w) + (if w in winners then {loser} else {})
  {
    map w | w in losers.Keys + winners :: LosersOf(losers, w) + (if w in winners then {loser} else {})
  }

  function Evicted(d: Decision): set<string> {
    if d.Claim? then d.evicted else {}
  }

  /** Losers after the reconcile: yields are recorded, the route's own losers are handed back. */
  function NextLosers(losers: Losers, name: string, d: Decision): Losers {
    (if d.Yield? then AddLosers(losers, d.winners, name) else losers) - {name}
  }

  /** The routes a reconcile puts back on the queue. */
  function Requeued(losers: Losers, name: string, d: Decision): set<string> {
    Evicted(d) + LosersOf(if d.Yield? then AddLosers(losers, d.winners, name) else losers, name)
  }
}
