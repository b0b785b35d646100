/** cmd/route-audit: the direct, oldest-first placement, and when it agrees with the controller. */
module RouteAudit {
  import opened Prelude
  import opened Matching
  import opened Sorting
  import opened Routes
  import opened RouteStore
  import opened Convergence

  /** A route without a creation time comes after every route that has one. */
  predicate AuditOlder(a: Route, b: Route) {
    if (a.created == 0) != (b.created == 0) then b.created == 0 else OlderRoute(a, b)
  }

  lemma AuditOlderWeakOrder()
    ensures WeakOrder(AuditOlder)
  {
    forall x: Route, y: Route
      ensures AuditOlder(x, y) ==> !AuditOlder(y, x)
    {
      OlderKeyTotal(x.created, x.name, y.created, y.name);
    }
    forall x: Route, y: Route, z: Route | AuditOlder(x, z)
      ensures AuditOlder(x, y) || AuditOlder(y, z)
    {
      OlderKeyTotal(x.created, x.name, y.created, y.name);
      if OlderRoute(y, x) && OlderRoute(x, z) {
        OlderKeyTransitive(y.created, y.name, x.created, x.name, z.created, z.name);
      }
    }
  }

  datatype Placed = Placed(route: Route, matcher: Matcher, nodes: seq<NodeId>)

  datatype Line =
    | Invalid(route: string)
    | StaticEvicts(listener: string, route: string, shared: seq<NodeId>)
    | RouteEvicts(winner: string, route: string, verdict: Verdict, shared: seq<NodeId>)

  /** The route's nodes; with no Listener object at all, its own nodes are taken as they are. */
  function AuditNodes(listeners: map<string, Listener>, r: Route): seq<NodeId> {
    if listeners == map[] then r.home else RouteNodes(listeners, r)
  }

  predicate SharesNode(a: seq<NodeId>, b: seq<NodeId>) {
    exists n :: n in a && n in b
  }

  /** Could the audit serve the route if it were alone? */
  predicate AuditEligible(listeners: map<string, Listener>, r: Route) {
    && Compile(r.spec.chainMatch).Some?
    && AuditNodes(listeners, r) != []
    && !StaticConflict(listeners, r.spec.refs, Compile(r.spec.chainMatch).value, NodeSet(AuditNodes(listeners, r)))
  }

  predicate Beats(s: Placed, p: Placed) {
    SharesNode(s.nodes, p.nodes) && RouteConflict(s.route.spec, p.route.spec, s.matcher, p.matcher) != Apart
  }

  function AsPlaced(listeners: map<string, Listener>, r: Route): Placed
    requires Compile(r.spec.chainMatch).Some?
  {
    Placed(r, Compile(r.spec.chainMatch).value, AuditNodes(listeners, r))
  }

  ghost predicate InServed(served: seq<Placed>, r: Route) {
    exists p :: p in served && p.route == r
  }

  /** The served list holds exactly the eligible routes no older served route beats. */
  ghost predicate GreedyList(listeners: map<string, Listener>, routes: seq<Route>, served: seq<Placed>) {
    && (forall p :: p in served ==>
          p.route in routes && AuditEligible(listeners, p.route) && p == AsPlaced(listeners, p.route))
    && (forall r :: r in routes && AuditEligible(listeners, r) ==>
          (InServed(served, r) <==> !Beaten(listeners, served, r)))
  }

  ghost predicate OldestFirst(served: seq<Placed>) {
    forall i, j :: 0 <= i < j < |served| ==> AuditOlder(served[i].route, served[j].route)
  }

  /** Does an older served route beat the route? */
  ghost predicate Beaten(listeners: map<string, Listener>, served: seq<Placed>, r: Route)
    requires Compile(r.spec.chainMatch).Some?
  {
    exists s :: s in served && AuditOlder(s.route, r) && Beats(s, AsPlaced(listeners, r))
  }

  function SharedNodes(a: seq<NodeId>, b: seq<NodeId>): (shared: seq<NodeId>)
    ensures forall n :: n in shared <==> n in a && n in b
  {
    if a == [] then [] else (if a[0] in b then [a[0]] else []) + SharedNodes(a[1..], b)
  }

  /** Does the line give a true reason against p: a static chain, or an older served route it cannot coexist with? */
  predicate Explained(p: Placed, served: seq<Placed>, listeners: map<string, Listener>, line: Line) {
    line.route == p.route.name &&
    match line
    case Invalid(_) => false
    case StaticEvicts(l, _, shared) =>
      && l in p.route.spec.refs && l in listeners
      && StaticOn(listeners[l], p.matcher, NodeSet(p.nodes))
      && shared == SharedNodes(p.nodes, listeners[l].home)
    case RouteEvicts(winner, _, v, shared) =>
      exists s :: s in served && s.route.name == winner && AuditOlder(s.route, p.route)
                  && Beats(s, p) && v == RouteConflict(s.route.spec, p.route.spec, s.matcher, p.matcher)
                  && shared == SharedNodes(p.nodes, s.nodes)
  }

  /** The first reason not to serve p next to the older routes already served. */
  method Conflict(p: Placed, served: seq<Placed>, listeners: map<string, Listener>) returns (line: Option<Line>)
    requires forall s :: s in served ==> AuditOlder(s.route, p.route)
    ensures line.Some? <==>
      StaticConflict(listeners, p.route.spec.refs, p.matcher, NodeSet(p.nodes)) || exists s :: s in served && Beats(s, p)
    ensures line.Some? ==> Explained(p, served, listeners, line.value)
  {
    hide Compare, Compile, RouteConflict, AuditOlder;
    var refs := p.route.spec.refs;
    for i := 0 to |refs|
      invariant forall k :: 0 <= k < i && refs[k] in listeners ==> !StaticOn(listeners[refs[k]], p.matcher, NodeSet(p.nodes))
    {
      if refs[i] in listeners {
        var l := listeners[refs[i]];
        var shared := SharedNodes(p.nodes, l.home);
        if |shared| > 0 {
          assert shared[0] in p.nodes && shared[0] in l.home;
          for j := 0 to |l.chains|
            invariant forall k :: 0 <= k < j ==> !StaticDuplicate(p.matcher, l.chains[k])
          {
            if StaticDuplicate(p.matcher, l.chains[j]) {
              assert StaticOn(l, p.matcher, NodeSet(p.nodes));
              return Some(StaticEvicts(refs[i], p.route.name, shared));
            }
          }
        }
        assert !StaticOn(l, p.matcher, NodeSet(p.nodes));
      }
    }
    for i := 0 to |served|
      invariant forall k :: 0 <= k < i ==> !Beats(served[k], p)
    {
      var s := served[i];
      var shared := SharedNodes(p.nodes, s.nodes);
      if |shared| > 0 {
        assert shared[0] in p.nodes && shared[0] in s.nodes;
        var v := RouteConflict(s.route.spec, p.route.spec, s.matcher, p.matcher);
        if v != Apart {
          assert Beats(s, p);
          return Some(RouteEvicts(s.route.name, p.route.name, v, shared));
        }
      }
    }
    return None;
  }

  // ---------------------------------------------------------------- the report

  /** The route is invalid, or has nodes and is not served. */
  ghost predicate Problem(listeners: map<string, Listener>, served: seq<Placed>, r: Route) {
    Compile(r.spec.chainMatch).None? || (AuditNodes(listeners, r) != [] && !InServed(served, r))
  }

  predicate Accounts(listeners: map<string, Listener>, served: seq<Placed>, r: Route, line: Line) {
    if Compile(r.spec.chainMatch).None? then line == Invalid(r.name)
    else Explained(AsPlaced(listeners, r), served, listeners, line)
  }

  ghost predicate Reports(report: seq<Line>, name: string) {
    exists k :: 0 <= k < |report| && report[k].route == name
  }

  ghost predicate AccountedFor(listeners: map<string, Listener>, routes: seq<Route>, served: seq<Placed>, line: Line) {
    exists r :: r in routes && Accounts(listeners, served, r, line)
  }

  /** The report holds one true line for every problem route, and no other line. */
  ghost predicate ReportRight(listeners: map<string, Listener>, routes: seq<Route>, served: seq<Placed>, report: seq<Line>) {
    && (forall k :: 0 <= k < |report| ==> AccountedFor(listeners, routes, served, report[k]))
    && (forall j, k :: 0 <= j < k < |report| ==> report[j].route != report[k].route)
    && (forall r :: r in routes ==> (Reports(report, r.name) <==> Problem(listeners, served, r)))
  }

  lemma NamesARoute(listeners: map<string, Listener>, routes: seq<Route>, served: seq<Placed>, line: Line)
    requires AccountedFor(listeners, routes, served, line)
    ensures exists x :: x in routes && x.name == line.route
  {
    hide Compile, StaticOn, AuditNodes, Beats, AuditOlder, RouteConflict;
    var x :| x in routes && Accounts(listeners, served, x, line);
    assert line.route == x.name;
  }

  lemma StillAccounted(
      listeners: map<string, Listener>, routes: seq<Route>, others: seq<Route>, served: seq<Placed>, more: seq<Placed>, line: Line)
    requires AccountedFor(listeners, routes, served, line)
    requires (forall x :: x in routes ==> x in others) && (forall s :: s in served ==> s in more)
    ensures AccountedFor(listeners, others, more, line)
  {
    hide Compile, StaticOn, AuditNodes, Beats, AuditOlder, RouteConflict;
    var x :| x in routes && Accounts(listeners, served, x, line);
    assert Accounts(listeners, more, x, line);
  }

  /** A rejected route gets its line. */
  lemma ReportAdds(listeners: map<string, Listener>, routes: seq<Route>, r: Route, served: seq<Placed>, report: seq<Line>, line: Line)
    requires ReportRight(listeners, routes, served, report)
    requires forall x :: x in routes ==> x.name != r.name
    requires AccountedFor(listeners, [r], served, line) && Problem(listeners, served, r) && line.route == r.name
    ensures ReportRight(listeners, routes + [r], served, report + [line])
  {
    hide Problem, AccountedFor;
    var more := report + [line];
    assert more[|report|].route == r.name;
    forall k | 0 <= k < |report|
      ensures AccountedFor(listeners, routes + [r], served, report[k]) && report[k].route != r.name
    {
      NamesARoute(listeners, routes, served, report[k]);
      StillAccounted(listeners, routes, routes + [r], served, served, report[k]);
    }
    StillAccounted(listeners, [r], routes + [r], served, served, line);
    forall x | x in routes
      ensures Reports(more, x.name) <==> Reports(report, x.name)
    {
      if Reports(report, x.name) {
        var k :| 0 <= k < |report| && report[k].route == x.name;
        assert more[k].route == x.name;
      }
    }
  }

  /** A route that is passed over or served needs no line. */
  lemma ReportStays(listeners: map<string, Listener>, routes: seq<Route>, r: Route, served: seq<Placed>, more: seq<Placed>, report: seq<Line>)
    requires ReportRight(listeners, routes, served, report)
    requires forall x :: x in routes ==> x.name != r.name
    requires more == served || (Compile(r.spec.chainMatch).Some? && more == served + [AsPlaced(listeners, r)])
    requires !Problem(listeners, more, r)
    ensures ReportRight(listeners, routes + [r], more, report)
  {
    hide Problem, AccountedFor, Compile, AuditNodes;
    forall k | 0 <= k < |report|
      ensures AccountedFor(listeners, routes + [r], more, report[k]) && report[k].route != r.name
    {
      NamesARoute(listeners, routes, served, report[k]);
      StillAccounted(listeners, routes, routes + [r], served, more, report[k]);
    }
    forall x | x in routes
      ensures Problem(listeners, more, x) <==> Problem(listeners, served, x)
    {
      SameProblem(listeners, served, more, r, x);
    }
  }

  lemma SameProblem(listeners: map<string, Listener>, served: seq<Placed>, more: seq<Placed>, r: Route, x: Route)
    requires x.name != r.name
    requires more == served || (Compile(r.spec.chainMatch).Some? && more == served + [AsPlaced(listeners, r)])
    ensures Problem(listeners, more, x) <==> Problem(listeners, served, x)
  {
    hide Compile, AuditNodes;
    if InServed(served, x) {
      var p :| p in served && p.route == x;
      assert p in more;
    }
  }

  lemma ReportPermutes(listeners: map<string, Listener>, routes: seq<Route>, input: seq<Route>, served: seq<Placed>, report: seq<Line>)
    requires ReportRight(listeners, routes, served, report) && forall x :: x in routes <==> x in input
    ensures ReportRight(listeners, input, served, report)
  {
    hide Problem, AccountedFor;
    forall k | 0 <= k < |report|
      ensures AccountedFor(listeners, input, served, report[k])
    {
      StillAccounted(listeners, routes, input, served, served, report[k]);
    }
  }

  // ---------------------------------------------------------------- the audit

  ghost predicate UniqueRoutes(routes: seq<Route>) {
    forall i, j :: 0 <= i < j < |routes| ==> routes[i].name != routes[j].name
  }

  lemma OnceInUnique(routes: seq<Route>, k: nat)
    requires UniqueRoutes(routes) && k < |routes|
    ensures multiset(routes)[routes[k]] == 1
    ensures forall r :: r in routes && r.name == routes[k].name ==> r == routes[k]
  {
    var x := routes[k];
    assert routes == routes[..k] + [x] + routes[k + 1..];
    assert x !in routes[..k] && x !in routes[k + 1..];
  }

  lemma TwiceInRepeated(routes: seq<Route>, i: nat, j: nat)
    requires i < j < |routes| && routes[i] == routes[j]
    ensures multiset(routes)[routes[i]] >= 2
  {
    assert routes == routes[..j] + routes[j..];
    assert routes[..j][i] == routes[i] && routes[j..][0] == routes[i];
  }

  lemma PermutedUnique(a: seq<Route>, b: seq<Route>)
    requires UniqueRoutes(a) && multiset(a) == multiset(b)
    ensures UniqueRoutes(b)
  {
    SameElements(a, b);
    forall i, j | 0 <= i < j < |b| && b[i].name == b[j].name
      ensures false
    {
      assert b[i] in a && b[j] in a;
      var k :| 0 <= k < |a| && a[k] == b[i];
      OnceInUnique(a, k);
      TwiceInRepeated(b, i, j);
    }
  }

  /** The next route in age order differs from, and is not older than, every route before it. */
  lemma ComesLast(routes: seq<Route>, i: nat)
    requires Sorted(AuditOlder, routes) && UniqueRoutes(routes) && i < |routes|
    ensures routes[..i + 1] == routes[..i] + [routes[i]]
    ensures forall x :: x in routes[..i] ==> AuditOlder(x, routes[i]) && !AuditOlder(routes[i], x) && x.name != routes[i].name
  {
    forall x | x in routes[..i]
      ensures AuditOlder(x, routes[i]) && !AuditOlder(routes[i], x) && x.name != routes[i].name
    {
      var k :| 0 <= k < i && routes[k] == x;
      OlderKeyTotal(x.created, x.name, routes[i].created, routes[i].name);
    }
  }

  lemma ListSkips(listeners: map<string, Listener>, routes: seq<Route>, r: Route, served: seq<Placed>)
    requires GreedyList(listeners, routes, served)
    requires forall x :: x in routes ==> AuditOlder(x, r) && !AuditOlder(r, x) && x != r
    requires AuditEligible(listeners, r) ==> exists s :: s in served && Beats(s, AsPlaced(listeners, r))
    ensures GreedyList(listeners, routes + [r], served)
  {
    hide StaticConflict, RouteConflict, Compile, RouteNodes, AuditOlder, Beats;
  }

  lemma ListServes(listeners: map<string, Listener>, routes: seq<Route>, r: Route, served: seq<Placed>)
    requires GreedyList(listeners, routes, served)
    requires forall x :: x in routes ==> AuditOlder(x, r) && !AuditOlder(r, x) && x != r
    requires AuditEligible(listeners, r) && !exists s :: s in served && Beats(s, AsPlaced(listeners, r))
    ensures GreedyList(listeners, routes + [r], served + [AsPlaced(listeners, r)])
  {
    hide StaticConflict, RouteConflict, RouteNodes, AuditOlder, Beats, Compile;
    var more := served + [AsPlaced(listeners, r)];
    forall x | x in routes + [r]
      ensures InServed(more, x) <==> InServed(served, x) || x == r
    {
      if x == r {
        assert AsPlaced(listeners, r) in more;
      }
      if InServed(served, x) {
        var p :| p in served && p.route == x;
        assert p in more;
      }
    }
    forall x | x in routes + [r] && AuditEligible(listeners, x)
      ensures Beaten(listeners, more, x) <==> Beaten(listeners, served, x)
    {
      CompileOfEligible(listeners, x);
      if Beaten(listeners, served, x) {
        var s :| s in served && AuditOlder(s.route, x) && Beats(s, AsPlaced(listeners, x));
        assert s in more;
      }
      YoungestBeatsNobody(r, x);
    }
  }

  lemma CompileOfEligible(listeners: map<string, Listener>, r: Route)
    requires AuditEligible(listeners, r)
    ensures Compile(r.spec.chainMatch).Some?
  {
  }

  lemma YoungestBeatsNobody(r: Route, x: Route)
    requires x == r || AuditOlder(x, r)
    ensures !AuditOlder(r, x)
  {
    OlderKeyTotal(x.created, x.name, r.created, r.name);
  }

  lemma ListPermutes(listeners: map<string, Listener>, routes: seq<Route>, input: seq<Route>, served: seq<Placed>)
    requires GreedyList(listeners, routes, served) && forall x :: x in routes <==> x in input
    ensures GreedyList(listeners, input, served)
  {
    hide AuditEligible, Beats, AuditOlder, AsPlaced;
  }

  /** What the audit has found out after the routes seen so far. */
  ghost predicate Found(listeners: map<string, Listener>, routes: seq<Route>, served: seq<Placed>, report: seq<Line>) {
    GreedyList(listeners, routes, served) && ReportRight(listeners, routes, served, report)
  }

  lemma Rejects(listeners: map<string, Listener>, routes: seq<Route>, i: nat, served: seq<Placed>, report: seq<Line>, line: Line)
    requires Sorted(AuditOlder, routes) && UniqueRoutes(routes) && i < |routes|
    requires Found(listeners, routes[..i], served, report)
    requires AuditEligible(listeners, routes[i]) ==> exists s :: s in served && Beats(s, AsPlaced(listeners, routes[i]))
    requires Accounts(listeners, served, routes[i], line) && line.route == routes[i].name
    requires Compile(routes[i].spec.chainMatch).None? || AuditNodes(listeners, routes[i]) != []
    ensures Found(listeners, routes[..i + 1], served, report + [line])
  {
    hide AuditEligible, Beats, Accounts, ReportRight, GreedyList, AuditOlder, Compile, AuditNodes;
    ComesLast(routes, i);
    NotYetServed(listeners, routes[..i], routes[i], served);
    OwnLine(listeners, served, routes[i], line);
    ListSkips(listeners, routes[..i], routes[i], served);
    ReportAdds(listeners, routes[..i], routes[i], served, report, line);
  }

  lemma OwnLine(listeners: map<string, Listener>, served: seq<Placed>, r: Route, line: Line)
    requires Accounts(listeners, served, r, line)
    ensures AccountedFor(listeners, [r], served, line)
  {
    hide Compile, Explained;
    assert r in [r];
  }

  lemma NotYetServed(listeners: map<string, Listener>, routes: seq<Route>, r: Route, served: seq<Placed>)
    requires GreedyList(listeners, routes, served) && r !in routes
    ensures !InServed(served, r)
  {
    hide AuditEligible, Beats, AsPlaced, AuditOlder;
  }

  lemma PassesOver(listeners: map<string, Listener>, routes: seq<Route>, i: nat, served: seq<Placed>, report: seq<Line>)
    requires Sorted(AuditOlder, routes) && UniqueRoutes(routes) && i < |routes|
    requires Found(listeners, routes[..i], served, report)
    requires Compile(routes[i].spec.chainMatch).Some? && AuditNodes(listeners, routes[i]) == []
    ensures Found(listeners, routes[..i + 1], served, report)
  {
    hide Beats, ReportRight, GreedyList, AuditOlder, Compile, AuditNodes, StaticConflict;
    ComesLast(routes, i);
    ListSkips(listeners, routes[..i], routes[i], served);
    ReportStays(listeners, routes[..i], routes[i], served, served, report);
  }

  lemma Serves(listeners: map<string, Listener>, routes: seq<Route>, i: nat, served: seq<Placed>, report: seq<Line>)
    requires Sorted(AuditOlder, routes) && UniqueRoutes(routes) && i < |routes|
    requires Found(listeners, routes[..i], served, report)
    requires AuditEligible(listeners, routes[i]) && !exists s :: s in served && Beats(s, AsPlaced(listeners, routes[i]))
    ensures Found(listeners, routes[..i + 1], served + [AsPlaced(listeners, routes[i])], report)
  {
    hide Beats, ReportRight, GreedyList, AuditOlder, Compile, AuditNodes, StaticConflict;
    ComesLast(routes, i);
    var more := served + [AsPlaced(listeners, routes[i])];
    assert AsPlaced(listeners, routes[i]) in more;
    ListServes(listeners, routes[..i], routes[i], served);
    ReportStays(listeners, routes[..i], routes[i], served, more, report);
  }

  lemma ServedAreOlder(listeners: map<string, Listener>, routes: seq<Route>, i: nat, served: seq<Placed>)
    requires Sorted(AuditOlder, routes) && UniqueRoutes(routes) && i < |routes|
    requires GreedyList(listeners, routes[..i], served)
    ensures forall s :: s in served ==> AuditOlder(s.route, routes[i])
  {
    hide AuditOlder, AuditEligible, AsPlaced, Beats;
    ComesLast(routes, i);
  }

  /** Places the routes by age, and reports every route it does not serve. */
  method Audit(input: seq<Route>, listeners: map<string, Listener>)
    returns (served: seq<Placed>, report: seq<Line>, problems: nat)
    requires UniqueRoutes(input)
    ensures GreedyList(listeners, input, served) && OldestFirst(served)
    ensures ReportRight(listeners, input, served, report) && problems == |report|
  {
    hide StaticConflict, RouteConflict, Compile, RouteNodes, AuditOlder, GreedyList, ReportRight, Beats, Sort, Sorted, AuditNodes, UniqueRoutes, StaticOn, Explained;
    var routes := Sort(AuditOlder, input);
    AuditOlderWeakOrder();
    SortSorts(AuditOlder, input);
    SameElements(routes, input);
    PermutedUnique(input, routes);
    served, report := [], [];
    NothingServed(listeners);
    for i := 0 to |routes|
      invariant Found(listeners, routes[..i], served, report)
      invariant OldestFirst(served)
    {
      var r := routes[i];
      var m := Compile(r.spec.chainMatch);
      if m.None? {
        Rejects(listeners, routes, i, served, report, Invalid(r.name));
        report := report + [Invalid(r.name)];
        continue;
      }
      var p := Placed(r, m.value, AuditNodes(listeners, r));
      if |p.nodes| == 0 {
        PassesOver(listeners, routes, i, served, report);
        continue;
      }
      ServedAreOlder(listeners, routes, i, served);
      var line := Conflict(p, served, listeners);
      if line.Some? {
        LineNames(p, served, listeners, line.value);
        Rejects(listeners, routes, i, served, report, line.value);
        report := report + [line.value];
        continue;
      }
      Serves(listeners, routes, i, served, report);
      served := served + [p];
    }
    assert routes[..|routes|] == routes;
    ListPermutes(listeners, routes, input, served);
    ReportPermutes(listeners, routes, input, served, report);
    problems := |report|;
  }

  lemma LineNames(p: Placed, served: seq<Placed>, listeners: map<string, Listener>, line: Line)
    requires Explained(p, served, listeners, line)
    ensures line.route == p.route.name
  {
  }

  lemma NothingServed(listeners: map<string, Listener>)
    ensures Found(listeners, [], [], [])
  {
  }

  // ---------------------------------------------------------------- agreement with the controller

  /** The cluster as the audit reads it: it never tries to convert route_config. */
  function AuditView(w: World): World {
    w.(routes := map n | n in w.routes :: w.routes[n].(spec := w.routes[n].spec.(recasts := true)))
  }

  /** The audit's input: the cluster's routes, each once, all of them created. */
  ghost predicate InputOf(w: World, routes: seq<Route>) {
    && (forall r :: r in routes <==> r.name in w.routes && r == w.routes[r.name])
    && (forall r :: r in routes ==> r.created != 0)
  }

  lemma ViewSame(w: World, n: string)
    requires n in w.routes
    ensures var v := AuditView(w);
      && n in v.routes
      && RouteNodes(v.listeners, v.routes[n]) == RouteNodes(w.listeners, w.routes[n])
      && (Eligible(w, n) <==> Eligible(v, n) && w.routes[n].spec.recasts)
  {
    hide Compile, StaticConflict;
  }

  /** A view route is eligible exactly when the audit finds it so. */
  lemma AuditEligibleIsEligible(w: World, n: string)
    requires n in w.routes && w.listeners != map[]
    ensures AuditEligible(w.listeners, w.routes[n]) <==> Eligible(AuditView(w), n)
  {
    hide Compile, StaticConflict;
    ViewSame(w, n);
    var nodes := RouteNodes(w.listeners, w.routes[n]);
    assert nodes != [] ==> Hosted(w.listeners, w.routes[n].spec.refs, nodes[0]);
  }

  /** What the audit serves is the greedy placement of the cluster as it reads it. */
  lemma {:induction false} AuditIsGreedy(w: World, born: string -> nat, routes: seq<Route>, served: seq<Placed>, n: string)
    requires WellNamed(w, born) && InputOf(w, routes) && w.listeners != map[]
    requires GreedyList(w.listeners, routes, served)
    requires n in w.routes
    ensures InServed(served, w.routes[n]) <==> Greedy(AuditView(w), born, n)
    decreases OlderThan(AuditView(w), born, n)
  {
    hide Compile, StaticConflict, RouteNodes, Eligible, AuditEligible, Beats, LexLess;
    var v := AuditView(w);
    AuditEligibleIsEligible(w, n);
    if Eligible(v, n) {
      CompileOfEligible(w.listeners, w.routes[n]);
      forall m | m in Rivals(v, born, n) && Greedy(v, born, m)
        ensures Beaten(w.listeners, served, w.routes[n])
      {
        OlderThanShrinks(v, born, m, n);
        AuditIsGreedy(w, born, routes, served, m);
        var s :| s in served && s.route == w.routes[m];
        RivalBeats(w, born, s, m, n);
      }
      if Beaten(w.listeners, served, w.routes[n]) {
        var s :| s in served && AuditOlder(s.route, w.routes[n]) && Beats(s, AsPlaced(w.listeners, w.routes[n]));
        var m := s.route.name;
        AuditEligibleIsEligible(w, m);
        RivalBeats(w, born, s, m, n);
        OlderThanShrinks(v, born, m, n);
        AuditIsGreedy(w, born, routes, served, m);
        assert InServed(served, s.route);
      }
    }
  }

  /** Beating, for the audit, is being an older rival in the cluster it reads. */
  lemma RivalBeats(w: World, born: string -> nat, s: Placed, m: string, n: string)
    requires WellNamed(w, born) && w.listeners != map[] && m in w.routes && n in w.routes
    requires w.routes[m].created != 0 && w.routes[n].created != 0
    requires Eligible(AuditView(w), m) && Eligible(AuditView(w), n)
    requires s.route == w.routes[m] && AuditEligible(w.listeners, s.route) && s == AsPlaced(w.listeners, s.route)
    requires Compile(w.routes[n].spec.chainMatch).Some?
    ensures m in Rivals(AuditView(w), born, n) <==>
      AuditOlder(s.route, w.routes[n]) && Beats(s, AsPlaced(w.listeners, w.routes[n]))
  {
    hide Compile, StaticConflict, LexLess, HostedNodes, Compare;
    ViewSame(w, m);
    ViewSame(w, n);
  }

  /** No route the audit would serve fails to convert. */
  ghost predicate ServedRecast(w: World, born: string -> nat) {
    forall n :: n in w.routes && Greedy(AuditView(w), born, n) ==> w.routes[n].spec.recasts
  }

  lemma OnlyKnownServed(w: World, born: string -> nat, n: string)
    requires n !in w.routes
    ensures !Greedy(w, born, n) && !Greedy(AuditView(w), born, n)
  {
  }

  /** Do the controller's and the audit's greedy pass choose the same routes? */
  ghost predicate SameChoice(w: World, born: string -> nat) {
    forall n :: Greedy(w, born, n) <==> Greedy(AuditView(w), born, n)
  }

  /** Are the audited routes exactly the stored ones? */
  ghost predicate Predicts(w: World, store: Store, served: seq<Placed>) {
    forall n :: n in w.routes ==> (Stored(store, n) <==> InServed(served, w.routes[n]))
  }

  predicate AllRecast(served: seq<Placed>) {
    forall p :: p in served ==> p.route.spec.recasts
  }

  lemma {:induction false} ViewAgrees(w: World, born: string -> nat, n: string)
    requires ServedRecast(w, born)
    ensures Greedy(w, born, n) <==> Greedy(AuditView(w), born, n)
    decreases OlderThan(w, born, n)
  {
    hide Compile, StaticConflict, RouteNodes, Eligible, LexLess, ShareNode, Clash;
    var v := AuditView(w);
    if n !in w.routes {
      OnlyKnownServed(w, born, n);
    } else {
      ViewSame(w, n);
      if Eligible(w, n) {
        forall m | m in Rivals(v, born, n)
          ensures m in w.routes && Older(born, m, n)
          ensures m in Rivals(w, born, n) <==> w.routes[m].spec.recasts
        {
          ViewRival(w, born, m, n);
        }
        forall m | m in Rivals(w, born, n)
          ensures m in Rivals(v, born, n)
        {
          ViewRival(w, born, m, n);
        }
        forall m | m in Rivals(v, born, n)
          ensures Greedy(w, born, m) <==> Greedy(v, born, m)
        {
          OlderThanShrinks(w, born, m, n);
          ViewAgrees(w, born, m);
        }
        GreedyUnfolds(w, born, n);
        GreedyUnfolds(v, born, n);
      }
    }
  }

  lemma GreedyUnfolds(w: World, born: string -> nat, n: string)
    requires Eligible(w, n)
    ensures Greedy(w, born, n) <==> forall m :: m in Rivals(w, born, n) ==> !Greedy(w, born, m)
  {
    hide Compile, StaticConflict, RouteNodes, Eligible, LexLess, Rivals;
    if Greedy(w, born, n) {
      forall m | m in Rivals(w, born, n)
        ensures !Greedy(w, born, m)
      {
        RivalIsOlder(w, born, m, n);
        OlderThanShrinks(w, born, m, n);
      }
    }
  }

  lemma RivalIsOlder(w: World, born: string -> nat, m: string, n: string)
    requires Eligible(w, n) && m in Rivals(w, born, n)
    ensures m in w.routes && Older(born, m, n)
  {
    hide Eligible, ShareNode, Clash, OlderKey;
  }

  lemma ViewRival(w: World, born: string -> nat, m: string, n: string)
    requires m in w.routes && n in w.routes && Eligible(w, n) && Eligible(AuditView(w), n)
    ensures m in Rivals(w, born, n) <==> m in Rivals(AuditView(w), born, n) && w.routes[m].spec.recasts
  {
    hide Compile, StaticConflict, HostedNodes, LexLess, Compare;
    ViewSame(w, m);
    ViewSame(w, n);
  }

  /**
   * The audit ignores whether route_config converts, the controller does not. They choose the same
   * routes exactly when every route the audit serves converts.
   */
  lemma AuditAgreesIff(w: World, born: string -> nat)
    ensures SameChoice(w, born) <==> ServedRecast(w, born)
  {
    if ServedRecast(w, born) {
      forall n {
        ViewAgrees(w, born, n);
      }
    } else {
      hide StaticConflict, RouteNodes, LexLess, Compile;
      var n :| n in w.routes && Greedy(AuditView(w), born, n) && !w.routes[n].spec.recasts;
      ViewSame(w, n);
      assert !Greedy(w, born, n);
    }
  }

  /** After any run whose queue has drained, the audit of the cluster names exactly the routes served. */
  lemma AuditPredictsController(w: World, born: string -> nat, s: State, routes: seq<Route>, served: seq<Placed>)
    requires Inv(w, born, s) && s.queue == {} && NoBrokenStored(w, s.store)
    requires InputOf(w, routes) && w.listeners != map[] && GreedyList(w.listeners, routes, served)
    ensures Predicts(w, s.store, served) <==> AllRecast(served)
  {
    hide Greedy, Inv, NoBrokenStored, GreedyList, InputOf, Stored, InServed, SameChoice, AllRecast, ServedRecast;
    InvNamed(w, born, s);
    forall n | n in w.routes
      ensures InServed(served, w.routes[n]) <==> Greedy(AuditView(w), born, n)
    {
      AuditIsGreedy(w, born, routes, served, n);
    }
    forall n | n in w.routes
      ensures Stored(s.store, n) <==> Greedy(w, born, n)
    {
      StoredIffGreedy(w, born, s, n);
    }
    PredictsIffSame(w, born, s.store, served);
    AuditAgreesIff(w, born);
    RecastsIff(w, born, routes, served);
  }

  lemma PredictsIffSame(w: World, born: string -> nat, store: Store, served: seq<Placed>)
    requires forall n :: n in w.routes ==> (InServed(served, w.routes[n]) <==> Greedy(AuditView(w), born, n))
    requires forall n :: n in w.routes ==> (Stored(store, n) <==> Greedy(w, born, n))
    ensures Predicts(w, store, served) <==> SameChoice(w, born)
  {
    hide Greedy, Stored, InServed;
    if Predicts(w, store, served) {
      forall n
        ensures Greedy(w, born, n) <==> Greedy(AuditView(w), born, n)
      {
        if n !in w.routes {
          OnlyKnownServed(w, born, n);
        }
      }
    }
  }

  lemma RecastsIff(w: World, born: string -> nat, routes: seq<Route>, served: seq<Placed>)
    requires InputOf(w, routes) && GreedyList(w.listeners, routes, served)
    requires forall n :: n in w.routes ==> (InServed(served, w.routes[n]) <==> Greedy(AuditView(w), born, n))
    ensures AllRecast(served) <==> ServedRecast(w, born)
  {
    hide Greedy, AuditEligible, Beaten, AsPlaced;
    forall p | p in served
      ensures p.route.name in w.routes && w.routes[p.route.name] == p.route && InServed(served, p.route)
    {
      assert p.route in routes;
    }
  }

  lemma InvNamed(w: World, born: string -> nat, s: State)
    requires Inv(w, born, s)
    ensures WellNamed(w, born)
  {
    hide Fresh, Covered, NodeSafe, Uniform;
  }

  /**
   * Without any Listener object the controller serves nothing, but the audit assumes every
   * listener: they agree only when no route has a valid matcher and a node.
   */
  lemma NoListenersDisagree(w: World, born: string -> nat, routes: seq<Route>, served: seq<Placed>)
    requires w.listeners == map[] && GreedyList(w.listeners, routes, served)
    ensures forall n :: !Greedy(w, born, n)
    ensures served == [] <==> forall r :: r in routes ==> Compile(r.spec.chainMatch).None? || r.home == []
  {
    hide Compile, RouteConflict;
    forall n | n in w.routes
      ensures RouteNodes(w.listeners, w.routes[n]) == []
    {
      var nodes := RouteNodes(w.listeners, w.routes[n]);
      assert nodes != [] ==> Hosted(w.listeners, w.routes[n].spec.refs, nodes[0]);
    }
    if served != [] {
      assert served[0] in served;
    }
    forall r | r in routes && Compile(r.spec.chainMatch).Some? && r.home != []
      ensures served != []
    {
      assert AuditEligible(w.listeners, r);
    }
  }
}
