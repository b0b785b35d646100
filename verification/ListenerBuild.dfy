/** LDS: building a listener's filter chains from its own chains and the routes attached to it. */
module ListenerBuild {
  import opened Prelude
  import opened Matching
  import opened Sorting
  import opened Routes
  import opened RouteStore

  /** A chain's transport socket: none, or one with the named secrets. */
  datatype Transport = Plain | Tls(secrets: seq<string>, alpn: seq<string>) | Quic(secrets: seq<string>)

  /** A chain's filters: an HTTP connection manager, its codec apart from its other settings, or anything else. */
  datatype Filters = Http(codec: Codec, settings: string) | Other(content: string)

  /** A filter chain; rdsNames are the route configurations its HTTP connection managers ask for. */
  datatype FilterChain = FilterChain(chainMatch: Option<ChainMatch>, rdsNames: seq<string>, filters: Filters, transport: Transport)

  function MatchOf(fc: FilterChain): ChainMatch {
    if fc.chainMatch.Some? then fc.chainMatch.value else CATCH_ALL
  }

  // ---------------------------------------------------------------- building one route's chain

  /** The chain for a route: no matcher is a match error, a matcher without a chain a chain error. */
  datatype Built = Built(matcher: Option<Matcher>, chain: Option<FilterChain>)

  /** Does a stand in the list before any b? */
  ghost predicate Before(names: seq<string>, a: string, b: string) {
    exists p :: 0 <= p < |names| && names[p] == a && b !in names[..p]
  }

  /** The names not blank, each at its first place. */
  function Distinct(names: seq<string>): (out: seq<string>)
    ensures forall s :: s in out <==> s != "" && s in names
    ensures NoRepeats(out)
    decreases |names|
  {
    if names == [] then []
    else
      var init, last := Distinct(names[..|names| - 1]), names[|names| - 1];
      if last == "" || last in init then init else init + [last]
  }

  function SecretNamesOf(s: RouteSpec): seq<string> {
    Distinct([s.secretRef] + s.secretRefs)
  }

  lemma {:induction false} DistinctInOrder(names: seq<string>, i: nat, j: nat)
    requires i < j < |Distinct(names)|
    ensures Before(names, Distinct(names)[i], Distinct(names)[j])
    decreases |names|
  {
    var shorter := names[..|names| - 1];
    var init, out := Distinct(shorter), Distinct(names);
    if j < |init| {
      DistinctInOrder(shorter, i, j);
    } else {
      assert out[i] in shorter && out[j] !in shorter;
    }
    var p :| 0 <= p < |shorter| && shorter[p] == out[i] && out[j] !in shorter[..p];
    assert names[p] == out[i] && names[..p] == shorter[..p];
  }

  /** tlssecret_ref first, then tlssecret_refs, without blanks and repeats. */
  method SecretNames(s: RouteSpec) returns (names: seq<string>)
    ensures names == SecretNamesOf(s)
  {
    var refs := [s.secretRef] + s.secretRefs;
    names := [];
    for i := 0 to |refs|
      invariant names == Distinct(refs[..i])
    {
      assert refs[..i + 1][..i] == refs[..i];
      if refs[i] != "" && refs[i] !in names {
        names := names + [refs[i]];
      }
    }
    assert refs[..|refs|] == refs;
  }

  function TransportFor(s: RouteSpec, quic: bool): Transport {
    var secrets := SecretNamesOf(s);
    if secrets == [] then Plain
    else if quic then Quic(secrets)
    else Tls(secrets, s.chainMatch.applicationProtocols)
  }

  function RouteChain(r: Route, quic: bool): FilterChain {
    var codec := if quic && r.spec.hcm.codec.Auto? then Http3 else r.spec.hcm.codec;
    FilterChain(Some(r.spec.chainMatch), [r.name], Http(codec, r.spec.hcm.content), TransportFor(r.spec, quic))
  }

  /** Does the route name a secret? */
  ghost predicate HasSecrets(s: RouteSpec) {
    s.secretRef != "" || exists x :: x in s.secretRefs && x != ""
  }

  /** The names, each once, exactly those the route gives, in the order it gives them, tlssecret_ref first. */
  ghost predicate ListsSecrets(secrets: seq<string>, s: RouteSpec) {
    && NoRepeats(secrets)
    && (forall x :: x in secrets <==> x != "" && (x == s.secretRef || x in s.secretRefs))
    && (forall i, j :: 0 <= i < j < |secrets| ==> Before([s.secretRef] + s.secretRefs, secrets[i], secrets[j]))
  }

  /**
   * What the route's chain carries on a listener that is QUIC or not: its match, its name for RDS, its
   * connection manager settings, HTTP/3 in place of an automatic codec on QUIC, and its secrets on the
   * listener's kind of transport.
   */
  ghost predicate Carries(c: FilterChain, r: Route, quic: bool) {
    && c.chainMatch == Some(r.spec.chainMatch)
    && c.rdsNames == [r.name]
    && c.filters.Http? && c.filters.settings == r.spec.hcm.content
    && (quic && r.spec.hcm.codec == Auto ==> c.filters.codec == Http3)
    && (!quic || r.spec.hcm.codec != Auto ==> c.filters.codec == r.spec.hcm.codec)
    && (c.transport.Plain? <==> !HasSecrets(r.spec))
    && (c.transport.Quic? <==> quic && HasSecrets(r.spec))
    && (!c.transport.Plain? ==> ListsSecrets(c.transport.secrets, r.spec))
    && (c.transport.Tls? ==> c.transport.alpn == r.spec.chainMatch.applicationProtocols)
  }

  lemma RouteChainCarries(r: Route, quic: bool)
    ensures Carries(RouteChain(r, quic), r, quic)
  {
    var refs := [r.spec.secretRef] + r.spec.secretRefs;
    assert forall x :: x in refs <==> x == r.spec.secretRef || x in r.spec.secretRefs;
    forall i, j | 0 <= i < j < |Distinct(refs)|
      ensures Before(refs, Distinct(refs)[i], Distinct(refs)[j])
    {
      DistinctInOrder(refs, i, j);
    }
    var secrets := SecretNamesOf(r.spec);
    assert r.spec.secretRef in refs && (r.spec.secretRef != "" ==> r.spec.secretRef in secrets);
    forall x | x in r.spec.secretRefs && x != ""
      ensures x in secrets
    {
      assert x in refs;
    }
    if secrets != [] {
      assert secrets[0] in secrets;
    }
  }

  function BuildChain(r: Route, quic: bool): Built {
    var m := Compile(r.spec.chainMatch);
    if m.None? then Built(None, None)
    else if !r.spec.hcm.builds then Built(m, None)
    else Built(m, Some(RouteChain(r, quic)))
  }

  /** A stored Route: RDS stores a new object for every change, so the address is a cache key. */
  class RouteObject {
    const route: Route

    constructor (route: Route)
      ensures this.route == route
    {
      this.route := route;
    }
  }

  class ChainCache {
    var entries: map<(RouteObject, bool), Built>

    ghost predicate Valid()
      reads this
    {
      forall k :: k in entries ==> entries[k] == BuildChain(k.0.route, k.1)
    }

    constructor ()
      ensures Valid() && entries == map[]
    {
      entries := map[];
    }

    method Get(r: RouteObject, quic: bool) returns (b: Built)
      requires Valid()
      modifies this
      ensures Valid() && b == BuildChain(r.route, quic)
      ensures entries.Keys == old(entries).Keys + {(r, quic)}
    {
      var k := (r, quic);
      if k in entries {
        return entries[k];
      }
      b := BuildChain(r.route, quic);
      entries := entries[k := b];
    }

    /** Entries of routes that are not live go. */
    method Prune(live: set<RouteObject>)
      requires Valid()
      modifies this
      ensures Valid()
      ensures forall k :: k in entries <==> k in old(entries) && k.0 in live
    {
      var rest := entries.Keys;
      ghost var done: set<(RouteObject, bool)> := {};
      while rest != {}
        invariant rest + done == old(entries).Keys && rest !! done
        invariant Valid()
        invariant forall k :: k in entries <==> k in old(entries) && (k in rest || k.0 in live)
      {
        var k :| k in rest;
        if k.0 !in live {
          entries := entries - {k};
        }
        rest, done := rest - {k}, done + {k};
      }
    }
  }

  // ---------------------------------------------------------------- which chains a listener gets

  ghost predicate Collides(m: Matcher, placed: seq<Matcher>) {
    exists o :: o in placed && Compare(m, o) == Duplicate
  }

  predicate Builds(r: Route) {
    Compile(r.spec.chainMatch).Some? && r.spec.hcm.builds
  }

  function MatcherOf(r: Route): Matcher
    requires Builds(r)
  {
    Compile(r.spec.chainMatch).value
  }

  /** The routes that get a chain, in order, next to the chains already placed. */
  ghost function Accepted(placed: seq<Matcher>, routes: seq<Route>): (out: seq<Route>)
    ensures forall r :: r in out ==> r in routes && Builds(r)
    decreases |routes|
  {
    if routes == [] then []
    else
      var last := routes[|routes| - 1];
      var before := Accepted(placed, routes[..|routes| - 1]);
      if Builds(last) && !Collides(MatcherOf(last), placed + Matchers(before)) then before + [last] else before
  }

  function Matchers(rs: seq<Route>): (ms: seq<Matcher>)
    requires forall r :: r in rs ==> Builds(r)
    ensures |ms| == |rs|
    ensures forall i :: 0 <= i < |rs| ==> ms[i] == MatcherOf(rs[i])
  {
    seq(|rs|, i requires 0 <= i < |rs| => MatcherOf(rs[i]))
  }

  function Chains(rs: seq<Route>, quic: bool): seq<FilterChain> {
    seq(|rs|, i requires 0 <= i < |rs| => RouteChain(rs[i], quic))
  }

  predicate StaticsCompile(chains: seq<FilterChain>) {
    forall fc :: fc in chains ==> Compile(MatchOf(fc)).Some?
  }

  function StaticMatchers(chains: seq<FilterChain>): (ms: seq<Matcher>)
    requires StaticsCompile(chains)
    ensures |ms| == |chains|
    ensures forall i :: 0 <= i < |chains| ==> ms[i] == Compile(MatchOf(chains[i])).value
  {
    seq(|chains|, i requires 0 <= i < |chains| => assert chains[i] in chains; Compile(MatchOf(chains[i])).value)
  }

  /** No two matchers of the list would share a trie leaf. */
  ghost predicate Separate(ms: seq<Matcher>) {
    forall i, j :: 0 <= i < j < |ms| ==> Compare(ms[j], ms[i]) != Duplicate
  }

  ghost predicate StaticsOk(chains: seq<FilterChain>) {
    StaticsCompile(chains) && Separate(StaticMatchers(chains))
  }

  /** The chains of a built listener: its own, then those of the accepted routes. */
  ghost function ListenerChains(chains: seq<FilterChain>, routes: seq<Route>, quic: bool): Option<seq<FilterChain>> {
    if StaticsOk(chains) then Some(chains + Chains(Accepted(StaticMatchers(chains), routes), quic)) else None
  }

  /** The chains are the listener's own, then one per route in order that carries it. */
  ghost predicate AddsCarriers(chains: seq<FilterChain>, statics: seq<FilterChain>, routes: seq<Route>, quic: bool) {
    && |chains| == |statics| + |routes|
    && (forall i :: 0 <= i < |statics| ==> chains[i] == statics[i])
    && (forall i :: 0 <= i < |routes| ==> Carries(chains[|statics| + i], routes[i], quic))
  }

  lemma ChainsCarry(statics: seq<FilterChain>, routes: seq<Route>, quic: bool)
    ensures var chains := ListenerChains(statics, routes, quic);
      chains.Some? ==> StaticsCompile(statics) && AddsCarriers(chains.value, statics, Accepted(StaticMatchers(statics), routes), quic)
  {
    if StaticsOk(statics) {
      hide StaticsOk, StaticMatchers, Carries, RouteChain;
      var accepted := Accepted(StaticMatchers(statics), routes);
      forall i | 0 <= i < |accepted|
        ensures Carries(Chains(accepted, quic)[i], accepted[i], quic)
      {
        RouteChainCarries(accepted[i], quic);
      }
    }
  }

  /** Adds a chain for every route that builds and does not duplicate one placed earlier. */
  method ProcessRoutes(routes: seq<RouteObject>, statics: seq<FilterChain>, quic: bool, cache: ChainCache?)
    returns (chains: Option<seq<FilterChain>>)
    requires cache != null ==> cache.Valid()
    modifies cache
    ensures cache != null ==> cache.Valid()
    ensures chains == ListenerChains(statics, RoutesOf(routes), quic)
    ensures chains.Some? ==>
      AddsCarriers(chains.value, statics, Accepted(StaticMatchers(statics), RoutesOf(routes)), quic)
  {
    ChainsCarry(statics, RoutesOf(routes), quic);
    var placed := PlaceStatics(statics);
    if placed == null {
      return None;
    }
    var added := PlaceRoutes(routes, quic, cache, placed);
    return Some(statics + added);
  }

  /** The chains of the routes, oldest first, that find room next to the chains already placed. */
  method PlaceRoutes(routes: seq<RouteObject>, quic: bool, cache: ChainCache?, placed: MatcherSet)
    returns (added: seq<FilterChain>)
    requires placed.Valid() && (cache != null ==> cache.Valid())
    modifies cache, placed
    ensures placed.Valid() && (cache != null ==> cache.Valid())
    ensures added == Chains(Accepted(old(placed.added), RoutesOf(routes)), quic)
    ensures placed.added == old(placed.added) + Matchers(Accepted(old(placed.added), RoutesOf(routes)))
  {
    hide Compare, Compile, Accepted, Collides, BuildChain, Matchers, Chains, Builds, MatcherOf, RouteChain, RoutesOf;
    added := [];
    ghost var base := placed.added;
    AcceptedNone(base, quic);
    for i := 0 to |routes|
      invariant placed.Valid() && (cache != null ==> cache.Valid())
      invariant placed.added == base + Matchers(Accepted(base, RoutesOf(routes[..i])))
      invariant added == Chains(Accepted(base, RoutesOf(routes[..i])), quic)
    {
      var c: Built;
      if cache == null {
        c := BuildChain(routes[i].route, quic);
      } else {
        c := cache.Get(routes[i], quic);
      }
      AcceptedSnoc(base, routes, i, quic);
      BuildsIff(routes[i].route, quic);
      var taken := ProcessRoute(c, placed);
      if taken {
        added := added + [c.chain.value];
      }
    }
    assert routes[..|routes|] == routes;
  }

  /** Places the chain unless it cannot be built or duplicates one already on the listener. */
  method ProcessRoute(c: Built, placed: MatcherSet) returns (taken: bool)
    requires placed.Valid()
    modifies placed
    ensures placed.Valid()
    ensures taken <==> c.matcher.Some? && c.chain.Some? && !Collides(c.matcher.value, old(placed.added))
    ensures placed.added == old(placed.added) + (if taken then [c.matcher.value] else [])
  {
    hide Compare;
    if c.matcher.None? {
      return false;
    }
    var found := placed.HasDuplicate(c.matcher.value);
    if found || c.chain.None? {
      return false;
    }
    placed.Add(c.matcher.value);
    return true;
  }

  lemma AcceptedNone(base: seq<Matcher>, quic: bool)
    ensures forall objects: seq<RouteObject> :: objects == [] ==>
      Chains(Accepted(base, RoutesOf(objects)), quic) == [] && Matchers(Accepted(base, RoutesOf(objects))) == []
  {
  }

  lemma BuildsIff(r: Route, quic: bool)
    ensures Builds(r) <==> BuildChain(r, quic).matcher.Some? && BuildChain(r, quic).chain.Some?
    ensures Builds(r) ==> BuildChain(r, quic) == Built(Some(MatcherOf(r)), Some(RouteChain(r, quic)))
  {
    hide Compile;
  }

  lemma AcceptedSnoc(base: seq<Matcher>, routes: seq<RouteObject>, i: nat, quic: bool)
    requires i < |routes|
    ensures
      var before, after := Accepted(base, RoutesOf(routes[..i])), Accepted(base, RoutesOf(routes[..i + 1]));
      var r := routes[i].route;
      if Builds(r) && !Collides(MatcherOf(r), base + Matchers(before)) then
        && after == before + [r]
        && Matchers(after) == Matchers(before) + [MatcherOf(r)]
        && Chains(after, quic) == Chains(before, quic) + [RouteChain(r, quic)]
      else after == before
  {
    hide Collides, Builds, MatcherOf, RouteChain;
    RoutesOfSnoc(routes, i);
  }

  /** The listener's own chains; null stands for the error when one does not compile or repeats another. */
  method PlaceStatics(statics: seq<FilterChain>) returns (placed: MatcherSet?)
    ensures placed != null <==> StaticsOk(statics)
    ensures placed != null ==> fresh(placed) && placed.Valid() && placed.added == StaticMatchers(statics)
  {
    hide Compare, Compile;
    var s := new MatcherSet();
    for i := 0 to |statics|
      invariant s.Valid() && fresh(s)
      invariant StaticsOk(statics[..i]) && s.added == StaticMatchers(statics[..i])
    {
      var m := Compile(MatchOf(statics[i]));
      assert statics[..i + 1] == statics[..i] + [statics[i]];
      if m.None? {
        assert statics[i] in statics;
        return null;
      }
      var found := s.HasDuplicate(m.value);
      StaticsSnoc(statics, i);
      if found {
        return null;
      }
      s.Add(m.value);
    }
    assert statics[..|statics|] == statics;
    return s;
  }

  function RoutesOf(objects: seq<RouteObject>): seq<Route> {
    seq(|objects|, i requires 0 <= i < |objects| => objects[i].route)
  }

  lemma RoutesOfSnoc(objects: seq<RouteObject>, i: nat)
    requires i < |objects|
    ensures RoutesOf(objects[..i + 1])[..i] == RoutesOf(objects[..i])
    ensures RoutesOf(objects[..i + 1])[i] == objects[i].route && |RoutesOf(objects[..i + 1])| == i + 1
  {
  }

  lemma StaticsSnoc(statics: seq<FilterChain>, i: nat)
    requires i < |statics| && StaticsOk(statics[..i]) && Compile(MatchOf(statics[i])).Some?
    ensures StaticsCompile(statics[..i + 1])
    ensures StaticMatchers(statics[..i + 1]) == StaticMatchers(statics[..i]) + [Compile(MatchOf(statics[i])).value]
    ensures StaticsOk(statics[..i + 1]) <==> !Collides(Compile(MatchOf(statics[i])).value, StaticMatchers(statics[..i]))
    ensures StaticsOk(statics) ==> StaticsOk(statics[..i + 1])
  {
    hide Compare, Compile;
    assert statics[..i + 1] == statics[..i] + [statics[i]];
    var before, m := StaticMatchers(statics[..i]), Compile(MatchOf(statics[i])).value;
    if StaticsOk(statics) {
      assert StaticMatchers(statics)[..i + 1] == StaticMatchers(statics[..i + 1]);
    }
    if !Collides(m, before) {
      assert forall k :: 0 <= k < i ==> before[k] in before;
    }
  }

  // ---------------------------------------------------------------- what the built listener satisfies

  lemma {:induction false} AcceptedSeparate(base: seq<Matcher>, routes: seq<Route>)
    requires Separate(base)
    ensures Separate(base + Matchers(Accepted(base, routes)))
    decreases |routes|
  {
    hide Compare, Builds, MatcherOf;
    if routes == [] {
      assert base + Matchers(Accepted(base, routes)) == base;
    } else {
      var before := Accepted(base, routes[..|routes| - 1]);
      AcceptedSeparate(base, routes[..|routes| - 1]);
      var ms := base + Matchers(before);
      if Accepted(base, routes) != before {
        var m := MatcherOf(routes[|routes| - 1]);
        assert Matchers(before + [routes[|routes| - 1]]) == Matchers(before) + [m];
        assert base + Matchers(Accepted(base, routes)) == ms + [m];
        assert forall i :: 0 <= i < |ms| ==> ms[i] in ms;
      }
    }
  }

  /** The matchers of a built listener's chains, its own first. */
  ghost function PlacedMatchers(statics: seq<FilterChain>, routes: seq<Route>): seq<Matcher>
    requires StaticsOk(statics)
  {
    StaticMatchers(statics) + Matchers(Accepted(StaticMatchers(statics), routes))
  }

  /** No leaf of Envoy's trie would hold two chains of a built listener. */
  lemma BuiltChainsDisjoint(statics: seq<FilterChain>, routes: seq<Route>, i: nat, j: nat, k: TrieKey)
    requires StaticsOk(statics)
    requires i < j < |PlacedMatchers(statics, routes)|
    ensures !(FiledUnder(PlacedMatchers(statics, routes)[i], k) && FiledUnder(PlacedMatchers(statics, routes)[j], k))
  {
    AcceptedSeparate(StaticMatchers(statics), routes);
    var ms := PlacedMatchers(statics, routes);
    DuplicateIffCollide(ms[j], ms[i]);
  }

  /** A chain's matcher is the one the listener's own build or the route's build compiled. */
  lemma BuiltChainMatchers(statics: seq<FilterChain>, routes: seq<Route>, quic: bool)
    requires StaticsOk(statics)
    ensures var chains := ListenerChains(statics, routes, quic).value;
      && |chains| == |PlacedMatchers(statics, routes)|
      && forall i :: 0 <= i < |chains| ==> Compile(MatchOf(chains[i])) == Some(PlacedMatchers(statics, routes)[i])
  {
    hide Compile, Compare, Accepted;
    var out := Accepted(StaticMatchers(statics), routes);
    forall i | 0 <= i < |out|
      ensures Compile(MatchOf(Chains(out, quic)[i])) == Some(MatcherOf(out[i]))
    {
      assert out[i] in out;
    }
  }

  /** A route is left out exactly when its chain cannot be built or collides with one accepted earlier. */
  lemma {:induction false} LeftOutIff(base: seq<Matcher>, routes: seq<Route>, i: nat)
    requires i < |routes| && forall j, k :: 0 <= j < k < |routes| ==> routes[j] != routes[k]
    ensures routes[i] in Accepted(base, routes) <==>
      Builds(routes[i]) && !Collides(MatcherOf(routes[i]), base + Matchers(Accepted(base, routes[..i])))
    decreases |routes|
  {
    hide Collides, Builds, MatcherOf;
    var init := routes[..|routes| - 1];
    var last := routes[|routes| - 1];
    assert last !in init;
    if i < |init| {
      LeftOutIff(base, init, i);
      assert init[..i] == routes[..i] && init[i] == routes[i] && routes[i] != last;
    } else {
      assert last !in Accepted(base, init);
    }
  }

  /** Chains keep the order of the routes: the accepted prefix only grows. */
  lemma {:induction false} AcceptedPrefix(base: seq<Matcher>, routes: seq<Route>, i: nat)
    requires i <= |routes|
    ensures Accepted(base, routes[..i]) <= Accepted(base, routes)
    decreases |routes|
  {
    hide Collides, Builds, MatcherOf;
    if i < |routes| {
      AcceptedPrefix(base, routes[..|routes| - 1], i);
      assert routes[..|routes| - 1][..i] == routes[..i];
    } else {
      assert routes[..i] == routes;
    }
  }

  lemma NoCollision(base: seq<Matcher>, routes: seq<Route>, m: Matcher)
    requires !Collides(m, base)
    requires forall i :: 0 <= i < |routes| ==> Builds(routes[i]) && Compare(m, MatcherOf(routes[i])) != Duplicate
    ensures (forall r :: r in routes ==> Builds(r)) && !Collides(m, base + Matchers(routes))
  {
    hide Compare, Builds, MatcherOf;
    var ms := base + Matchers(routes);
    forall o | o in ms
      ensures Compare(m, o) != Duplicate
    {
      var k :| 0 <= k < |ms| && ms[k] == o;
      if k < |base| {
        assert base[k] in base;
      } else {
        assert o == MatcherOf(routes[k - |base|]);
      }
    }
  }

  /** When nothing is in the way, every route gets its chain. */
  lemma {:induction false} AllAccepted(base: seq<Matcher>, routes: seq<Route>)
    requires forall r :: r in routes ==> Builds(r) && !Collides(MatcherOf(r), base)
    requires forall i, j :: 0 <= i < j < |routes| ==> Compare(MatcherOf(routes[j]), MatcherOf(routes[i])) != Duplicate
    ensures Accepted(base, routes) == routes
    decreases |routes|
  {
    hide Compare, Builds, MatcherOf, Collides;
    if routes != [] {
      var init, last := routes[..|routes| - 1], routes[|routes| - 1];
      AllAccepted(base, init);
      assert last in routes && routes == init + [last];
      NoCollision(base, init, MatcherOf(last));
    }
  }
}
