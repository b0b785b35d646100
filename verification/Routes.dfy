/** Route and Listener objects, their age order, and when two routes or a route and a listener clash. */
module Routes {
  import opened Prelude
  import opened Matching

  /** A decoded node ID: one cluster/node pair. */
  datatype NodeId = NodeId(cluster: string, node: string)

  /** The codec of an HTTP connection manager; Auto lets Envoy tell HTTP/1 from HTTP/2. */
  datatype Codec = Auto | Http1 | Http2 | Http3

  /**
   * The HTTP connection manager settings; `builds` is false when they cannot be converted, `content`
   * is everything but the codec.
   */
  datatype Hcm = Hcm(builds: bool, codec: Codec, content: string)

  /**
   * A Route's spec. `recasts` says that route_config converts to a RouteConfiguration;
   * routeConfig lists the domains of each virtual host, which can be nil. secretRef and secretRefs
   * are tlssecret_ref and tlssecret_refs, trimmed of spaces.
   */
  datatype RouteSpec = RouteSpec(
    refs: seq<string>,
    chainMatch: ChainMatch,
    recasts: bool,
    routeConfig: Option<seq<Option<seq<string>>>>,
    hcm: Hcm,
    secretRef: string,
    secretRefs: seq<string>)

  /** `created` is the creation timestamp, 0 when unset; `home` is util.NodeIDs of the annotations. */
  datatype Route = Route(name: string, created: nat, generation: int, home: seq<NodeId>, spec: RouteSpec)

  /** `chains` holds the filter_chain_match of each entry of spec.filter_chains, which can be nil. */
  datatype Listener = Listener(name: string, home: seq<NodeId>, chains: seq<Option<ChainMatch>>)

  // ---------------------------------------------------------------- age

  predicate OlderKey(createdA: nat, nameA: string, createdB: nat, nameB: string) {
    if createdA != createdB then createdA < createdB else LexLess(Codes(nameA), Codes(nameB))
  }

  /** Is a the older route? Names decide between equal creation times. */
  predicate OlderRoute(a: Route, b: Route) {
    OlderKey(a.created, a.name, b.created, b.name)
  }

  lemma OlderKeyTotal(ca: nat, a: string, cb: nat, b: string)
    ensures OlderKey(ca, a, cb, b) || OlderKey(cb, b, ca, a) || (ca == cb && a == b)
    ensures !(OlderKey(ca, a, cb, b) && OlderKey(cb, b, ca, a))
  {
    LexTotal(Codes(a), Codes(b));
    if Codes(a) == Codes(b) {
      CodesInjective(a, b);
    }
    if LexLess(Codes(a), Codes(b)) {
      LexAsymmetric(Codes(a), Codes(b));
    }
  }

  /** The age order, from the creation times and the names as written. */
  ghost predicate Precedes(a: Route, b: Route) {
    a.created < b.created || (a.created == b.created && ComesFirst(a.name, b.name))
  }

  /** The earlier created route is the older one; between equal times the one whose name comes first. */
  lemma OlderIffPrecedes(a: Route, b: Route)
    ensures OlderRoute(a, b) <==> Precedes(a, b)
  {
    NamesCompare(a.name, b.name);
  }

  lemma OlderKeyTransitive(ca: nat, a: string, cb: nat, b: string, cc: nat, c: string)
    requires OlderKey(ca, a, cb, b) && OlderKey(cb, b, cc, c)
    ensures OlderKey(ca, a, cc, c)
  {
    if ca == cb == cc {
      LexTransitive(Codes(a), Codes(b), Codes(c));
    }
  }

  // ---------------------------------------------------------------- clashes

  predicate HostsOverlap(a: Option<seq<Option<seq<string>>>>, b: Option<seq<Option<seq<string>>>>) {
    && a.Some? && b.Some?
    && exists x, y :: x in a.value && y in b.value && x.Some? && y.Some? && ShareKey(x.value, y.value)
  }

  /** The verdict on two routes that meet on a node. */
  function RouteConflict(a: RouteSpec, b: RouteSpec, ma: Matcher, mb: Matcher): Verdict {
    if !ShareKey(a.refs, b.refs) then Apart
    else
      var v := Compare(ma, mb);
      if v == Shadow && !HostsOverlap(a.routeConfig, b.routeConfig) then Apart else v
  }

  lemma RouteConflictSymmetric(a: RouteSpec, b: RouteSpec, ma: Matcher, mb: Matcher)
    ensures RouteConflict(a, b, ma, mb) == RouteConflict(b, a, mb, ma)
  {
    CompareSymmetric(ma, mb);
    ShareKeySymmetric(a.refs, b.refs);
  }

  /** Does one of the route's virtual hosts serve the domain? */
  ghost predicate ServesDomain(s: RouteSpec, d: string) {
    s.routeConfig.Some? && exists v :: v in s.routeConfig.value && v.Some? && d in v.value
  }

  ghost predicate OnOneListener(a: RouteSpec, b: RouteSpec) {
    exists l :: l in a.refs && l in b.refs
  }

  /**
   * Two routes on a listener collide when their chains share a leaf of Envoy's trie, or when their
   * leaves differ only in names that are near and some domain stands in a virtual host of each.
   */
  lemma RouteConflictIff(a: RouteSpec, b: RouteSpec, ma: Matcher, mb: Matcher)
    ensures RouteConflict(a, b, ma, mb) == Duplicate <==> OnOneListener(a, b) && Collide(ma, mb)
    ensures RouteConflict(a, b, ma, mb) == Shadow <==>
      OnOneListener(a, b) && NearMiss(ma, mb) && exists d :: ServesDomain(a, d) && ServesDomain(b, d)
  {
    CompareIff(ma, mb);
    hide Compare, Collide, NearMiss;
    if HostsOverlap(a.routeConfig, b.routeConfig) {
      var x, y :| x in a.routeConfig.value && y in b.routeConfig.value && x.Some? && y.Some? && ShareKey(x.value, y.value);
      var d :| d in x.value && d in y.value;
      assert ServesDomain(a, d) && ServesDomain(b, d);
    }
    if d :| ServesDomain(a, d) && ServesDomain(b, d) {
      var x :| x in a.routeConfig.value && x.Some? && d in x.value;
      var y :| y in b.routeConfig.value && y.Some? && d in y.value;
      assert ShareKey(x.value, y.value);
    }
  }

  /** Can the spec be compiled at all? If not, whatever is stored of the route stays. */
  predicate Compiles(s: RouteSpec) {
    s.recasts && Compile(s.chainMatch).Some?
  }

  predicate Clash(a: RouteSpec, b: RouteSpec)
    requires Compiles(a) && Compiles(b)
  {
    RouteConflict(a, b, Compile(a.chainMatch).value, Compile(b.chainMatch).value) != Apart
  }

  lemma ClashSymmetric(a: RouteSpec, b: RouteSpec)
    requires Compiles(a) && Compiles(b)
    ensures Clash(a, b) == Clash(b, a)
  {
    RouteConflictSymmetric(a, b, Compile(a.chainMatch).value, Compile(b.chainMatch).value);
  }

  // ---------------------------------------------------------------- placement inputs

  /** Is one of the named listeners present on the node? */
  predicate Hosted(listeners: map<string, Listener>, refs: seq<string>, node: NodeId) {
    exists l :: l in refs && l in listeners && node in listeners[l].home
  }

  function HostedNodes(listeners: map<string, Listener>, refs: seq<string>, home: seq<NodeId>): (nodes: seq<NodeId>)
    ensures forall n :: n in nodes <==> n in home && Hosted(listeners, refs, n)
  {
    if home == [] then []
    else (if Hosted(listeners, refs, home[0]) then [home[0]] else [])
         + HostedNodes(listeners, refs, home[1..])
  }

  /** The nodes a route is placed on: those of its own nodes where a listener it names exists. */
  function RouteNodes(listeners: map<string, Listener>, r: Route): (nodes: seq<NodeId>)
    ensures forall n :: n in nodes <==> n in r.home && Hosted(listeners, r.spec.refs, n)
  {
    HostedNodes(listeners, r.spec.refs, r.home)
  }

  /** Exactly the route's own nodes that are also a node of a listener it names. */
  lemma RouteNodesAre(listeners: map<string, Listener>, r: Route, n: NodeId)
    ensures n in RouteNodes(listeners, r) <==>
      n in r.home && exists l :: l in r.spec.refs && l in listeners && n in listeners[l].home
  {
  }

  function NodeSet(nodes: seq<NodeId>): set<NodeId> {
    set n | n in nodes
  }

  predicate StaticDuplicate(m: Matcher, chain: Option<ChainMatch>) {
    chain.Some? && Compile(chain.value).Some? && Compare(m, Compile(chain.value).value) == Duplicate
  }

  /** Does a listener's own filter_chains hold m's chain on one of the nodes? */
  predicate StaticOn(l: Listener, m: Matcher, nodes: set<NodeId>) {
    && (exists n :: n in l.home && n in nodes)
    && (exists c :: c in l.chains && StaticDuplicate(m, c))
  }

  predicate StaticConflict(listeners: map<string, Listener>, refs: seq<string>, m: Matcher, nodes: set<NodeId>) {
    exists l :: l in refs && l in listeners && StaticOn(listeners[l], m, nodes)
  }

  /**
   * Static chains stand in the way exactly when a named listener, on one of the nodes, defines a chain
   * that compiles and shares a trie leaf with the route's.
   */
  lemma StaticConflictIff(listeners: map<string, Listener>, refs: seq<string>, m: Matcher, nodes: set<NodeId>)
    ensures StaticConflict(listeners, refs, m, nodes) <==>
      exists l, n, c ::
        && l in refs && l in listeners && n in listeners[l].home && n in nodes
        && c in listeners[l].chains && c.Some? && Compile(c.value).Some? && Collide(m, Compile(c.value).value)
  {
    hide Compare, Compile, Collide;
    if StaticConflict(listeners, refs, m, nodes) {
      var l :| l in refs && l in listeners && StaticOn(listeners[l], m, nodes);
      var n :| n in listeners[l].home && n in nodes;
      var c :| c in listeners[l].chains && StaticDuplicate(m, c);
      DuplicateIffCollide(m, Compile(c.value).value);
    }
    if l, n, c :|
        && l in refs && l in listeners && n in listeners[l].home && n in nodes
        && c in listeners[l].chains && c.Some? && Compile(c.value).Some? && Collide(m, Compile(c.value).value) {
      DuplicateIffCollide(m, Compile(c.value).value);
      assert StaticOn(listeners[l], m, nodes);
    }
  }
}
