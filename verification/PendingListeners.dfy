/**
 * The hand-off from RDS to LDS: RDS changes the route store and then marks listeners pending;
 * LDS takes a token, rebuilds a listener from the store, and clears the mark it took.
 */
module PendingListeners {
  import opened Routes

  // ---------------------------------------------------------------- the marks

  datatype Marks = Marks(seqNo: nat, pending: map<string, nat>)

  function MarkPending(m: Marks, key: string): Marks {
    Marks(m.seqNo + 1, m.pending[key := m.seqNo + 1])
  }

  /** The token of the listener's mark, 0 when there is none. */
  function TokenOf(m: Marks, key: string): nat {
    if key in m.pending then m.pending[key] else 0
  }

  function ClearPending(m: Marks, key: string, token: nat): Marks {
    if TokenOf(m, key) == token then m.(pending := m.pending - {key}) else m
  }

  /** Tokens in use were handed out before. */
  ghost predicate TokensIssued(m: Marks) {
    forall k :: k in m.pending ==> 0 < m.pending[k] <= m.seqNo
  }

  /** The part of ReconciliationStatus this depends on, as the object it is. */
  class ReconciliationStatus {
    var pendingSeq: nat
    var pendingListeners: map<string, nat>
    /** The five controllers have listed their resources. */
    var allInitialized: bool
    /** Every other component of AllReconciled. */
    var othersReconciled: bool

    function State(): Marks
      reads this
    {
      Marks(pendingSeq, pendingListeners)
    }

    constructor ()
      ensures State() == Marks(0, map[]) && !allInitialized
    {
      pendingSeq, pendingListeners := 0, map[];
      allInitialized, othersReconciled := false, true;
    }

    method MarkListenerPending(key: string)
      modifies this`pendingSeq, this`pendingListeners
      ensures State() == MarkPending(old(State()), key)
    {
      pendingSeq := pendingSeq + 1;
      pendingListeners := pendingListeners[key := pendingSeq];
    }

    method ListenerPendingSeq(key: string) returns (token: nat)
      ensures token == TokenOf(State(), key)
    {
      token := if key in pendingListeners then pendingListeners[key] else 0;
    }

    method ClearListenerPending(key: string, token: nat)
      modifies this`pendingListeners
      ensures State() == ClearPending(old(State()), key, token)
    {
      var current := if key in pendingListeners then pendingListeners[key] else 0;
      if current == token {
        pendingListeners := pendingListeners - {key};
      }
    }

    method HasPendingListeners() returns (some: bool)
      ensures some <==> exists k :: k in pendingListeners
    {
      some := |pendingListeners| > 0;
      if some {
        var k :| k in pendingListeners.Keys;
      } else {
        assert pendingListeners == map[];
      }
    }

    method AllReconciled() returns (all: bool)
      ensures all <==> allInitialized && othersReconciled && pendingListeners == map[]
    {
      var pending := HasPendingListeners();
      assert !pending ==> pendingListeners.Keys == {};
      all := allInitialized && othersReconciled && !pending;
    }
  }

  // ---------------------------------------------------------------- the protocol

  /** A listener on a node: what LDS builds as one. */
  datatype Part = Part(listener: string, node: NodeId)

  /** A rebuild in progress: its token, what it read of the store, and the nodes it is through with. */
  datatype Rebuild = Rebuild(token: nat, read: map<NodeId, nat>, done: set<NodeId>)

  /**
   * `version` counts the changes of the routes attached to a part, `built` the version the part
   * was last built from, and `seen` the version a rebuild last looked at: a rebuild that cannot
   * convert the listener leaves the part as it was, and still counts as done. `owed` holds the
   * listeners RDS has changed and not marked since.
   */
  datatype Protocol = Protocol(
    version: map<Part, nat>,
    built: map<Part, nat>,
    seen: map<Part, nat>,
    owed: set<string>,
    marks: Marks,
    rebuilds: map<string, Rebuild>)

  function VersionOf(s: Protocol, p: Part): nat { if p in s.version then s.version[p] else 0 }
  function BuiltOf(s: Protocol, p: Part): nat { if p in s.built then s.built[p] else 0 }
  function SeenOf(s: Protocol, p: Part): nat { if p in s.seen then s.seen[p] else 0 }

  /** Does the listener convert when a part of it is built from that version of its routes? */
  type Conversion = (Part, nat) -> bool

  datatype Step =
    | Change(parts: set<Part>)
    | PlaceMark(key: string)
    | Begin(key: string)
    | Read(key: string, node: NodeId)
    | Install(key: string, node: NodeId)
    | Skip(key: string, node: NodeId)
    | Finish(key: string, nodes: set<NodeId>)
    | Fail(key: string)

  /**
   * One listener is rebuilt by at most one worker at a time. A part is installed if the listener
   * converts with the routes read for it, and skipped if not; a rebuild finishes once it is through
   * with all nodes.
   */
  ghost predicate Enabled(conv: Conversion, s: Protocol, all: set<NodeId>, e: Step) {
    match e
    case Change(parts) => forall p :: p in parts ==> p.node in all
    case PlaceMark(_) => true
    case Begin(key) => key !in s.rebuilds
    case Read(key, node) => key in s.rebuilds && node in all
    case Install(key, node) =>
      key in s.rebuilds && node in s.rebuilds[key].read && conv(Part(key, node), s.rebuilds[key].read[node])
    case Skip(key, node) =>
      key in s.rebuilds && node in s.rebuilds[key].read && !conv(Part(key, node), s.rebuilds[key].read[node])
    case Finish(key, nodes) => key in s.rebuilds && nodes == all && s.rebuilds[key].done == all
    case Fail(key) => key in s.rebuilds
  }

  function Bump(version: map<Part, nat>, parts: set<Part>): map<Part, nat> {
    map p | p in version.Keys + parts :: (if p in version then version[p] else 0) + (if p in parts then 1 else 0)
  }

  function Listeners(parts: set<Part>): set<string> {
    set p | p in parts :: p.listener
  }

  function Apply(conv: Conversion, s: Protocol, all: set<NodeId>, e: Step): Protocol
    requires Enabled(conv, s, all, e)
  {
    match e
    case Change(parts) => s.(version := Bump(s.version, parts), owed := s.owed + Listeners(parts))
    case PlaceMark(key) => s.(owed := s.owed - {key}, marks := MarkPending(s.marks, key))
    case Begin(key) => s.(rebuilds := s.rebuilds[key := Rebuild(TokenOf(s.marks, key), map[], {})])
    case Read(key, node) =>
      var r := s.rebuilds[key];
      s.(rebuilds := s.rebuilds[key := Rebuild(r.token, r.read[node := VersionOf(s, Part(key, node))], r.done - {node})])
    case Install(key, node) =>
      var r := s.rebuilds[key];
      s.(built := s.built[Part(key, node) := r.read[node]],
         seen := s.seen[Part(key, node) := r.read[node]],
         rebuilds := s.rebuilds[key := r.(done := r.done + {node})])
    case Skip(key, node) =>
      var r := s.rebuilds[key];
      s.(seen := s.seen[Part(key, node) := r.read[node]],
         rebuilds := s.rebuilds[key := r.(done := r.done + {node})])
    case Finish(key, _) =>
      s.(marks := ClearPending(s.marks, key, s.rebuilds[key].token), rebuilds := s.rebuilds - {key})
    case Fail(key) => s.(rebuilds := s.rebuilds - {key})
  }

  const START := Protocol(map[], map[], map[], {}, Marks(0, map[]), map[])

  // ---------------------------------------------------------------- what every step keeps

  /** A part last rebuilt before the current change is marked, or RDS still owes its mark. */
  ghost predicate StaleIsKnown(s: Protocol) {
    forall p :: SeenOf(s, p) != VersionOf(s, p) ==> p.listener in s.owed || p.listener in s.marks.pending
  }

  /** What a rebuild read before a later change is contradicted by an owed or a newer mark. */
  ghost predicate RebuildSound(s: Protocol, key: string, r: Rebuild) {
    && r.token <= TokenOf(s.marks, key)
    && (forall n :: n in r.read ==> r.read[n] <= VersionOf(s, Part(key, n)))
    && (forall n :: n in r.read && r.read[n] != VersionOf(s, Part(key, n)) ==>
          key in s.owed || r.token < TokenOf(s.marks, key))
    && (forall n :: n in r.done ==> n in r.read && SeenOf(s, Part(key, n)) == r.read[n])
  }

  ghost predicate RebuildsSound(s: Protocol) {
    forall k :: k in s.rebuilds ==> RebuildSound(s, k, s.rebuilds[k])
  }

  ghost predicate Bounded(s: Protocol, all: set<NodeId>) {
    && (forall p :: SeenOf(s, p) <= VersionOf(s, p))
    && (forall p :: VersionOf(s, p) > 0 ==> p.node in all)
  }

  ghost predicate Known(s: Protocol, all: set<NodeId>) {
    TokensIssued(s.marks) && StaleIsKnown(s) && RebuildsSound(s) && Bounded(s, all)
  }

  lemma BumpVersion(s: Protocol, parts: set<Part>, p: Part)
    ensures VersionOf(s.(version := Bump(s.version, parts), owed := s.owed + Listeners(parts)), p) ==
      VersionOf(s, p) + (if p in parts then 1 else 0)
  {
  }

  lemma ReadsBounded(s: Protocol, all: set<NodeId>, key: string, node: NodeId)
    requires Known(s, all) && key in s.rebuilds && node in s.rebuilds[key].read
    ensures s.rebuilds[key].read[node] <= VersionOf(s, Part(key, node))
  {
    assert RebuildSound(s, key, s.rebuilds[key]);
  }

  lemma StepBounded(conv: Conversion, s: Protocol, all: set<NodeId>, e: Step)
    requires Known(s, all) && Enabled(conv, s, all, e)
    ensures TokensIssued(Apply(conv, s, all, e).marks) && Bounded(Apply(conv, s, all, e), all)
  {
    hide StaleIsKnown, RebuildSound, Bump;
    var t := Apply(conv, s, all, e);
    forall p
      ensures SeenOf(t, p) <= VersionOf(t, p)
      ensures VersionOf(t, p) > 0 ==> p.node in all
    {
      assert SeenOf(s, p) <= VersionOf(s, p);
      match e {
        case Change(parts) => BumpVersion(s, parts, p);
        case Install(key, node) => ReadsBounded(s, all, key, node);
        case Skip(key, node) => ReadsBounded(s, all, key, node);
        case _ =>
      }
    }
  }

  lemma StepStale(conv: Conversion, s: Protocol, all: set<NodeId>, e: Step)
    requires Known(s, all) && Enabled(conv, s, all, e)
    ensures StaleIsKnown(Apply(conv, s, all, e))
  {
    var t := Apply(conv, s, all, e);
    forall p | SeenOf(t, p) != VersionOf(t, p)
      ensures p.listener in t.owed || p.listener in t.marks.pending
    {
      match e {
        case Change(parts) => BumpVersion(s, parts, p);
        case PlaceMark(key) =>
          assert p.listener in s.owed || p.listener in s.marks.pending;
        case Install(key, node) =>
          if p == Part(key, node) {
            assert RebuildSound(s, key, s.rebuilds[key]);
          }
        case Skip(key, node) =>
          if p == Part(key, node) {
            assert RebuildSound(s, key, s.rebuilds[key]);
          }
        case Finish(key, nodes) =>
          if p.listener == key {
            assert RebuildSound(s, key, s.rebuilds[key]);
            assert p == Part(key, p.node) && p.node in s.rebuilds[key].done;
          }
        case _ =>
      }
    }
  }

  /** A change after a read is owed a mark. */
  lemma ChangeRebuild(conv: Conversion, s: Protocol, all: set<NodeId>, parts: set<Part>, k: string)
    requires Known(s, all) && Enabled(conv, s, all, Change(parts)) && k in s.rebuilds
    ensures RebuildSound(Apply(conv, s, all, Change(parts)), k, s.rebuilds[k])
  {
    hide Bump;
    var r, t := s.rebuilds[k], Apply(conv, s, all, Change(parts));
    assert RebuildSound(s, k, r);
    forall n | n in r.read
      ensures r.read[n] <= VersionOf(t, Part(k, n))
      ensures r.read[n] != VersionOf(t, Part(k, n)) ==> k in t.owed || r.token < TokenOf(t.marks, k)
    {
      BumpVersion(s, parts, Part(k, n));
    }
  }

  lemma PlaceRebuild(conv: Conversion, s: Protocol, all: set<NodeId>, key: string, k: string)
    requires Known(s, all) && Enabled(conv, s, all, PlaceMark(key)) && k in s.rebuilds
    ensures RebuildSound(Apply(conv, s, all, PlaceMark(key)), k, s.rebuilds[k])
  {
    hide Bump, Bounded, StaleIsKnown;
    assert RebuildSound(s, k, s.rebuilds[k]);
  }

  lemma EndRebuild(conv: Conversion, s: Protocol, all: set<NodeId>, e: Step, k: string)
    requires Known(s, all) && Enabled(conv, s, all, e) && k in Apply(conv, s, all, e).rebuilds
    requires e.Begin? || e.Finish? || e.Fail?
    ensures RebuildSound(Apply(conv, s, all, e), k, Apply(conv, s, all, e).rebuilds[k])
  {
    hide Bump, Bounded, StaleIsKnown;
    if k in s.rebuilds {
      assert RebuildSound(s, k, s.rebuilds[k]);
    }
  }

  lemma ReadRebuild(conv: Conversion, s: Protocol, all: set<NodeId>, key: string, node: NodeId, k: string)
    requires Known(s, all) && Enabled(conv, s, all, Read(key, node)) && k in s.rebuilds
    ensures RebuildSound(Apply(conv, s, all, Read(key, node)), k, Apply(conv, s, all, Read(key, node)).rebuilds[k])
  {
    hide Bump, Bounded, StaleIsKnown, TokensIssued;
    assert RebuildSound(s, k, s.rebuilds[k]);
  }

  lemma InstallRebuild(conv: Conversion, s: Protocol, all: set<NodeId>, key: string, node: NodeId, k: string)
    requires Known(s, all) && Enabled(conv, s, all, Install(key, node)) && k in s.rebuilds
    ensures RebuildSound(Apply(conv, s, all, Install(key, node)), k, Apply(conv, s, all, Install(key, node)).rebuilds[k])
  {
    hide Bump, Bounded, StaleIsKnown, TokensIssued;
    assert RebuildSound(s, k, s.rebuilds[k]);
  }

  lemma SkipRebuild(conv: Conversion, s: Protocol, all: set<NodeId>, key: string, node: NodeId, k: string)
    requires Known(s, all) && Enabled(conv, s, all, Skip(key, node)) && k in s.rebuilds
    ensures RebuildSound(Apply(conv, s, all, Skip(key, node)), k, Apply(conv, s, all, Skip(key, node)).rebuilds[k])
  {
    hide Bump, Bounded, StaleIsKnown, TokensIssued;
    assert RebuildSound(s, k, s.rebuilds[k]);
  }

  lemma StepRebuild(conv: Conversion, s: Protocol, all: set<NodeId>, e: Step, k: string)
    requires Known(s, all) && Enabled(conv, s, all, e) && k in Apply(conv, s, all, e).rebuilds
    ensures RebuildSound(Apply(conv, s, all, e), k, Apply(conv, s, all, e).rebuilds[k])
  {
    hide Known, RebuildSound, Bump;
    match e {
      case Change(parts) => ChangeRebuild(conv, s, all, parts, k);
      case Read(key, node) => ReadRebuild(conv, s, all, key, node, k);
      case Install(key, node) => InstallRebuild(conv, s, all, key, node, k);
      case Skip(key, node) => SkipRebuild(conv, s, all, key, node, k);
      case PlaceMark(key) => PlaceRebuild(conv, s, all, key, k);
      case _ => EndRebuild(conv, s, all, e, k);
    }
  }

  /** Every step of every interleaving keeps the invariant. */
  lemma StepKeepsKnown(conv: Conversion, s: Protocol, all: set<NodeId>, e: Step)
    requires Known(s, all) && Enabled(conv, s, all, e)
    ensures Known(Apply(conv, s, all, e), all)
  {
    hide Apply, RebuildSound, StaleIsKnown, Bounded;
    StepBounded(conv, s, all, e);
    StepStale(conv, s, all, e);
    forall k | k in Apply(conv, s, all, e).rebuilds {
      StepRebuild(conv, s, all, e, k);
    }
  }

  // ---------------------------------------------------------------- runs

  ghost predicate Run(conv: Conversion, s: Protocol, all: set<NodeId>, steps: seq<Step>)
    decreases |steps|
  {
    steps == [] || (Enabled(conv, s, all, steps[0]) && Run(conv, Apply(conv, s, all, steps[0]), all, steps[1..]))
  }

  ghost function After(conv: Conversion, s: Protocol, all: set<NodeId>, steps: seq<Step>): Protocol
    requires Run(conv, s, all, steps)
    decreases |steps|
  {
    if steps == [] then s else After(conv, Apply(conv, s, all, steps[0]), all, steps[1..])
  }

  lemma {:induction false} RunKeepsKnown(conv: Conversion, s: Protocol, all: set<NodeId>, steps: seq<Step>)
    requires Known(s, all) && Run(conv, s, all, steps)
    ensures Known(After(conv, s, all, steps), all)
    decreases |steps|
  {
    hide Apply, Known, Enabled;
    if steps != [] {
      StepKeepsKnown(conv, s, all, steps[0]);
      RunKeepsKnown(conv, Apply(conv, s, all, steps[0]), all, steps[1..]);
    }
  }

  /**
   * No change is lost, in any interleaving of RDS changes and marks with LDS rebuilds: a part no
   * rebuild has looked at since a change has its listener marked pending or RDS still owes the mark.
   */
  lemma NoChangeLost(conv: Conversion, all: set<NodeId>, steps: seq<Step>)
    requires Run(conv, START, all, steps)
    ensures StaleIsKnown(After(conv, START, all, steps))
  {
    assert Known(START, all);
    RunKeepsKnown(conv, START, all, steps);
  }

  // ---------------------------------------------------------------- listeners that do not convert

  /** Parts are built only from versions that convert, and are passed over only at versions that do not. */
  ghost predicate Honest(conv: Conversion, s: Protocol) {
    forall p ::
      && BuiltOf(s, p) <= VersionOf(s, p)
      && (BuiltOf(s, p) == 0 || conv(p, BuiltOf(s, p)))
      && (BuiltOf(s, p) == SeenOf(s, p) || !conv(p, SeenOf(s, p)))
  }

  lemma StepKeepsHonest(conv: Conversion, s: Protocol, all: set<NodeId>, e: Step)
    requires Known(s, all) && Honest(conv, s) && Enabled(conv, s, all, e)
    ensures Honest(conv, Apply(conv, s, all, e))
  {
    hide Bump, StaleIsKnown, RebuildSound, TokensIssued, Bounded;
    var t := Apply(conv, s, all, e);
    forall p
      ensures BuiltOf(t, p) <= VersionOf(t, p)
      ensures BuiltOf(t, p) == 0 || conv(p, BuiltOf(t, p))
      ensures BuiltOf(t, p) == SeenOf(t, p) || !conv(p, SeenOf(t, p))
    {
      assert BuiltOf(s, p) <= VersionOf(s, p);
      match e {
        case Change(parts) => BumpVersion(s, parts, p);
        case Install(key, node) => ReadsBounded(s, all, key, node);
        case _ =>
      }
    }
  }

  lemma {:induction false} RunKeepsHonest(conv: Conversion, s: Protocol, all: set<NodeId>, steps: seq<Step>)
    requires Known(s, all) && Honest(conv, s) && Run(conv, s, all, steps)
    ensures Honest(conv, After(conv, s, all, steps))
    decreases |steps|
  {
    hide Apply, Known, Enabled, Honest;
    if steps != [] {
      StepKeepsKnown(conv, s, all, steps[0]);
      StepKeepsHonest(conv, s, all, steps[0]);
      RunKeepsHonest(conv, Apply(conv, s, all, steps[0]), all, steps[1..]);
    }
  }

  /**
   * Once RDS owes nothing and no listener is pending, a part whose routes ever changed is built from
   * the current store exactly when its listener converts with the routes the store now holds for it.
   */
  lemma NothingPendingMeansCurrent(conv: Conversion, all: set<NodeId>, steps: seq<Step>, p: Part)
    requires Run(conv, START, all, steps)
    requires After(conv, START, all, steps).owed == {} && After(conv, START, all, steps).marks.pending == map[]
    ensures var s := After(conv, START, all, steps);
      BuiltOf(s, p) == VersionOf(s, p) <==> VersionOf(s, p) == 0 || conv(p, VersionOf(s, p))
  {
    assert Known(START, all) && Honest(conv, START);
    RunKeepsKnown(conv, START, all, steps);
    RunKeepsHonest(conv, START, all, steps);
    var s := After(conv, START, all, steps);
    hide After, Run;
    assert SeenOf(s, p) == VersionOf(s, p);
    assert BuiltOf(s, p) <= VersionOf(s, p);
  }

  /** One route changed, its listener is marked, and a rebuild of it has begun. */
  function Begun(p: Part): Protocol {
    Protocol(map[p := 1], map[], map[], {}, Marks(1, map[p.listener := 1]), map[p.listener := Rebuild(1, map[], {})])
  }

  lemma ReachBegun(conv: Conversion, p: Part, rest: seq<Step>)
    requires Run(conv, Begun(p), {p.node}, rest)
    ensures
      var steps := [Change({p})] + ([PlaceMark(p.listener)] + ([Begin(p.listener)] + rest));
      Run(conv, START, {p.node}, steps) && After(conv, START, {p.node}, steps) == After(conv, Begun(p), {p.node}, rest)
  {
    var all := {p.node};
    var s1 := Protocol(map[p := 1], map[], map[], {p.listener}, Marks(0, map[]), map[]);
    var s2 := Protocol(map[p := 1], map[], map[], {}, Marks(1, map[p.listener := 1]), map[]);
    assert Listeners({p}) == {p.listener};
    assert Apply(conv, START, all, Change({p})) == s1;
    assert Apply(conv, s1, all, PlaceMark(p.listener)) == s2;
    assert Apply(conv, s2, all, Begin(p.listener)) == Begun(p);
    hide Apply;
    RunsOne(conv, s2, all, Begin(p.listener), rest);
    RunsOne(conv, s1, all, PlaceMark(p.listener), [Begin(p.listener)] + rest);
    RunsOne(conv, START, all, Change({p}), [PlaceMark(p.listener)] + ([Begin(p.listener)] + rest));
  }

  lemma SkipAndFinish(conv: Conversion, p: Part) returns (steps: seq<Step>)
    requires !conv(p, 1)
    ensures Run(conv, Begun(p), {p.node}, steps)
    ensures After(conv, Begun(p), {p.node}, steps) == Protocol(map[p := 1], map[], map[p := 1], {}, Marks(1, map[]), map[])
  {
    var all, l := {p.node}, p.listener;
    var s4 := Begun(p).(rebuilds := map[l := Rebuild(1, map[p.node := 1], {})]);
    var s5 := Begun(p).(seen := map[p := 1], rebuilds := map[l := Rebuild(1, map[p.node := 1], {p.node})]);
    var s6 := Protocol(map[p := 1], map[], map[p := 1], {}, Marks(1, map[]), map[]);
    assert Part(l, p.node) == p;
    var r := Rebuild(1, map[p.node := 1], {});
    var unread: map<NodeId, nat>, unseen: map<Part, nat>, none: set<NodeId> := map[], map[], {};
    assert unread[p.node := 1] == r.read && unseen[p := 1] == s5.seen && none - {p.node} == none && none + {p.node} == {p.node};
    assert Begun(p).rebuilds[l := r] == map[l := r] && VersionOf(Begun(p), p) == 1;
    assert s4.rebuilds[l := r.(done := {p.node})] == map[l := r.(done := {p.node})];
    assert Apply(conv, Begun(p), all, Read(l, p.node)) == s4;
    assert Apply(conv, s4, all, Skip(l, p.node)) == s5;
    assert Apply(conv, s5, all, Finish(l, all)) == s6;
    hide Apply;
    RunsOne(conv, s5, all, Finish(l, all), []);
    RunsOne(conv, s4, all, Skip(l, p.node), [Finish(l, all)] + []);
    RunsOne(conv, Begun(p), all, Read(l, p.node), [Skip(l, p.node)] + ([Finish(l, all)] + []));
    steps := [Read(l, p.node)] + ([Skip(l, p.node)] + ([Finish(l, all)] + []));
  }

  /** A listener that does not convert: its mark is cleared although it is still built from the old store. */
  lemma UnconvertedIsCleared(conv: Conversion, p: Part) returns (steps: seq<Step>)
    requires !conv(p, 1)
    ensures Run(conv, START, {p.node}, steps)
    ensures var s := After(conv, START, {p.node}, steps);
      s.owed == {} && s.marks.pending == map[] && BuiltOf(s, p) != VersionOf(s, p)
  {
    var rest := SkipAndFinish(conv, p);
    ReachBegun(conv, p, rest);
    steps := [Change({p})] + ([PlaceMark(p.listener)] + ([Begin(p.listener)] + rest));
  }

  lemma RunsOne(conv: Conversion, s: Protocol, all: set<NodeId>, e: Step, rest: seq<Step>)
    requires Enabled(conv, s, all, e) && Run(conv, Apply(conv, s, all, e), all, rest)
    ensures Run(conv, s, all, [e] + rest) && After(conv, s, all, [e] + rest) == After(conv, Apply(conv, s, all, e), all, rest)
  {
    assert ([e] + rest)[1..] == rest;
  }

  // ---------------------------------------------------------------- clearing and marks

  datatype MarkOp = MarkIt(key: string) | ClearIt(key: string, token: nat)

  function ApplyOp(m: Marks, op: MarkOp): Marks {
    match op
    case MarkIt(k) => MarkPending(m, k)
    case ClearIt(k, t) => ClearPending(m, k, t)
  }

  function ApplyOps(m: Marks, ops: seq<MarkOp>): Marks
    decreases |ops|
  {
    if ops == [] then m else ApplyOps(ApplyOp(m, ops[0]), ops[1..])
  }

  lemma {:induction false} OpsIssueTokens(m: Marks, ops: seq<MarkOp>)
    requires TokensIssued(m)
    ensures TokensIssued(ApplyOps(m, ops)) && ApplyOps(m, ops).seqNo >= m.seqNo
    decreases |ops|
  {
    if ops != [] {
      assert TokensIssued(ApplyOp(m, ops[0]));
      OpsIssueTokens(ApplyOp(m, ops[0]), ops[1..]);
    }
  }

  /** Marks only get newer: whatever mark the key has after the operations is newer than the number. */
  lemma {:induction false} OpsKeepNewer(m: Marks, ops: seq<MarkOp>, key: string, than: nat)
    requires than <= m.seqNo && (key in m.pending ==> than < m.pending[key])
    ensures key in ApplyOps(m, ops).pending ==> than < ApplyOps(m, ops).pending[key]
    decreases |ops|
  {
    if ops != [] {
      OpsKeepNewer(ApplyOp(m, ops[0]), ops[1..], key, than);
    }
  }

  /**
   * Once a mark is placed after a token was taken, clearing with that token does nothing, whatever
   * marks and clears come before the mark and between it and the clear, and also when the token was
   * taken while nothing was pending.
   */
  lemma ClearKeepsLaterMark(m: Marks, key: string, before: seq<MarkOp>, between: seq<MarkOp>)
    requires TokensIssued(m)
    ensures var marked := MarkPending(ApplyOps(m, before), key);
      && key in marked.pending
      && ClearPending(ApplyOps(marked, between), key, TokenOf(m, key)) == ApplyOps(marked, between)
  {
    OpsIssueTokens(m, before);
    var marked := MarkPending(ApplyOps(m, before), key);
    OpsKeepNewer(marked, between, key, TokenOf(m, key));
    var now := ApplyOps(marked, between);
    assert key !in now.pending ==> now.pending - {key} == now.pending;
  }
}
