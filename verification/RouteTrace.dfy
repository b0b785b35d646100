/**
 * What RDS does to the outside, step by step: every locked write section with the store it leaves,
 * and every listener it marks. A trace in which each change is followed by its marks is a run of the
 * changes and marks of the hand-off protocol.
 */
module RouteTrace {
  import opened Prelude
  import opened Matching
  import opened Routes
  import opened RouteStore
  import Hand = PendingListeners

  // ---------------------------------------------------------------- what listeners depend on

  /** What LDS builds a chain from. */
  datatype Attachment = Attachment(name: string, created: nat, spec: RouteSpec)

  function AttachmentOf(rc: RouteConfig): Attachment {
    Attachment(rc.route.name, rc.route.created, rc.route.spec)
  }

  /** The routes attached to a listener on a node. */
  ghost function Attached(store: Store, n: NodeId, l: string): set<Attachment> {
    set rc | rc in At(store, n) && l in rc.route.spec.refs :: AttachmentOf(rc)
  }

  /** Every listener whose attached routes differ between the two stores is among the names. */
  ghost predicate Told(before: Store, after: Store, names: set<string>) {
    forall n, l :: Attached(before, n, l) != Attached(after, n, l) ==> l in names
  }

  lemma ToldTwice(a: Store, b: Store, c: Store, x: set<string>, y: set<string>)
    requires Told(a, b, x) && Told(b, c, y)
    ensures Told(a, c, x + y)
  {
    hide Attached;
  }

  /** Removing entries changes only the listeners those entries name. */
  lemma RemoveTold(store: Store, gone: set<string>, nodes: set<NodeId>, names: set<string>)
    requires forall n, rc, l ::
      Has(store, n, rc) && n in nodes && rc.route.name in gone && l in rc.route.spec.refs ==> l in names
    ensures Told(store, Remove(store, gone, nodes), names)
  {
    var after := Remove(store, gone, nodes);
    forall n, l | l !in names
      ensures Attached(store, n, l) == Attached(after, n, l)
    {
      forall rc: RouteConfig | l in rc.route.spec.refs
        ensures rc in At(store, n) <==> rc in At(after, n)
      {
        assert Has(store, n, rc) <==> rc in At(store, n);
        assert Has(after, n, rc) <==> rc in At(after, n);
      }
    }
  }

  /** Putting an entry changes only the listeners it names and those its old entries name. */
  lemma PutTold(store: Store, nodes: seq<NodeId>, rc: RouteConfig, names: set<string>)
    requires NamesOnce(store)
    requires forall n, x, l :: Has(store, n, x) && x.route.name == rc.route.name && l in x.route.spec.refs ==> l in names
    requires forall l :: l in rc.route.spec.refs ==> l in names
    ensures Told(store, Put(store, nodes, rc), names)
  {
    PutHas(store, nodes, rc);
    var after := Put(store, nodes, rc);
    forall n, l | l !in names
      ensures Attached(store, n, l) == Attached(after, n, l)
    {
      forall x: RouteConfig | l in x.route.spec.refs
        ensures x in At(store, n) <==> x in At(after, n)
      {
        assert Has(store, n, x) <==> x in At(store, n);
        assert Has(after, n, x) <==> x in At(after, n);
      }
    }
  }

  /** Rewriting an entry with the same spec wherever it already was changes no listener. */
  lemma PutSameTold(store: Store, nodes: seq<NodeId>, rc: RouteConfig)
    requires NamesOnce(store)
    requires forall n :: n in nodes ==> StoredAt(store, n, rc.route.name)
    requires forall n, x :: Has(store, n, x) && x.route.name == rc.route.name ==> AttachmentOf(x) == AttachmentOf(rc)
    ensures Told(store, Put(store, nodes, rc), {})
  {
    PutHas(store, nodes, rc);
    var after := Put(store, nodes, rc);
    forall n, l
      ensures Attached(store, n, l) == Attached(after, n, l)
    {
      forall a | a in Attached(store, n, l)
        ensures a in Attached(after, n, l)
      {
        var x :| x in At(store, n) && l in x.route.spec.refs && AttachmentOf(x) == a;
        assert Has(store, n, x);
        if n in nodes && x.route.name == rc.route.name {
          assert Has(after, n, rc);
        } else {
          assert Has(after, n, x);
        }
      }
      forall a | a in Attached(after, n, l)
        ensures a in Attached(store, n, l)
      {
        var x :| x in At(after, n) && l in x.route.spec.refs && AttachmentOf(x) == a;
        assert Has(after, n, x);
        if n in nodes && x == rc {
          var y :| Has(store, n, y) && y.route.name == rc.route.name;
          assert y in At(store, n);
        } else {
          assert Has(store, n, x);
        }
      }
    }
  }

  lemma ToldSame(store: Store)
    ensures Told(store, store, {})
  {
  }

  lemma ToldMore(a: Store, b: Store, x: set<string>, y: set<string>)
    requires Told(a, b, x) && x <= y
    ensures Told(a, b, y)
  {
    hide Attached;
  }

  /** Whether a write at a node is told depends only on what the node holds. */
  lemma WriteToldLocal(a: Store, b: Store, n: NodeId, rc: RouteConfig, names: set<string>)
    requires At(a, n) == At(b, n) && Told(a, a[n := PutEntry(At(a, n), rc)], names)
    ensures Told(b, b[n := PutEntry(At(b, n), rc)], names)
  {
    hide PutEntry;
    var a', b' := a[n := PutEntry(At(a, n), rc)], b[n := PutEntry(At(b, n), rc)];
    forall k, l | Attached(b, k, l) != Attached(b', k, l)
      ensures l in names
    {
      assert k == n && Attached(a, k, l) == Attached(b, k, l) && Attached(a', k, l) == Attached(b', k, l);
    }
  }

  lemma {:induction false} PutElsewhere(store: Store, nodes: seq<NodeId>, rc: RouteConfig, n: NodeId)
    requires n !in nodes
    ensures At(Put(store, nodes, rc), n) == At(store, n)
    decreases |nodes|
  {
    hide PutEntry;
    if nodes != [] {
      PutElsewhere(store, nodes[..|nodes| - 1], rc, n);
      assert nodes[|nodes| - 1] in nodes;
    }
  }

  /** Putting an entry node by node, each write is told if it is told from the start. */
  lemma NextWriteTold(store: Store, nodes: seq<NodeId>, rc: RouteConfig, n: NodeId, names: set<string>)
    requires NamesOnce(store) && Told(store, store[n := PutEntry(At(store, n), rc)], names)
    ensures var s := Put(store, nodes, rc);
      Told(s, s[n := PutEntry(At(s, n), rc)], names)
  {
    hide Told, PutEntry, Put;
    var s := Put(store, nodes, rc);
    if n in nodes {
      PutHas(store, nodes, rc);
      assert Has(s, n, rc);
      PutAgain(At(s, n), rc);
      ToldSame(s);
      assert s[n := At(s, n)] == s;
      ToldMore(s, s, {}, names);
    } else {
      PutElsewhere(store, nodes, rc, n);
      WriteToldLocal(store, s, n, rc, names);
    }
  }

  lemma PutAgain(list: seq<RouteConfig>, rc: RouteConfig)
    requires UniqueNames(list) && rc in list
    ensures PutEntry(list, rc) == list
  {
    var k :| 0 <= k < |list| && list[k] == rc;
    var i := IndexOf(list, rc.route.name);
    assert i == k;
  }

  /** The parts whose attached routes differ between the two stores. */
  ghost function ChangedParts(a: Store, b: Store): (parts: set<Hand.Part>)
    ensures forall p :: p in parts <==> Attached(a, p.node, p.listener) != Attached(b, p.node, p.listener)
  {
    var parts := set n, rc, l | n in a.Keys + b.Keys && rc in At(a, n) + At(b, n) && l in rc.route.spec.refs
                                && Attached(a, n, l) != Attached(b, n, l) :: Hand.Part(l, n);
    assert forall p :: p in parts <==> Attached(a, p.node, p.listener) != Attached(b, p.node, p.listener) by {
      forall p: Hand.Part | Attached(a, p.node, p.listener) != Attached(b, p.node, p.listener)
        ensures p in parts
      {
        SomeAttached(a, b, p);
      }
    }
    parts
  }

  /** Where attached routes differ there is a route attached in one of the stores. */
  lemma SomeAttached(a: Store, b: Store, p: Hand.Part)
    requires Attached(a, p.node, p.listener) != Attached(b, p.node, p.listener)
    ensures p.node in a.Keys + b.Keys && exists rc :: rc in At(a, p.node) + At(b, p.node) && p.listener in rc.route.spec.refs
  {
    var x, y := Attached(a, p.node, p.listener), Attached(b, p.node, p.listener);
    var t :| (t in x) != (t in y);
  }

  // ---------------------------------------------------------------- traces

  /** What a locked section does to the store. */
  datatype Op = Removal(name: string, nodes: set<NodeId>) | Write(node: NodeId, rc: RouteConfig)

  /** What it leaves: the store and the config counter. */
  datatype Held = Held(store: Store, counter: nat)

  datatype TraceEvent = Section(op: Op, left: Held) | Mark(listener: string)

  function Effect(store: Store, op: Op): Store {
    match op
    case Removal(name, nodes) => Remove(store, {name}, nodes)
    case Write(node, rc) => store[node := PutEntry(At(store, node), rc)]
  }

  /** What is held after the events. */
  function LeftBy(start: Held, events: seq<TraceEvent>): Held
    decreases |events|
  {
    if events == [] then start
    else if events[|events| - 1].Section? then events[|events| - 1].left
    else LeftBy(start, events[..|events| - 1])
  }

  /** One section: its effect and no other, a store without clashes, and a counter that moves with every change. */
  ghost predicate GoodSection(before: Held, op: Op, left: Held) {
    && left.store == Effect(before.store, op)
    && NodeSafe(left.store)
    && before.counter <= left.counter && (left.store != before.store ==> before.counter < left.counter)
  }

  ghost predicate Traced(start: Held, events: seq<TraceEvent>)
    decreases |events|
  {
    events == [] ||
    (var init, last := events[..|events| - 1], events[|events| - 1];
     Traced(start, init) && (last.Section? ==> GoodSection(LeftBy(start, init), last.op, last.left)))
  }

  /** The listeners changed and not marked since, with those owed at the start. */
  ghost function Owed(owed: set<string>, start: Held, events: seq<TraceEvent>): set<string>
    decreases |events|
  {
    if events == [] then owed
    else
      var init, last := events[..|events| - 1], events[|events| - 1];
      var before := Owed(owed, start, init);
      match last
      case Section(_, left) => before + Hand.Listeners(ChangedParts(LeftBy(start, init).store, left.store))
      case Mark(l) => before - {l}
  }

  /**
   * The trace grew from t0 to t1 while what is held went from h0 to h1: section by section, each safe,
   * with every changed listener marked after its change, except those among the names.
   */
  ghost predicate Follows(t0: seq<TraceEvent>, h0: Held, t1: seq<TraceEvent>, h1: Held, names: set<string>) {
    && t0 <= t1
    && Traced(h0, t1[|t0|..])
    && LeftBy(h0, t1[|t0|..]) == h1
    && Owed({}, h0, t1[|t0|..]) <= names
  }

  lemma FollowsNothing(t: seq<TraceEvent>, h: Held)
    ensures Follows(t, h, t, h, {})
  {
  }

  lemma Snoc(t0: seq<TraceEvent>, t1: seq<TraceEvent>, e: TraceEvent)
    requires t0 <= t1
    ensures t0 <= t1 + [e] && (t1 + [e])[|t0|..] == t1[|t0|..] + [e]
    ensures var s := t1[|t0|..] + [e]; s[..|s| - 1] == t1[|t0|..] && s[|s| - 1] == e
  {
  }

  lemma FollowsSection(
      t0: seq<TraceEvent>, h0: Held, t1: seq<TraceEvent>, h1: Held, names: set<string>, op: Op, h2: Held, more: set<string>)
    requires Follows(t0, h0, t1, h1, names) && GoodSection(h1, op, h2) && Told(h1.store, h2.store, more)
    ensures Follows(t0, h0, t1 + [Section(op, h2)], h2, names + more)
  {
    hide GoodSection;
    Snoc(t0, t1, Section(op, h2));
  }

  lemma FollowsMark(t0: seq<TraceEvent>, h0: Held, t1: seq<TraceEvent>, h1: Held, names: set<string>, l: string)
    requires Follows(t0, h0, t1, h1, names)
    ensures Follows(t0, h0, t1 + [Mark(l)], h1, names - {l})
  {
    hide GoodSection;
    Snoc(t0, t1, Mark(l));
  }

  function Marks(names: seq<string>): (events: seq<TraceEvent>)
    ensures |events| == |names|
  {
    seq(|names|, i requires 0 <= i < |names| => Mark(names[i]))
  }

  lemma {:induction false} FollowsMarks(
      t0: seq<TraceEvent>, h0: Held, t1: seq<TraceEvent>, h1: Held, owed: set<string>, names: seq<string>)
    requires Follows(t0, h0, t1, h1, owed)
    ensures Follows(t0, h0, t1 + Marks(names), h1, owed - set l | l in names)
    decreases |names|
  {
    hide Follows;
    if names == [] {
      assert t1 + Marks(names) == t1 && (owed - set l | l in names) == owed;
    } else {
      var init, last := names[..|names| - 1], names[|names| - 1];
      FollowsMarks(t0, h0, t1, h1, owed, init);
      FollowsMark(t0, h0, t1 + Marks(init), h1, owed - (set l | l in init), last);
      assert t1 + Marks(init) + [Mark(last)] == t1 + Marks(names);
      assert names == init + [last];
      assert (owed - (set l | l in init)) - {last} == owed - set l | l in names;
    }
  }

  lemma FollowsMore(t0: seq<TraceEvent>, h0: Held, t1: seq<TraceEvent>, h1: Held, a: set<string>, b: set<string>)
    requires Follows(t0, h0, t1, h1, a) && a <= b
    ensures Follows(t0, h0, t1, h1, b)
  {
    hide Traced, LeftBy, Owed;
  }

  lemma {:induction false} Splice(owed: set<string>, start: Held, a: seq<TraceEvent>, b: seq<TraceEvent>)
    ensures LeftBy(start, a + b) == LeftBy(LeftBy(start, a), b)
    ensures Traced(start, a) && Traced(LeftBy(start, a), b) ==> Traced(start, a + b)
    ensures Owed(owed, start, a + b) == Owed(Owed(owed, start, a), LeftBy(start, a), b)
    decreases |b|
  {
    hide GoodSection;
    if b == [] {
      assert a + b == a;
    } else {
      var init, last := b[..|b| - 1], b[|b| - 1];
      Splice(owed, start, a, init);
      assert (a + b)[..|a + b| - 1] == a + init && (a + b)[|a + b| - 1] == last;
    }
  }

  lemma {:induction false} OwedMore(a: set<string>, b: set<string>, start: Held, events: seq<TraceEvent>)
    ensures Owed(a + b, start, events) <= a + Owed(b, start, events)
    decreases |events|
  {
    if events != [] {
      OwedMore(a, b, start, events[..|events| - 1]);
    }
  }

  lemma FollowsTwice(
      t0: seq<TraceEvent>, h0: Held, t1: seq<TraceEvent>, h1: Held, t2: seq<TraceEvent>, h2: Held, names: set<string>)
    requires Follows(t0, h0, t1, h1, {}) && Follows(t1, h1, t2, h2, names)
    ensures Follows(t0, h0, t2, h2, names)
  {
    hide Traced, LeftBy, Owed;
    assert t2[|t0|..] == t1[|t0|..] + t2[|t1|..];
    Splice({}, h0, t1[|t0|..], t2[|t1|..]);
    var o := Owed({}, h0, t1[|t0|..]);
    OwedMore(o, {}, h1, t2[|t1|..]);
    assert o + {} == o;
  }

  // ---------------------------------------------------------------- the protocol's steps

  /** The events as the hand-off protocol sees them. */
  ghost function Steps(start: Held, events: seq<TraceEvent>): (steps: seq<Hand.Step>)
    ensures |steps| == |events|
    decreases |events|
  {
    if events == [] then []
    else
      var init, last := events[..|events| - 1], events[|events| - 1];
      Steps(start, init) +
      [match last
       case Section(_, left) => Hand.Change(ChangedParts(LeftBy(start, init).store, left.store))
       case Mark(l) => Hand.PlaceMark(l)]
  }

  /** The stores of the trace use no other nodes. */
  ghost predicate StoresWithin(all: set<NodeId>, start: Held, events: seq<TraceEvent>) {
    start.store.Keys <= all && forall i :: 0 <= i < |events| && events[i].Section? ==> events[i].left.store.Keys <= all
  }

  lemma {:induction false} LeftWithin(all: set<NodeId>, start: Held, events: seq<TraceEvent>)
    requires StoresWithin(all, start, events)
    ensures LeftBy(start, events).store.Keys <= all
    decreases |events|
  {
    if events != [] && events[|events| - 1].Mark? {
      var init := events[..|events| - 1];
      assert forall i :: 0 <= i < |init| ==> init[i] == events[i];
      LeftWithin(all, start, init);
    }
  }

  /** Changed parts are on nodes of one of the stores. */
  lemma ChangedWithin(all: set<NodeId>, a: Store, b: Store)
    requires a.Keys <= all && b.Keys <= all
    ensures forall p :: p in ChangedParts(a, b) ==> p.node in all
  {
    forall p | p in ChangedParts(a, b)
      ensures p.node in all
    {
      SomeAttached(a, b, p);
    }
  }

  lemma {:induction false} RunSnoc(conv: Hand.Conversion, s: Hand.Protocol, all: set<NodeId>, steps: seq<Hand.Step>, e: Hand.Step)
    requires Hand.Run(conv, s, all, steps) && Hand.Enabled(conv, Hand.After(conv, s, all, steps), all, e)
    ensures Hand.Run(conv, s, all, steps + [e])
    ensures Hand.After(conv, s, all, steps + [e]) == Hand.Apply(conv, Hand.After(conv, s, all, steps), all, e)
    decreases |steps|
  {
    hide Hand.Apply, Hand.Enabled;
    if steps == [] {
      assert ([] + [e])[1..] == [];
    } else {
      RunSnoc(conv, Hand.Apply(conv, s, all, steps[0]), all, steps[1..], e);
      assert (steps + [e])[1..] == steps[1..] + [e];
    }
  }

  /**
   * Whatever state the hand-off is in, the events of a trace are changes and marks it allows; what RDS
   * then owes is what the trace owes; and a part whose version has not moved has the routes it had.
   */
  lemma {:induction false} TraceIsRun(conv: Hand.Conversion, s: Hand.Protocol, all: set<NodeId>, start: Held, events: seq<TraceEvent>)
    requires StoresWithin(all, start, events)
    ensures Hand.Run(conv, s, all, Steps(start, events))
    ensures var t := Hand.After(conv, s, all, Steps(start, events));
      && t.owed == Owed(s.owed, start, events)
      && (forall p :: Hand.VersionOf(t, p) >= Hand.VersionOf(s, p))
      && (forall p :: Hand.VersionOf(t, p) == Hand.VersionOf(s, p) ==>
            Attached(LeftBy(start, events).store, p.node, p.listener) == Attached(start.store, p.node, p.listener))
    decreases |events|
  {
    hide Attached, Hand.Bump;
    if events != [] {
      var init, last := events[..|events| - 1], events[|events| - 1];
      assert forall i :: 0 <= i < |init| ==> init[i] == events[i];
      TraceIsRun(conv, s, all, start, init);
      LeftWithin(all, start, init);
      var t := Hand.After(conv, s, all, Steps(start, init));
      var e := Steps(start, events)[|init|];
      if last.Section? {
        ChangedWithin(all, LeftBy(start, init).store, last.left.store);
        forall p {
          Hand.BumpVersion(t, e.parts, p);
        }
      }
      RunSnoc(conv, s, all, Steps(start, init), e);
    }
  }

  /** A piece of trace in which every change is marked leaves RDS owing no more than before. */
  lemma FollowsIsRun(
      conv: Hand.Conversion, s: Hand.Protocol, all: set<NodeId>, t0: seq<TraceEvent>, h0: Held, t1: seq<TraceEvent>, h1: Held)
    requires Follows(t0, h0, t1, h1, {}) && StoresWithin(all, h0, t1[|t0|..])
    ensures Hand.Run(conv, s, all, Steps(h0, t1[|t0|..]))
    ensures Hand.After(conv, s, all, Steps(h0, t1[|t0|..])).owed <= s.owed
  {
    hide Owed, Traced, LeftBy;
    TraceIsRun(conv, s, all, h0, t1[|t0|..]);
    OwedMore(s.owed, {}, h0, t1[|t0|..]);
    assert s.owed + {} == s.owed;
  }
}
