/** controllers/cds: the cluster store, edited in place by every reconcile. */
module Clusters {
  import opened Prelude
  import opened EndpointRefs

  /** A converted cluster: its name, its load assignment and the rest of its configuration. */
  datatype Cluster = Cluster(name: string, assignment: Option<Assignment>, config: string)

  /** Clusters by node key. */
  type Store = map<string, seq<Cluster>>

  predicate Lists(store: Store, node: string, c: Cluster) {
    node in store && c in store[node]
  }

  predicate Named(list: seq<Cluster>, name: string) {
    exists k :: 0 <= k < |list| && list[k].name == name
  }

  /** Every name is stored at most once across all node keys. */
  predicate Once(store: Store) {
    forall n, m, i, j ::
      n in store && m in store && 0 <= i < |store[n]| && 0 <= j < |store[m]| && store[n][i].name == store[m][j].name
      ==> n == m && i == j
  }

  function Without(list: seq<Cluster>, name: string): seq<Cluster>
    decreases |list|
  {
    if list == [] then []
    else (if list[0].name == name then [] else [list[0]]) + Without(list[1..], name)
  }

  function AllWithout(store: Store, name: string): Store {
    map n | n in store :: Without(store[n], name)
  }

  lemma {:induction false} WithoutKeepsOthers(list: seq<Cluster>, name: string, c: Cluster)
    ensures c in Without(list, name) <==> c in list && c.name != name
    decreases |list|
  {
    if list != [] {
      WithoutKeepsOthers(list[1..], name, c);
      assert list == [list[0]] + list[1..];
    }
  }

  lemma {:induction false} WithoutAbsent(list: seq<Cluster>, name: string)
    requires !Named(list, name)
    ensures Without(list, name) == list
    decreases |list|
  {
    if list != [] {
      assert list[0].name != name;
      assert forall k :: 0 <= k < |list[1..]| ==> list[1..][k] == list[k + 1];
      WithoutAbsent(list[1..], name);
    }
  }

  lemma {:induction false} WithoutOnly(list: seq<Cluster>, name: string, k: nat)
    requires k < |list| && list[k].name == name
    requires forall j :: 0 <= j < |list| && list[j].name == name ==> j == k
    ensures Without(list, name) == list[..k] + list[k + 1..]
    decreases |list|
  {
    assert forall j :: 0 <= j < |list[1..]| ==> list[1..][j] == list[j + 1];
    if k == 0 {
      WithoutAbsent(list[1..], name);
    } else {
      WithoutOnly(list[1..], name, k - 1);
      assert list[..k] + list[k + 1..] == [list[0]] + (list[1..][..k - 1] + list[1..][k..]);
    }
  }

  /** The list with the name removed from position i on. */
  function Swept(list: seq<Cluster>, i: nat, name: string): seq<Cluster>
    requires i <= |list|
  {
    list[..i] + Without(list[i..], name)
  }

  lemma SweptStep(list: seq<Cluster>, i: nat, name: string)
    requires i < |list|
    ensures
      var cur := Swept(list, i + 1, name);
      i < |cur| && cur[i] == list[i] &&
      Swept(list, i, name) == if list[i].name == name then cur[..i] + cur[i + 1..] else cur
  {
    assert list[i..] == [list[i]] + list[i + 1..];
    assert list[..i + 1] == list[..i] + [list[i]];
  }

  lemma SweptEnds(list: seq<Cluster>, name: string)
    ensures Swept(list, |list|, name) == list && Swept(list, 0, name) == Without(list, name)
  {
    assert list[0..] == list;
  }

  // ---------------------------------------------------------------- deleting inside a range loop

  /** The backing array after element i is appended away from a slice of the given length: the tail goes stale. */
  function Shifted(backing: seq<Cluster>, len: nat, i: nat): (r: seq<Cluster>)
    requires i < len <= |backing|
    ensures |r| == |backing|
    ensures forall j :: 0 <= j < |backing| ==> r[j] == if i <= j < len - 1 then backing[j + 1] else backing[j]
  {
    backing[..i] + backing[i + 1..len] + backing[len - 1..]
  }

  /**
   * What is left after the loop over a slice that deletes from the same slice: the loop runs over the
   * length the slice had at the start and reads the array underneath. None is an index out of range.
   */
  function RangeDelete(backing: seq<Cluster>, len: nat, i: nat, name: string): Option<seq<Cluster>>
    requires len <= |backing| && i <= |backing|
    decreases |backing| - i
  {
    if i == |backing| then Some(backing[..len])
    else if backing[i].name != name then RangeDelete(backing, len, i + 1, name)
    else if i < len then RangeDelete(Shifted(backing, len, i), len - 1, i + 1, name)
    else None
  }

  lemma RangeStep(backing: seq<Cluster>, len: nat, i: nat, name: string)
    requires len <= |backing| && i <= |backing|
    ensures i == |backing| ==> RangeDelete(backing, len, i, name) == Some(backing[..len])
    ensures i < |backing| && backing[i].name != name ==> RangeDelete(backing, len, i, name) == RangeDelete(backing, len, i + 1, name)
    ensures i < |backing| && backing[i].name == name && RangeDelete(backing, len, i, name).Some? ==>
      i < len && RangeDelete(backing, len, i, name) == RangeDelete(Shifted(backing, len, i), len - 1, i + 1, name)
  {
  }

  predicate PanicsOn(list: seq<Cluster>, name: string) {
    list != [] && list[|list| - 1].name == name && Named(list[..|list| - 1], name)
  }

  lemma {:induction false} StaleLastPanics(backing: seq<Cluster>, len: nat, i: nat, name: string)
    requires len < |backing| && i < |backing| && backing[|backing| - 1].name == name
    ensures RangeDelete(backing, len, i, name).None?
    decreases |backing| - i
  {
    if backing[i].name != name {
      StaleLastPanics(backing, len, i + 1, name);
    } else if i < len {
      StaleLastPanics(Shifted(backing, len, i), len - 1, i + 1, name);
    }
  }

  lemma {:induction false} OtherLastSafe(backing: seq<Cluster>, len: nat, i: nat, name: string)
    requires len <= |backing| && i <= |backing| && backing != []
    requires len < |backing| ==> forall k :: 0 <= k && len - 1 <= k < |backing| ==> backing[k].name != name
    requires backing[|backing| - 1].name != name
    ensures RangeDelete(backing, len, i, name).Some?
    decreases |backing| - i
  {
    if i < |backing| {
      if backing[i].name != name {
        OtherLastSafe(backing, len, i + 1, name);
      } else {
        assert i < len - 1;
        OtherLastSafe(Shifted(backing, len, i), len - 1, i + 1, name);
      }
    }
  }

  lemma {:induction false} FirstMatchDecides(list: seq<Cluster>, i: nat, name: string)
    requires i < |list| && list[|list| - 1].name == name
    requires forall k :: 0 <= k < i ==> list[k].name != name
    ensures RangeDelete(list, |list|, i, name).None? <==> Named(list[..|list| - 1], name)
    decreases |list| - i
  {
    var last := |list| - 1;
    if list[i].name != name {
      FirstMatchDecides(list, i + 1, name);
    } else if i < last {
      assert list[..last][i].name == name;
      StaleLastPanics(Shifted(list, |list|, i), last, i + 1, name);
    }
  }

  /** The deletion loop runs off its slice exactly when the last element matches and so does an earlier one. */
  lemma RangeDeletePanicsIff(list: seq<Cluster>, name: string)
    ensures RangeDelete(list, |list|, 0, name).None? <==> PanicsOn(list, name)
  {
    if list != [] {
      if list[|list| - 1].name == name {
        FirstMatchDecides(list, 0, name);
      } else {
        OtherLastSafe(list, |list|, 0, name);
      }
    }
  }

  /** It also skips the element after each one it deletes, so adjacent copies survive it. */
  lemma AdjacentCopySurvives(a: Cluster, b: Cluster)
    requires a.name != b.name
    ensures RangeDelete([a, a, b], 3, 0, a.name) == Some([a, b])
  {
    var left := [a, b, b];
    assert Shifted([a, a, b], 3, 0) == left;
    assert RangeDelete(left, 2, 3, a.name) == Some([a, b]) by { assert left[..2] == [a, b]; }
    assert RangeDelete(left, 2, 2, a.name) == RangeDelete(left, 2, 3, a.name);
    assert RangeDelete(left, 2, 1, a.name) == RangeDelete(left, 2, 2, a.name);
  }

  lemma {:induction false} ScanUnmatched(backing: seq<Cluster>, len: nat, i: nat, name: string)
    requires len <= |backing| && i <= |backing|
    requires forall k :: i <= k < |backing| ==> backing[k].name != name
    ensures RangeDelete(backing, len, i, name) == Some(backing[..len])
    decreases |backing| - i
  {
    if i < |backing| {
      ScanUnmatched(backing, len, i + 1, name);
    }
  }

  lemma {:induction false} DeleteOnly(list: seq<Cluster>, i: nat, k: nat, name: string)
    requires i <= k < |list| && list[k].name == name
    requires forall j :: 0 <= j < |list| && list[j].name == name ==> j == k
    ensures RangeDelete(list, |list|, i, name) == Some(list[..k] + list[k + 1..])
    decreases k - i
  {
    if i < k {
      DeleteOnly(list, i + 1, k, name);
    } else {
      var after := Shifted(list, |list|, k);
      ScanUnmatched(after, |list| - 1, k + 1, name);
      assert after[..|list| - 1] == list[..k] + list[k + 1..];
    }
  }

  /** With names unique the loop is safe and removes the name. */
  lemma UniqueNamesDelete(list: seq<Cluster>, name: string)
    requires forall i, j :: 0 <= i < |list| && 0 <= j < |list| && list[i].name == list[j].name ==> i == j
    ensures RangeDelete(list, |list|, 0, name) == Some(Without(list, name))
  {
    if k :| 0 <= k < |list| && list[k].name == name {
      DeleteOnly(list, 0, k, name);
      WithoutOnly(list, name, k);
    } else {
      ScanUnmatched(list, |list|, 0, name);
      WithoutAbsent(list, name);
      assert list[..|list|] == list;
    }
  }

  lemma OnceDeletes(store: Store, n: string, name: string)
    requires Once(store) && n in store
    ensures RangeDelete(store[n], |store[n]|, 0, name) == Some(Without(store[n], name)) && !PanicsOn(store[n], name)
  {
    UniqueNamesDelete(store[n], name);
    RangeDeletePanicsIff(store[n], name);
  }

  // ---------------------------------------------------------------- what a reconcile means

  /**
   * What the API server returns for a Cluster; `converted` is None when the spec does not convert, and
   * refs are the results of looking up its endpoint_refs, in order.
   */
  datatype Resource =
    | Unreadable
    | Missing
    | Present(node: string, converted: Option<Cluster>, refs: seq<Ref>)

  datatype Verdict = Keep | Drop | Serve(node: string, cluster: Cluster)

  /** Does the cluster bring localities of its own? */
  predicate Inline(c: Cluster) {
    c.assignment.Some? && c.assignment.value.localities != []
  }

  /** The assignment served: the cluster's own object with everything merged, or a new one if it has localities. */
  function MergedInto(name: string, own: Option<Assignment>, refs: seq<Ref>): Option<Assignment> {
    var all := Merged(Base(name, own), refs);
    if own.Some? || all.localities != [] then Some(all) else None
  }

  function Decide(name: string, r: Resource): Verdict {
    match r
    case Unreadable => Keep
    case Missing => Drop
    case Present(node, converted, refs) =>
      if converted.None? || Unread in refs then Keep
      else
        var cds := converted.value.(name := name);
        if refs == [] then Serve(node, cds)
        else if !Inline(cds) && Count(refs) == 0 then Drop
        else Serve(node, cds.(assignment := MergedInto(name, cds.assignment, refs)))
  }

  // ---------------------------------------------------------------- what a served cluster holds

  /** Nothing is decided: something could not be read, or the spec does not convert. */
  ghost predicate Undecided(r: Resource) {
    r.Unreadable? || (r.Present? && (r.converted.None? || Unread in r.refs))
  }

  /** The Cluster is gone, or it refers to Endpoints, none of which has an endpoint, and has no localities itself. */
  ghost predicate Unserved(r: Resource) {
    r.Missing? ||
    (r.Present? && !Undecided(r) && r.refs != [] && NoEndpoints(r.refs)
     && (r.converted.value.assignment.Some? ==> r.converted.value.assignment.value.localities == []))
  }

  /** c under node is what serves the resource. */
  ghost predicate Serves(name: string, r: Resource, node: string, c: Cluster) {
    && r.Present? && !Undecided(r) && !Unserved(r)
    && node == r.node && c.name == name && c.config == r.converted.value.config
    && var own := r.converted.value.assignment;
       if r.refs == [] then c.assignment == own
       else
         && c.assignment.Some?
         && c.assignment.value.clusterName == (if own.Some? && own.value.clusterName != "" then own.value.clusterName else name)
         && c.assignment.value.localities == (if own.Some? then own.value.localities else []) + Joined(r.refs)
         && NamesLast(if own.Some? then own.value.named else map[], r.refs, c.assignment.value.named)
         && LastPolicy(if own.Some? then own.value.policy else None, r.refs, c.assignment.value.policy)
  }

  lemma {:induction false} CountedAreJoined(refs: seq<Ref>)
    ensures !NoEndpoints(refs) ==> Joined(refs) != []
  {
    if refs != [] {
      CountedAreJoined(refs[1..]);
      assert refs == [refs[0]] + refs[1..];
    }
  }

  /** The verdict in terms of what was read: keep, drop, or serve the cluster with everything merged. */
  lemma VerdictIs(name: string, r: Resource)
    ensures Decide(name, r) == Keep <==> Undecided(r)
    ensures Decide(name, r) == Drop <==> Unserved(r)
    ensures Decide(name, r).Serve? ==> Serves(name, r, Decide(name, r).node, Decide(name, r).cluster)
  {
    hide NamesLast, LastPolicy, Merged, Count, Joined, NoEndpoints;
    if r.Present? && r.converted.Some? {
      CountZero(r.refs);
      CountedAreJoined(r.refs);
      MergedHolds(Base(name, r.converted.value.assignment), r.refs);
    }
  }

  lemma NamesLastOne(own: map<string, string>, refs: seq<Ref>, a: map<string, string>, b: map<string, string>)
    requires NamesLast(own, refs, a) && NamesLast(own, refs, b)
    ensures a == b
  {
    hide LastNamed;
    forall k
      ensures k in a <==> k in b
      ensures k in a && k in b ==> a[k] == b[k]
    {
      if k in a {
        assert LastNamed(own, refs, k, a[k]);
      }
      if k in b {
        assert LastNamed(own, refs, k, b[k]);
      }
    }
  }

  lemma LastPolicyOne(own: Option<string>, refs: seq<Ref>, p: Option<string>, q: Option<string>)
    requires LastPolicy(own, refs, p) && LastPolicy(own, refs, q)
    ensures p == q
  {
    if SomeRef(refs, HasPolicy()) {
      var i :| IsLast(refs, HasPolicy(), i) && refs[i].policy == p;
      var j :| IsLast(refs, HasPolicy(), j) && refs[j].policy == q;
      assert i == j;
    }
  }

  /** No two clusters serve one resource. */
  lemma ServesOne(name: string, r: Resource, n: string, c: Cluster, m: string, d: Cluster)
    requires Serves(name, r, n, c) && Serves(name, r, m, d)
    ensures n == m && c == d
  {
    hide NamesLast, LastPolicy, Joined, Unserved;
    if r.refs != [] {
      var own := r.converted.value.assignment;
      var a, b := c.assignment.value, d.assignment.value;
      LastPolicyOne(if own.Some? then own.value.policy else None, r.refs, a.policy, b.policy);
      NamesLastOne(if own.Some? then own.value.named else map[], r.refs, a.named, b.named);
    }
  }

  /** The list with the cluster of the same name replaced where it stands. */
  function Replaced(list: seq<Cluster>, c: Cluster): seq<Cluster> {
    seq(|list|, i requires 0 <= i < |list| => if list[i].name == c.name then c else list[i])
  }

  function Appended(store: Store, node: string, c: Cluster): Store {
    store[node := (if node in store then store[node] else []) + [c]]
  }

  function Next(store: Store, name: string, v: Verdict): Store {
    match v
    case Keep => store
    case Drop => AllWithout(store, name)
    case Serve(node, c) =>
      if node in store && Named(store[node], name) then store[node := Replaced(store[node], c)]
      else Appended(AllWithout(store, name), node, c)
  }

  /** The name is removed from every list but those of the node keys still to do. */
  predicate Halfway(was: Store, now: Store, todo: set<string>, name: string) {
    && todo <= now.Keys == was.Keys
    && forall n :: n in was ==> now[n] == if n in todo then was[n] else Without(was[n], name)
  }

  lemma HalfwayStep(was: Store, now: Store, todo: set<string>, name: string, n: string)
    requires Halfway(was, now, todo, name) && n in todo
    ensures n in now && n in was && now[n] == was[n]
    ensures Halfway(was, now[n := Without(was[n], name)], todo - {n}, name)
  {
  }

  lemma HalfwayEnds(was: Store, now: Store, todo: set<string>, name: string)
    ensures Halfway(was, was, was.Keys, name)
    ensures Halfway(was, now, {}, name) ==> now == AllWithout(was, name)
  {
  }

  lemma AllWithoutOnly(store: Store, name: string, n: string, k: nat)
    requires Once(store) && n in store && k < |store[n]| && store[n][k].name == name
    ensures AllWithout(store, name) == store[n := store[n][..k] + store[n][k + 1..]]
  {
    WithoutOnly(store[n], name, k);
    forall m | m in store && m != n
      ensures Without(store[m], name) == store[m]
    {
      WithoutAbsent(store[m], name);
    }
  }

  lemma AllWithoutAbsent(store: Store, name: string)
    requires forall n :: n in store ==> !Named(store[n], name)
    ensures AllWithout(store, name) == store
  {
    forall m | m in store
      ensures Without(store[m], name) == store[m]
    {
      WithoutAbsent(store[m], name);
    }
  }

  lemma ReplacedOnly(list: seq<Cluster>, c: Cluster, k: nat)
    requires k < |list| && list[k].name == c.name
    requires forall j :: 0 <= j < |list| && list[j].name == c.name ==> j == k
    ensures Replaced(list, c) == list[k := c]
  {
  }

  // ---------------------------------------------------------------- the invariant over runs

  lemma OneRemovedOnce(store: Store, n: string, k: nat)
    requires Once(store) && n in store && k < |store[n]|
    ensures
      var rest := store[n := store[n][..k] + store[n][k + 1..]];
      Once(rest) && forall m :: m in rest ==> !Named(rest[m], store[n][k].name)
  {
    var rest: Store := store[n := store[n][..k] + store[n][k + 1..]];
    forall m, l, i, j | m in rest && l in rest && 0 <= i < |rest[m]| && 0 <= j < |rest[l]|
      ensures rest[m][i].name != store[n][k].name
      ensures rest[m][i].name == rest[l][j].name ==> m == l && i == j
    {
      var i', j' := if m == n && k <= i then i + 1 else i, if l == n && k <= j then j + 1 else j;
      assert rest[m][i] == store[m][i'] && rest[l][j] == store[l][j'];
    }
    forall m | m in rest
      ensures !Named(rest[m], store[n][k].name)
    {
      forall i | 0 <= i < |rest[m]|
        ensures rest[m][i].name != store[n][k].name
      {
        assert rest[m][i] == store[m][if m == n && k <= i then i + 1 else i];
      }
    }
  }

  lemma AllWithoutOnce(store: Store, name: string)
    requires Once(store)
    ensures Once(AllWithout(store, name))
    ensures forall n :: n in store ==> !Named(AllWithout(store, name)[n], name)
  {
    if n, k :| n in store && 0 <= k < |store[n]| && store[n][k].name == name {
      AllWithoutOnly(store, name, n, k);
      OneRemovedOnce(store, n, k);
    } else {
      assert forall n :: n in store ==> !Named(store[n], name);
      AllWithoutAbsent(store, name);
    }
  }

  lemma AppendedOnce(store: Store, node: string, c: Cluster)
    requires Once(store) && forall n :: n in store ==> !Named(store[n], c.name)
    ensures Once(Appended(store, node, c))
  {
  }

  /** Every reconcile keeps every name stored at most once. */
  lemma NextOnce(store: Store, name: string, v: Verdict)
    requires Once(store) && (v.Serve? ==> v.cluster.name == name)
    ensures Once(Next(store, name, v))
  {
    match v
    case Keep =>
    case Drop => AllWithoutOnce(store, name);
    case Serve(node, c) =>
      if node in store && Named(store[node], name) {
        var next: Store := store[node := Replaced(store[node], c)];
        assert forall m: string, i: int :: m in store && 0 <= i < |store[m]| ==> next[m][i].name == store[m][i].name;
      } else {
        AllWithoutOnce(store, name);
        AppendedOnce(AllWithout(store, name), node, c);
      }
  }

  lemma AllWithoutLists(store: Store, name: string, n: string, c: Cluster)
    ensures Lists(AllWithout(store, name), n, c) <==> Lists(store, n, c) && c.name != name
  {
    if n in store {
      WithoutKeepsOthers(store[n], name, c);
    }
  }

  /** A reconcile decides its own name and leaves every other cluster where it was. */
  lemma NextLists(store: Store, name: string, v: Verdict, n: string, c: Cluster)
    requires Once(store) && (v.Serve? ==> v.cluster.name == name)
    ensures Lists(Next(store, name, v), n, c) <==>
      if c.name != name || v.Keep? then Lists(store, n, c) else v == Serve(n, c)
  {
    AllWithoutLists(store, name, n, c);
    if v.Serve? && v.node in store && Named(store[v.node], name) {
      var list := store[v.node];
      var k :| 0 <= k < |list| && list[k].name == name;
      ReplacedOnly(list, v.cluster, k);
      assert list[k := v.cluster][k] == v.cluster;
      if n == v.node && c in list && c.name != name {
        var i :| 0 <= i < |list| && list[i] == c;
        assert list[k := v.cluster][i] == c;
      }
    }
  }

  /** A reconcile request and what it finds. */
  datatype Request = Request(name: string, resource: Resource)

  function RunStore(store: Store, run: seq<Request>): Store
    decreases |run|
  {
    if run == [] then store
    else
      var last := run[|run| - 1];
      Next(RunStore(store, run[..|run| - 1]), last.name, Decide(last.name, last.resource))
  }

  /** The last verdict on a name that was not an error. */
  function LastVerdict(run: seq<Request>, name: string): Verdict
    decreases |run|
  {
    if run == [] then Keep
    else
      var last := run[|run| - 1];
      if last.name == name && !Decide(name, last.resource).Keep? then Decide(name, last.resource)
      else LastVerdict(run[..|run| - 1], name)
  }

  /**
   * After any run from an empty store a cluster is listed exactly when the last verdict on its name was
   * to serve it, and then only under the node key of that verdict; dropped names are gone.
   */
  lemma {:induction false} RunKeepsLastVerdicts(run: seq<Request>)
    ensures Once(RunStore(map[], run))
    ensures forall n, c :: Lists(RunStore(map[], run), n, c) <==> LastVerdict(run, c.name) == Serve(n, c)
    decreases |run|
  {
    if run != [] {
      var prev, last := run[..|run| - 1], run[|run| - 1];
      var v := Decide(last.name, last.resource);
      RunKeepsLastVerdicts(prev);
      NextOnce(RunStore(map[], prev), last.name, v);
      forall n, c
        ensures Lists(RunStore(map[], run), n, c) <==> LastVerdict(run, c.name) == Serve(n, c)
      {
        NextLists(RunStore(map[], prev), last.name, v, n, c);
      }
    }
  }

  /** Request i is the last on the name that decided anything. */
  ghost predicate Decided(run: seq<Request>, name: string, i: int) {
    && 0 <= i < |run| && run[i].name == name && !Undecided(run[i].resource)
    && forall j :: i < j < |run| && run[j].name == name ==> Undecided(run[j].resource)
  }

  lemma {:induction false} LastVerdictIs(run: seq<Request>, name: string)
    ensures LastVerdict(run, name).Keep? <==> !exists i :: Decided(run, name, i)
    ensures forall i :: Decided(run, name, i) ==> LastVerdict(run, name) == Decide(name, run[i].resource)
    decreases |run|
  {
    hide Decide, Undecided;
    if run != [] {
      var init, last := run[..|run| - 1], run[|run| - 1];
      LastVerdictIs(init, name);
      VerdictIs(name, last.resource);
      if last.name == name && !Undecided(last.resource) {
        assert Decided(run, name, |init|);
      } else {
        forall i
          ensures Decided(run, name, i) <==> Decided(init, name, i)
        {
          assert forall j :: 0 <= j < |init| ==> run[j] == init[j];
        }
      }
    }
  }

  /**
   * After any run from an empty store: a cluster is listed exactly when the last request on its name that
   * decided anything read a resource this cluster serves.
   */
  lemma ServedAfterRun(run: seq<Request>, n: string, c: Cluster)
    ensures Lists(RunStore(map[], run), n, c) <==>
      exists i :: Decided(run, c.name, i) && Serves(c.name, run[i].resource, n, c)
  {
    hide Decide, Serves, Unserved, Undecided, Decided, RunStore;
    RunKeepsLastVerdicts(run);
    LastVerdictIs(run, c.name);
    forall i | 0 <= i < |run|
      ensures Decide(c.name, run[i].resource) == Serve(n, c) <==> Serves(c.name, run[i].resource, n, c)
    {
      VerdictServes(c.name, run[i].resource, n, c);
    }
    DecidedWithin(run, c.name);
  }

  lemma DecidedWithin(run: seq<Request>, name: string)
    ensures forall i :: Decided(run, name, i) ==> 0 <= i < |run|
  {
  }

  lemma VerdictServes(name: string, r: Resource, n: string, c: Cluster)
    ensures Decide(name, r) == Serve(n, c) <==> Serves(name, r, n, c)
  {
    hide Decide, NamesLast, LastPolicy, Joined, NoEndpoints;
    VerdictIs(name, r);
    if Serves(name, r, n, c) && Decide(name, r).Serve? {
      ServesOne(name, r, n, c, Decide(name, r).node, Decide(name, r).cluster);
    }
  }

  // ---------------------------------------------------------------- the reconciler

  class ClusterReconciler {
    var configs: Store
    var counter: nat

    constructor ()
      ensures configs == map[] && counter == 0
    {
      configs, counter := map[], 0;
    }

    /** The deletion loop over one node's list; it must not panic. */
    method DeleteWhileRanging(node: string, name: string)
      requires node in configs && !PanicsOn(configs[node], name)
      modifies this
      ensures RangeDelete(old(configs[node]), |old(configs[node])|, 0, name).Some?
      ensures configs == old(configs)[node := RangeDelete(old(configs[node]), |old(configs[node])|, 0, name).value]
      ensures old(counter) <= counter && (configs == old(configs) || old(counter) < counter)
    {
      hide RangeDelete, Shifted, PanicsOn;
      ghost var was := configs;
      var list := configs[node];
      RangeDeletePanicsIff(list, name);
      var backing := new Cluster[|list|](i requires 0 <= i < |list| => list[i]);
      var len: nat := |list|;
      assert backing[..] == list;
      var i := 0;
      while i < |list|
        invariant 0 <= i <= |list| == backing.Length && len <= |list|
        invariant RangeDelete(backing[..], len, i, name) == RangeDelete(list, |list|, 0, name)
        invariant configs.Keys == was.Keys && configs[node] == backing[..][..len]
        invariant forall n :: n in was && n != node ==> configs[n] == was[n]
        invariant old(counter) <= counter && (configs == was || old(counter) < counter)
      {
        ghost var before := backing[..];
        RangeStep(before, len, i, name);
        if backing[i].name == name {
          ShiftDown(backing, len, i);
          len := len - 1;
          assert backing[..len] == backing[..][..len];
          configs := configs[node := backing[..len]];
          counter := counter + 1;
        }
        i := i + 1;
      }
      RangeStep(backing[..], len, i, name);
      assert configs == was[node := configs[node]];
    }

    /** append(s[:i], s[i+1:]...) on a slice of the given length. */
    static method ShiftDown(backing: array<Cluster>, len: nat, i: nat)
      requires i < len <= backing.Length
      modifies backing
      ensures backing[..] == Shifted(old(backing[..]), len, i)
    {
      ghost var was := backing[..];
      var k := i + 1;
      while k < len
        invariant i < k <= len
        invariant forall j :: 0 <= j < i || k - 1 <= j < backing.Length ==> backing[j] == was[j]
        invariant forall j :: i <= j < k - 1 ==> backing[j] == was[j + 1]
      {
        backing[k - 1] := backing[k];
        k := k + 1;
      }
      forall j | 0 <= j < |was|
        ensures backing[..][j] == Shifted(was, len, i)[j]
      {
        assert i <= j < len - 1 ==> backing[j] == was[j + 1];
        assert !(i <= j < len - 1) ==> backing[j] == was[j];
      }
    }

    /** The deletion of a cluster that is no longer there. */
    method DeleteCluster(name: string)
      requires Once(configs)
      modifies this
      ensures configs == AllWithout(old(configs), name)
      ensures old(counter) <= counter && (configs == old(configs) || old(counter) < counter)
    {
      hide Once, RangeDelete, Without, PanicsOn, Halfway, AllWithout;
      ghost var was := configs;
      var todo := configs.Keys;
      HalfwayEnds(was, configs, todo, name);
      while todo != {}
        invariant Halfway(was, configs, todo, name)
        invariant old(counter) <= counter && (configs == was || old(counter) < counter)
        decreases |todo|
      {
        var node :| node in todo;
        HalfwayStep(was, configs, todo, name, node);
        OnceDeletes(was, node, name);
        DeleteWhileRanging(node, name);
        todo := todo - {node};
      }
      HalfwayEnds(was, configs, todo, name);
    }

    /** removeClusterFromAllNodes: walks each list downwards, so it needs no uniqueness. */
    method RemoveFromAllNodes(name: string)
      modifies this
      ensures configs == AllWithout(old(configs), name)
      ensures old(counter) <= counter && (configs == old(configs) || old(counter) < counter)
    {
      hide Without, Halfway, AllWithout;
      ghost var was := configs;
      var todo := configs.Keys;
      HalfwayEnds(was, configs, todo, name);
      while todo != {}
        invariant Halfway(was, configs, todo, name)
        invariant old(counter) <= counter && (configs == was || old(counter) < counter)
        decreases |todo|
      {
        var node :| node in todo;
        HalfwayStep(was, configs, todo, name, node);
        RemoveDownwards(node, name);
        todo := todo - {node};
      }
      HalfwayEnds(was, configs, todo, name);
    }

    method RemoveDownwards(node: string, name: string)
      requires node in configs
      modifies this
      ensures configs == old(configs)[node := Without(old(configs)[node], name)]
      ensures old(counter) <= counter && (configs == old(configs) || old(counter) < counter)
    {
      hide Without, Swept;
      ghost var was, list := configs, configs[node];
      SweptEnds(list, name);
      var i := |configs[node]|;
      while i > 0
        invariant 0 <= i <= |list|
        invariant configs.Keys == was.Keys && configs[node] == Swept(list, i, name)
        invariant forall n :: n in was && n != node ==> configs[n] == was[n]
        invariant old(counter) <= counter && (configs == was || old(counter) < counter)
      {
        i := i - 1;
        SweptStep(list, i, name);
        if configs[node][i].name == name {
          configs := configs[node := configs[node][..i] + configs[node][i + 1..]];
          counter := counter + 1;
        }
      }
      assert configs == was[node := configs[node]];
    }

    method Append(node: string, c: Cluster)
      modifies this
      ensures configs == Appended(old(configs), node, c)
      ensures old(counter) < counter
    {
      if node !in configs {
        configs := configs[node := []];
      }
      configs := configs[node := configs[node] + [c]];
      counter := counter + 1;
    }

    /** Where a name is stored. */
    method Find(name: string) returns (at: Option<(string, nat)>)
      ensures at.Some? ==>
        at.value.0 in configs && at.value.1 < |configs[at.value.0]| && configs[at.value.0][at.value.1].name == name
      ensures at.None? ==> forall n :: n in configs ==> !Named(configs[n], name)
    {
      var todo := configs.Keys;
      while todo != {}
        invariant todo <= configs.Keys
        invariant forall n :: n in configs && n !in todo ==> !Named(configs[n], name)
        decreases |todo|
      {
        var node :| node in todo;
        var k := 0;
        while k < |configs[node]|
          invariant 0 <= k <= |configs[node]|
          invariant forall j :: 0 <= j < k ==> configs[node][j].name != name
        {
          if configs[node][k].name == name {
            return Some((node, k));
          }
          k := k + 1;
        }
        todo := todo - {node};
      }
      return None;
    }

    /** One reconcile of the named Cluster. Every change of the store also moves the counter. */
    method Reconcile(name: string, r: Resource)
      requires Once(configs)
      modifies this
      ensures configs == Next(old(configs), name, Decide(name, r)) && Once(configs)
      ensures old(counter) <= counter && (configs == old(configs) || old(counter) < counter)
    {
      NextOnce(configs, name, Decide(name, r));
      match r
      case Unreadable =>
      case Missing => DeleteCluster(name);
      case Present(node, converted, refs) =>
        if converted.None? {
          return;
        }
        var cds := converted.value.(name := name);
        var hasInline := cds.assignment.Some? && |cds.assignment.value.localities| > 0;
        var endpoints := 0;
        if |refs| > 0 {
          var load, count, merged := MergeInto(name, cds.assignment, refs);
          if !merged {
            return;
          }
          cds := cds.(assignment := load);
          endpoints := count;
        }
        if |refs| > 0 && !hasInline && endpoints == 0 {
          RemoveFromAllNodes(name);
          return;
        }
        Store(node, cds);
    }

    /** Merges the references into the cluster's assignment, which is replaced only by one with localities. */
    static method MergeInto(name: string, own: Option<Assignment>, refs: seq<Ref>)
      returns (load: Option<Assignment>, count: nat, ok: bool)
      requires refs != []
      ensures ok <==> Unread !in refs
      ensures ok ==> load == MergedInto(name, own, refs) && count == Count(refs)
    {
      hide Merged, Count, NoEndpoints, Joined;
      var base: LoadAssignment? := null;
      if own.Some? {
        base := new LoadAssignment(own.value);
      }
      var merged: LoadAssignment?;
      merged, count, ok := MergeEndpointRefs(name, base, refs);
      MergedHolds(Base(name, own), refs);
      CountZero(refs);
      CountedAreJoined(refs);
      if merged != null && |merged.localities| > 0 {
        base := merged;
      }
      load := if base == null then None else Some(base.Value());
    }

    /** Puts a served cluster in the store: moved, updated where it stands, or added. */
    method Store(node: string, cds: Cluster)
      requires Once(configs)
      modifies this
      ensures configs == Next(old(configs), cds.name, Serve(node, cds))
      ensures old(counter) < counter
    {
      var at := Find(cds.name);
      if at.None? {
        AllWithoutAbsent(configs, cds.name);
        Append(node, cds);
        return;
      }
      var (n, k) := at.value;
      if n != node {
        AllWithoutOnly(configs, cds.name, n, k);
        configs := configs[n := configs[n][..k] + configs[n][k + 1..]];
        Append(node, cds);
      } else {
        ReplacedOnly(configs[node], cds, k);
        configs := configs[node := configs[node][k := cds]];
        counter := counter + 1;
      }
    }
  }
}
