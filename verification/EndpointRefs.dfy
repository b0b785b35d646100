/** controllers/cds: the load assignment of a cluster and the Endpoint resources merged into it. */
module EndpointRefs {
  import opened Prelude

  /** A locality and how many load-balanced endpoints it holds. */
  datatype Locality = Locality(content: string, endpoints: nat)

  datatype Assignment = Assignment(
    clusterName: string, localities: seq<Locality>, named: map<string, string>, policy: Option<string>)

  /** What looking up a referenced Endpoint gave: not read, not there, not convertible, or what it holds. */
  datatype Ref =
    | Unread
    | Absent
    | Malformed
    | Ready(localities: seq<Locality>, named: map<string, string>, policy: Option<string>)

  // ---------------------------------------------------------------- merging

  /** What the merge starts from: the cluster's own assignment, if any, under the cluster's name unless it has one. */
  function Base(name: string, own: Option<Assignment>): Assignment {
    if own.None? then Assignment(name, [], map[], None)
    else if own.value.clusterName == "" then own.value.(clusterName := name)
    else own.value
  }

  function MergeOne(a: Assignment, r: Ref): Assignment {
    if !r.Ready? then a
    else
      a.(localities := a.localities + r.localities, named := a.named + r.named,
         policy := if r.policy.Some? then r.policy else a.policy)
  }

  function Merged(a: Assignment, refs: seq<Ref>): Assignment
    decreases |refs|
  {
    if refs == [] then a else MergeOne(Merged(a, refs[..|refs| - 1]), refs[|refs| - 1])
  }

  function EndpointsIn(ls: seq<Locality>): nat
    decreases |ls|
  {
    if ls == [] then 0 else EndpointsIn(ls[..|ls| - 1]) + ls[|ls| - 1].endpoints
  }

  function CountIn(r: Ref): nat {
    if r.Ready? then EndpointsIn(r.localities) else 0
  }

  /** The endpoints the references bring. */
  function Count(refs: seq<Ref>): nat
    decreases |refs|
  {
    if refs == [] then 0 else Count(refs[..|refs| - 1]) + CountIn(refs[|refs| - 1])
  }

  /** A load assignment, edited in place while it is merged. */
  class LoadAssignment {
    var clusterName: string
    var localities: seq<Locality>
    var named: map<string, string>
    var policy: Option<string>

    function Value(): Assignment
      reads this
    {
      Assignment(clusterName, localities, named, policy)
    }

    constructor (a: Assignment)
      ensures Value() == a
    {
      clusterName, localities, named, policy := a.clusterName, a.localities, a.named, a.policy;
    }

    method Add(r: Ref) returns (endpoints: nat)
      requires r.Ready?
      modifies this
      ensures Value() == MergeOne(old(Value()), r) && endpoints == CountIn(r)
    {
      localities := localities + r.localities;
      endpoints := 0;
      for i := 0 to |r.localities|
        invariant endpoints == EndpointsIn(r.localities[..i])
        invariant Value() == old(Value()).(localities := old(localities) + r.localities)
      {
        assert r.localities[..i + 1][..i] == r.localities[..i];
        endpoints := endpoints + r.localities[i].endpoints;
      }
      assert r.localities[..|r.localities|] == r.localities;
      named := named + r.named;
      if r.policy.Some? {
        policy := r.policy;
      }
    }
  }

  /**
   * Merges the referenced Endpoints into the cluster's own assignment, or into a new one. The cluster's
   * own object is edited even where nothing is handed back. Fails when a lookup does.
   */
  method MergeEndpointRefs(name: string, own: LoadAssignment?, refs: seq<Ref>)
    returns (merged: LoadAssignment?, count: nat, ok: bool)
    modifies own
    ensures ok <==> Unread !in refs
    ensures ok ==>
      var all := Merged(Base(name, old(ValueOf(own))), refs);
      && (own != null && refs != [] ==> own.Value() == all)
      && (merged == null <==> refs == [] || (all.localities == [] && all.named == map[]))
      && (merged != null ==> merged.Value() == all && (own != null ==> merged == own))
      && count == if merged == null then 0 else Count(refs)
  {
    merged, count, ok := null, 0, true;
    if |refs| == 0 {
      return;
    }
    ghost var base := Base(name, ValueOf(own));
    var all: LoadAssignment;
    if own != null {
      all := own;
      if all.clusterName == "" {
        all.clusterName := name;
      }
    } else {
      all := new LoadAssignment(Assignment(name, [], map[], None));
    }
    for i := 0 to |refs|
      invariant all.Value() == Merged(base, refs[..i]) && count == Count(refs[..i])
      invariant Unread !in refs[..i]
    {
      assert refs[..i + 1][..i] == refs[..i];
      if refs[i].Unread? {
        assert refs[i] in refs;
        return null, 0, false;
      }
      if refs[i].Ready? {
        var n := all.Add(refs[i]);
        count := count + n;
      }
    }
    assert refs[..|refs|] == refs;
    if |all.localities| == 0 && all.named == map[] {
      return null, 0, true;
    }
    merged := all;
  }

  function ValueOf(own: LoadAssignment?): Option<Assignment>
    reads own
  {
    if own == null then None else Some(own.Value())
  }

  // ---------------------------------------------------------------- what a merge holds

  /** The localities of the Endpoints that are there, in the order of the references. */
  function Joined(refs: seq<Ref>): seq<Locality> {
    if refs == [] then [] else (if refs[0].Ready? then refs[0].localities else []) + Joined(refs[1..])
  }

  /** refs[i] is the last one of its kind. */
  ghost predicate IsLast(refs: seq<Ref>, kind: Ref -> bool, i: int) {
    0 <= i < |refs| && kind(refs[i]) && forall j :: i < j < |refs| ==> !kind(refs[j])
  }

  ghost predicate SomeRef(refs: seq<Ref>, kind: Ref -> bool) {
    exists r :: r in refs && kind(r)
  }

  function Names(k: string): Ref -> bool {
    (r: Ref) => r.Ready? && k in r.named
  }

  function HasPolicy(): Ref -> bool {
    (r: Ref) => r.Ready? && r.policy.Some?
  }

  /** The last Endpoint that names k says v; where none does, the cluster's own assignment does. */
  ghost predicate LastNamed(own: map<string, string>, refs: seq<Ref>, k: string, v: string) {
    if SomeRef(refs, Names(k)) then exists i :: IsLast(refs, Names(k), i) && refs[i].named[k] == v
    else k in own && own[k] == v
  }

  ghost predicate NamesLast(own: map<string, string>, refs: seq<Ref>, named: map<string, string>) {
    forall k, v :: LastNamed(own, refs, k, v) <==> k in named && named[k] == v
  }

  /** The last Endpoint with a policy has this one; where none has one, it is the cluster's own. */
  ghost predicate LastPolicy(own: Option<string>, refs: seq<Ref>, policy: Option<string>) {
    if SomeRef(refs, HasPolicy()) then exists i :: IsLast(refs, HasPolicy(), i) && refs[i].policy == policy
    else policy == own
  }

  lemma IsLastSnoc(refs: seq<Ref>, r: Ref, kind: Ref -> bool)
    ensures SomeRef(refs + [r], kind) <==> kind(r) || SomeRef(refs, kind)
    ensures forall i :: IsLast(refs + [r], kind, i) <==> if kind(r) then i == |refs| else IsLast(refs, kind, i)
  {
    var more := refs + [r];
    assert more[|refs|] == r;
    assert forall x :: x in more <==> x in refs || x == r;
    forall i
      ensures IsLast(more, kind, i) <==> if kind(r) then i == |refs| else IsLast(refs, kind, i)
    {
      if IsLast(more, kind, i) && i < |refs| {
        assert more[i] == refs[i];
        assert !kind(more[|refs|]);
        assert forall j :: i < j < |refs| ==> refs[j] == more[j];
      }
      if IsLast(refs, kind, i) && !kind(r) {
        assert forall j :: i < j < |refs| ==> refs[j] == more[j];
      }
    }
  }

  lemma {:induction false} JoinedSnoc(refs: seq<Ref>, r: Ref)
    ensures Joined(refs + [r]) == Joined(refs) + (if r.Ready? then r.localities else [])
  {
    if refs != [] {
      JoinedSnoc(refs[1..], r);
      assert (refs + [r])[1..] == refs[1..] + [r];
    }
  }

  /** What a merge holds: the localities in order, for every name the last Endpoint's, and the last policy. */
  lemma {:induction false} MergedHolds(a: Assignment, refs: seq<Ref>)
    ensures var all := Merged(a, refs);
      && all.clusterName == a.clusterName
      && all.localities == a.localities + Joined(refs)
      && NamesLast(a.named, refs, all.named)
      && LastPolicy(a.policy, refs, all.policy)
    decreases |refs|
  {
    if refs != [] {
      hide LastNamed, LastPolicy;
      var init, last := refs[..|refs| - 1], refs[|refs| - 1];
      MergedHolds(a, init);
      JoinedSnoc(init, last);
      assert refs == init + [last];
      var was, all := Merged(a, init), Merged(a, refs);
      forall k, v
        ensures (k in all.named && all.named[k] == v) <==> LastNamed(a.named, refs, k, v)
      {
        LastNamedSnoc(a.named, init, last, k, v);
      }
      LastPolicySnoc(a.policy, init, last, was.policy);
      LastPolicySnoc(a.policy, init, last, all.policy);
    }
  }

  lemma LastNamedSnoc(own: map<string, string>, refs: seq<Ref>, r: Ref, k: string, v: string)
    ensures LastNamed(own, refs + [r], k, v) <==>
      if r.Ready? && k in r.named then r.named[k] == v else LastNamed(own, refs, k, v)
  {
    hide IsLast, SomeRef;
    var more := refs + [r];
    IsLastSnoc(refs, r, Names(k));
    IsLastWithin(refs, Names(k));
    IsLastWithin(more, Names(k));
    assert more[|refs|] == r;
    if Names(k)(r) {
      assert IsLast(more, Names(k), |refs|);
    } else {
      if i :| IsLast(refs, Names(k), i) && refs[i].named[k] == v {
        assert IsLast(more, Names(k), i) && more[i] == refs[i];
      }
      if i :| IsLast(more, Names(k), i) && more[i].named[k] == v {
        assert IsLast(refs, Names(k), i) && more[i] == refs[i];
      }
    }
  }

  lemma IsLastWithin(refs: seq<Ref>, kind: Ref -> bool)
    ensures forall i :: IsLast(refs, kind, i) ==> 0 <= i < |refs| && kind(refs[i])
  {
  }

  lemma LastPolicySnoc(own: Option<string>, refs: seq<Ref>, r: Ref, policy: Option<string>)
    ensures LastPolicy(own, refs + [r], policy) <==>
      if r.Ready? && r.policy.Some? then policy == r.policy else LastPolicy(own, refs, policy)
  {
    hide IsLast, SomeRef;
    var more := refs + [r];
    IsLastSnoc(refs, r, HasPolicy());
    IsLastWithin(refs, HasPolicy());
    IsLastWithin(more, HasPolicy());
    assert more[|refs|] == r;
    if HasPolicy()(r) {
      assert IsLast(more, HasPolicy(), |refs|);
    } else {
      if i :| IsLast(refs, HasPolicy(), i) && refs[i].policy == policy {
        assert IsLast(more, HasPolicy(), i) && more[i] == refs[i];
      }
      if i :| IsLast(more, HasPolicy(), i) && more[i].policy == policy {
        assert IsLast(refs, HasPolicy(), i) && more[i] == refs[i];
      }
    }
  }

  /** The Endpoints that are there hold no endpoint. */
  ghost predicate NoEndpoints(refs: seq<Ref>) {
    forall r, l :: r in refs && r.Ready? && l in r.localities ==> l.endpoints == 0
  }

  lemma {:induction false} EndpointsInZero(ls: seq<Locality>)
    ensures EndpointsIn(ls) == 0 <==> forall l :: l in ls ==> l.endpoints == 0
    decreases |ls|
  {
    if ls != [] {
      EndpointsInZero(ls[..|ls| - 1]);
      assert ls == ls[..|ls| - 1] + [ls[|ls| - 1]];
    }
  }

  lemma {:induction false} CountZero(refs: seq<Ref>)
    ensures Count(refs) == 0 <==> NoEndpoints(refs)
    decreases |refs|
  {
    if refs != [] {
      var init, last := refs[..|refs| - 1], refs[|refs| - 1];
      CountZero(init);
      assert refs == init + [last];
      assert forall r :: r in refs <==> r in init || r == last;
      if last.Ready? {
        EndpointsInZero(last.localities);
      }
    }
  }
}
