/**
 * The hasher as it runs: digests are memoized per message address over two passes, and hash
 * writers are reused from a free list while recursive calls hold others. It returns the same
 * digests as plain recursion.
 */
module VersionHasher {
  import opened Prelude
  import opened Sorting
  import opened Varint
  import opened ConfigHash

  /** A SHA-256 state: what has been written so far. */
  class Writer {
    var written: Bytes

    constructor ()
      ensures written == []
    {
      written := [];
    }

    method Reset()
      modifies this
      ensures written == []
    {
      written := [];
    }

    method Write(b: Bytes)
      modifies this
      ensures written == old(written) + b
    {
      written := written + b;
    }

    /** writeBytes */
    method WriteFramed(b: Bytes)
      modifies this
      ensures written == old(written) + Framed(b)
    {
      Write(PutUvarint(|b|));
      Write(b);
    }
  }

  const FILTER_CHAIN := "envoy.config.listener.v3.FilterChain"

  /** What a memo entry is computed with. */
  datatype Compute = Whole | OnlyAny | OnlyFields

  ghost predicate Computes(how: Compute, m: Message) {
    match how
    case Whole => true
    case OnlyAny => m.Any?
    case OnlyFields => m.Plain?
  }

  // ---------------------------------------------------------------- addresses

  /**
   * Every message the memo may look up sits at its address. Messages inside a decoded Any are
   * fresh copies and sit nowhere in particular.
   */
  ghost predicate ResidentValue(heap: int -> Message, v: Value)
    decreases v
  {
    v.Msg? ==> Resident(heap, v.m)
  }

  ghost predicate ResidentContent(heap: int -> Message, c: Content)
    decreases c
  {
    match c
    case One(v) => ResidentValue(heap, v)
    case Many(vs) => forall v :: v in vs ==> ResidentValue(heap, v)
    case Entries(es) => forall e :: e in es ==> ResidentValue(heap, e.key) && ResidentValue(heap, e.value)
  }

  ghost predicate Resident(heap: int -> Message, m: Message)
    decreases m
  {
    heap(m.ref) == m &&
    (m.Plain? ==> forall f :: f in m.fields ==> ResidentContent(heap, f.content))
  }

  lemma AnyWritten(sha: Sha, m: Message)
    requires m.Any?
    ensures MessageDigest(sha, m) ==
      sha(Framed(m.url) + (if m.packed.Decoded? then MessageDigest(sha, m.packed.inner) else Framed(m.packed.value)))
  {
  }

  class Hasher {
    const sha: Sha
    var cur: map<int, Digest>
    var prev: map<int, Digest>
    var free: seq<Writer>
    /** Any values being decoded. */
    var unpacking: nat
    /** The immutable message at each address. */
    ghost var heap: int -> Message
    /** Writers handed out and not put back. */
    ghost var inUse: set<Writer>
    /** Addresses the memo was asked for in this pass. */
    ghost var reached: set<int>

    ghost predicate Valid()
      reads this
    {
      && (forall r :: r in cur ==> cur[r] == MessageDigest(sha, heap(r)))
      && (forall r :: r in prev ==> prev[r] == MessageDigest(sha, heap(r)))
      && cur.Keys == reached
      && (forall i, j :: 0 <= i < j < |free| ==> free[i] != free[j])
      && (forall w :: w in free ==> w !in inUse)
    }

    ghost function FreeSet(): set<Writer>
      reads this
    {
      set w | w in free
    }

    /** Messages of the call are looked up only outside decoded values. */
    ghost predicate Ready(m: Message)
      reads this
    {
      Valid() && (unpacking == 0 ==> Resident(heap, m))
    }

    /** What every call leaves alone. */
    twostate predicate Continues()
      reads this
    {
      && prev == old(prev) && heap == old(heap) && unpacking == old(unpacking) && inUse == old(inUse)
      && old(reached) <= reached
      && (unpacking > 0 ==> cur == old(cur) && reached == old(reached))
      && (forall w :: w in free ==> w in old(free) || !old(allocated(w)))
    }

    constructor (sha: Sha, ghost heap: int -> Message)
      ensures Valid() && this.sha == sha && this.heap == heap
      ensures cur == map[] && prev == map[] && unpacking == 0 && inUse == {} && reached == {} && free == []
    {
      this.sha, this.heap := sha, heap;
      cur, prev, free, unpacking := map[], map[], [], 0;
      inUse, reached := {}, {};
    }

    /** A writer nobody else holds: a reset one from the free list, or a new one. */
    method TakeWriter() returns (w: Writer)
      requires Valid()
      modifies this`free, this`inUse, FreeSet()
      ensures Valid()
      ensures w.written == []
      ensures w !in old(inUse) && inUse == old(inUse) + {w} && w !in free
      ensures w in old(free) || fresh(w)
      ensures forall x :: x in free ==> x in old(free)
    {
      if |free| > 0 {
        w := free[|free| - 1];
        assert w in free;
        free := free[..|free| - 1];
        w.Reset();
      } else {
        w := new Writer();
      }
      inUse := inUse + {w};
    }

    method PutBack(w: Writer)
      requires Valid() && w in inUse
      modifies this`free, this`inUse
      ensures Valid()
      ensures free == old(free) + [w] && inUse == old(inUse) - {w}
    {
      free := free + [w];
      inUse := inUse - {w};
    }

    /** Forgets what the pass before this one reached and this one did not. */
    method EndPass()
      requires Valid()
      modifies this`cur, this`prev, this`reached
      ensures Valid()
      ensures prev == old(cur) && prev.Keys == old(reached) && cur == map[]
    {
      prev, cur := cur, map[];
      reached := {};
    }

    /** Between passes an address may be used again, unless the memo still holds it. */
    ghost method Recycle(after: int -> Message)
      requires Valid()
      requires forall r :: r in cur || r in prev ==> after(r) == heap(r)
      modifies this`heap
      ensures Valid() && heap == after
    {
      heap := after;
    }

    /** The memo: this pass, then the one before, then the computation, which may use the memo itself. */
    method Get(m: Message, how: Compute) returns (d: Digest)
      requires Ready(m) && unpacking == 0 && Computes(how, m)
      modifies this`cur, this`free, this`unpacking, this`inUse, this`reached, FreeSet()
      ensures Valid() && Continues()
      ensures d == MessageDigest(sha, m) && m.ref in reached
      decreases m, if how.Whole? then 4 else 2
    {
      if m.ref in cur {
        return cur[m.ref];
      }
      if m.ref in prev {
        d := prev[m.ref];
      } else {
        match how {
          case Whole => d := HashMessage(m);
          case OnlyAny => d := HashAny(m);
          case OnlyFields => d := HashFields(m);
        }
      }
      cur := cur[m.ref := d];
      reached := reached + {m.ref};
    }

    method HashMessage(m: Message) returns (d: Digest)
      requires Ready(m)
      modifies this`cur, this`free, this`unpacking, this`inUse, this`reached, FreeSet()
      ensures Valid() && Continues()
      ensures d == MessageDigest(sha, m)
      decreases m, 3
    {
      if m.Any? {
        if unpacking > 0 {
          d := HashAny(m);
        } else {
          d := Get(m, OnlyAny);
        }
      } else if m.typ == FILTER_CHAIN && unpacking == 0 {
        d := Get(m, OnlyFields);
      } else {
        d := HashFields(m);
      }
    }

    /** A packed value that decodes is hashed by what it decodes to, so packing order does not show. */
    method HashAny(m: Message) returns (d: Digest)
      requires Ready(m) && m.Any?
      modifies this`cur, this`free, this`unpacking, this`inUse, this`reached, FreeSet()
      ensures Valid() && Continues()
      ensures d == MessageDigest(sha, m)
      decreases m, 1
    {
      hide MessageDigest, MessageBytes, Framed, Resident;
      var w := TakeWriter();
      w.WriteFramed(m.url);
      assert w.written == Framed(m.url);
      match m.packed {
        case Decoded(inner) =>
          unpacking := unpacking + 1;
          var i := HashMessage(inner);
          unpacking := unpacking - 1;
          w.Write(i);
        case Raw(value) =>
          w.WriteFramed(value);
      }
      AnyWritten(sha, m);
      d := sha(w.written);
      PutBack(w);
    }

    method HashFields(m: Message) returns (d: Digest)
      requires Ready(m) && m.Plain?
      modifies this`cur, this`free, this`unpacking, this`inUse, this`reached, FreeSet()
      ensures Valid() && Continues()
      ensures d == MessageDigest(sha, m)
      decreases m, 1
    {
      hide MessageDigest, MessageBytes, FieldsBytes, PutVarint, ContentBytes, Framed, ResidentContent;
      var w := TakeWriter();
      FieldsNone(sha);
      for i := 0 to |m.fields|
        invariant Valid() && w.written == FieldsBytes(sha, m.fields[..i])
        invariant prev == old(prev) && heap == old(heap) && unpacking == old(unpacking) && inUse == old(inUse) + {w}
        invariant w !in free && old(reached) <= reached
        invariant unpacking > 0 ==> cur == old(cur) && reached == old(reached)
        invariant forall x :: x in free ==> x in old(free) || fresh(x)
      {
        var f := m.fields[i];
        assert f in m.fields;
        w.Write(PutVarint(f.number));
        WriteContent(w, f.content);
        FieldsSnoc(sha, m.fields, i);
      }
      assert m.fields[..|m.fields|] == m.fields;
      w.WriteFramed([]);
      PlainWritten(sha, m);
      d := sha(w.written);
      PutBack(w);
    }

    method WriteContent(w: Writer, c: Content)
      requires Valid() && w in inUse
      requires unpacking == 0 ==> ResidentContent(heap, c)
      modifies this`cur, this`free, this`unpacking, this`inUse, this`reached, FreeSet(), w
      ensures Valid() && Continues()
      ensures w.written == old(w.written) + ContentBytes(sha, c)
      decreases c, 3
    {
      hide Framed, PutVarint, PutUvarint, ResidentValue;
      match c {
        case One(v) =>
          var b := HashValue(v);
          w.WriteFramed(b);
        case Many(vs) =>
          WriteValues(w, vs);
        case Entries(es) =>
          WriteEntries(w, es);
      }
    }

    method HashValue(v: Value) returns (b: Bytes)
      requires Valid()
      requires unpacking == 0 ==> ResidentValue(heap, v)
      modifies this`cur, this`free, this`unpacking, this`inUse, this`reached, FreeSet()
      ensures Valid() && Continues()
      ensures b == ValueBytes(sha, v)
      decreases v, 0
    {
      match v {
        case Msg(m) => b := HashMessage(m);
        case Blob(x) => b := x;
        case Flag(on) => b := if on then [1] else [0];
        case Int(n) => b := PutVarint(n);
        case Uint(u) => b := PutUvarint(u);
      }
    }

    method WriteValues(w: Writer, vs: seq<Value>)
      requires Valid() && w in inUse
      requires unpacking == 0 ==> forall v :: v in vs ==> ResidentValue(heap, v)
      modifies this`cur, this`free, this`unpacking, this`inUse, this`reached, FreeSet(), w
      ensures Valid() && Continues()
      ensures w.written == old(w.written) + (PutVarint(|vs|) + Frames(ValuesBytes(sha, vs)))
      decreases vs, 2
    {
      hide Framed, PutVarint, ResidentValue, ValuesBytes, Frames;
      w.Write(PutVarint(|vs|));
      ghost var start := w.written;
      ValuesNone(sha);
      for i := 0 to |vs|
        invariant Valid() && Continues()
        invariant w.written == start + Frames(ValuesBytes(sha, vs[..i]))
      {
        assert vs[i] in vs;
        var b := HashValue(vs[i]);
        w.WriteFramed(b);
        ValuesSnoc(sha, vs, i);
      }
      assert vs[..|vs|] == vs;
    }

    /** Map entries come in whatever order the map yields them; their digests are sorted. */
    method WriteEntries(w: Writer, es: seq<Entry>)
      requires Valid() && w in inUse
      requires unpacking == 0 ==> forall e :: e in es ==> ResidentValue(heap, e.key) && ResidentValue(heap, e.value)
      modifies this`cur, this`free, this`unpacking, this`inUse, this`reached, FreeSet(), w
      ensures Valid() && Continues()
      ensures w.written == old(w.written) + (PutUvarint(|es|) + Frames(Sort(DigestLess, EntryDigests(sha, es))))
      decreases es, 2
    {
      hide Framed, PutUvarint, ResidentValue, EntryDigests, Frames, Without;
      var rest := es;
      var entries: seq<Digest> := [];
      while rest != []
        invariant Valid() && Continues() && w.written == old(w.written)
        invariant forall e :: e in rest ==> e in es
        invariant multiset(entries) + multiset(EntryDigests(sha, rest)) == multiset(EntryDigests(sha, es))
        decreases |rest|
      {
        var j :| 0 <= j < |rest|;
        assert rest[j] in es;
        var d := HashEntry(rest[j]);
        EntryDigestAt(sha, rest, j);
        WithoutMultiset(EntryDigests(sha, rest), j);
        WithoutSubset(rest, j);
        assert EntryDigests(sha, rest)[j] in multiset(EntryDigests(sha, rest));
        entries := entries + [d];
        rest := Without(rest, j);
      }
      NoEntries(sha);
      SameElements(entries, EntryDigests(sha, es));
      SortedDigests(entries, EntryDigests(sha, es));
      WriteSorted(w, entries);
    }

    method HashEntry(e: Entry) returns (d: Digest)
      requires Valid()
      requires unpacking == 0 ==> ResidentValue(heap, e.key) && ResidentValue(heap, e.value)
      modifies this`cur, this`free, this`unpacking, this`inUse, this`reached, FreeSet()
      ensures Valid() && Continues()
      ensures d == sha(EntryBytes(sha, e))
      decreases e, 1
    {
      hide Framed, ResidentValue, ValueBytes;
      var w := TakeWriter();
      var k := HashValue(e.key);
      w.WriteFramed(k);
      assert w.written == Framed(ValueBytes(sha, e.key));
      var v := HashValue(e.value);
      w.WriteFramed(v);
      assert w.written == EntryBytes(sha, e);
      d := sha(w.written);
      PutBack(w);
    }

    method WriteSorted(w: Writer, elems: seq<Digest>)
      modifies w
      ensures w.written == old(w.written) + (PutUvarint(|elems|) + Frames(Sort(DigestLess, elems)))
    {
      var sorted: seq<Bytes> := Sort(DigestLess, elems);
      w.Write(PutUvarint(|elems|));
      ghost var start := w.written;
      for i := 0 to |sorted|
        invariant w.written == start + Frames(sorted[..i])
      {
        w.WriteFramed(sorted[i]);
        FramesSnoc(sorted[..i], sorted[i]);
        assert sorted[..i + 1] == sorted[..i] + [sorted[i]];
      }
      assert sorted[..|sorted|] == sorted;
    }

    /**
     * The version of a node's resources: the digest of the same bytes plain recursion gives, in
     * whatever pass and with whatever the memo already holds.
     */
    method HashResources(res: Resources) returns (version: Digest)
      requires Valid() && unpacking == 0
      requires forall k, m :: k in res && m in res[k] ==> Resident(heap, m)
      modifies this`cur, this`free, this`unpacking, this`inUse, this`reached, FreeSet()
      ensures Valid() && Continues()
      ensures version == sha(ResourcesBytes(sha, res))
      ensures forall k, m :: k in res && m in res[k] ==> m.ref in reached
    {
      hide MessageDigest, Resident, TypeBytes, TypesBytes, SortedKeys;
      var keys := KeysInOrder(res);
      TypesNone(sha, res);
      SortedKeysList(res.Keys);
      var w := TakeWriter();
      for i := 0 to |keys|
        invariant Valid() && w.written == TypesBytes(sha, keys[..i], res)
        invariant prev == old(prev) && heap == old(heap) && unpacking == 0 && inUse == old(inUse) + {w}
        invariant w !in free && old(reached) <= reached
        invariant forall x :: x in free ==> x in old(free) || fresh(x)
        invariant forall k, m :: k in keys[..i] && m in res[k] ==> m.ref in reached
      {
        assert keys[i] in keys;
        WriteType(w, keys[i], res[keys[i]]);
        TypesSnoc(sha, keys[..i], keys[i], res);
        assert keys[..i + 1] == keys[..i] + [keys[i]];
      }
      assert keys[..|keys|] == keys;
      version := sha(w.written);
      PutBack(w);
    }

    /**
     * One pass over the nodes' resources. Since the last one addresses the memo does not hold may
     * have come to hold other messages; the versions are those of plain recursion all the same, and
     * afterwards the memo holds exactly the messages this pass reached.
     */
    method HashPass(nodes: seq<Resources>, ghost after: int -> Message) returns (versions: seq<Digest>, ghost hashed: set<int>)
      requires Valid() && unpacking == 0 && reached == {} && cur == map[]
      requires forall r :: r in prev ==> after(r) == heap(r)
      requires forall i, k, m :: 0 <= i < |nodes| && k in nodes[i] && m in nodes[i][k] ==> Resident(after, m)
      modifies this`cur, this`prev, this`heap, this`free, this`unpacking, this`inUse, this`reached, FreeSet()
      ensures Valid() && unpacking == 0 && reached == {} && cur == map[] && heap == after
      ensures |versions| == |nodes| && forall i :: 0 <= i < |nodes| ==> versions[i] == sha(ResourcesBytes(sha, nodes[i]))
      ensures prev.Keys == hashed && forall i, k, m :: 0 <= i < |nodes| && k in nodes[i] && m in nodes[i][k] ==> m.ref in hashed
    {
      hide ResourcesBytes, Resident, MessageDigest;
      Recycle(after);
      versions := [];
      for i := 0 to |nodes|
        invariant Valid() && unpacking == 0 && heap == after && inUse == old(inUse)
        invariant forall w :: w in free ==> w in old(free) || fresh(w)
        invariant |versions| == i && forall j :: 0 <= j < i ==> versions[j] == sha(ResourcesBytes(sha, nodes[j]))
        invariant forall j, k, m :: 0 <= j < i && k in nodes[j] && m in nodes[j][k] ==> m.ref in reached
      {
        var v := HashResources(nodes[i]);
        versions := versions + [v];
      }
      hashed := reached;
      EndPass();
    }

    /** The map yields its keys in any order; sorting makes it the one order. */
    method KeysInOrder(res: Resources) returns (keys: seq<Bytes>)
      ensures keys == SortedKeys(res.Keys)
    {
      var rest := res.Keys;
      var out: seq<Bytes> := [];
      while rest != {}
        invariant multiset(out) + multiset(rest) == multiset(res.Keys)
      {
        var k :| k in rest;
        rest := rest - {k};
        out := out + [k];
      }
      BytesLessTotal();
      SortSorts(BytesLess, out);
      SortedKeysList(res.Keys);
      SortedUnique(BytesLess, Sort(BytesLess, out), SortedKeys(res.Keys));
      return Sort(BytesLess, out);
    }

    method WriteType(w: Writer, k: Bytes, ms: seq<Message>)
      requires Valid() && unpacking == 0 && w in inUse
      requires forall m :: m in ms ==> Resident(heap, m)
      modifies this`cur, this`free, this`unpacking, this`inUse, this`reached, FreeSet(), w
      ensures Valid() && Continues()
      ensures w.written == old(w.written) + TypeBytes(sha, k, ms)
      ensures forall m :: m in ms ==> m.ref in reached
    {
      hide MessageDigest, Resident, Framed, PutUvarint, Concat, Digests, Sort;
      var ds := DigestAll(ms);
      WriteDigests(w, k, ds);
    }

    method DigestAll(ms: seq<Message>) returns (ds: seq<Digest>)
      requires Valid() && unpacking == 0
      requires forall m :: m in ms ==> Resident(heap, m)
      modifies this`cur, this`free, this`unpacking, this`inUse, this`reached, FreeSet()
      ensures Valid() && Continues()
      ensures ds == Digests(sha, ms)
      ensures forall m :: m in ms ==> m.ref in reached
    {
      hide MessageDigest, Resident;
      ds := [];
      for i := 0 to |ms|
        invariant Valid() && Continues() && |ds| == i
        invariant forall j :: 0 <= j < i ==> ds[j] == MessageDigest(sha, ms[j]) && ms[j].ref in reached
      {
        assert ms[i] in ms;
        var d := Get(ms[i], Whole);
        ds := ds + [d];
      }
    }

    method WriteDigests(w: Writer, k: Bytes, ds: seq<Digest>)
      modifies w
      ensures w.written == old(w.written) + (Framed(k) + PutUvarint(|ds|) + Concat(Sort(DigestLess, ds)))
    {
      hide Framed, PutUvarint, Concat, Sort;
      var sorted := Sort(DigestLess, ds);
      w.WriteFramed(k);
      w.Write(PutUvarint(|ds|));
      ghost var start := w.written;
      ConcatNone();
      for i := 0 to |sorted|
        invariant w.written == start + Concat(sorted[..i])
      {
        w.Write(sorted[i]);
        ConcatSnoc(sorted[..i], sorted[i]);
        assert sorted[..i + 1] == sorted[..i] + [sorted[i]];
      }
      assert sorted[..|sorted|] == sorted;
    }
  }

  lemma ConcatNone()
    ensures forall ds: seq<Digest> :: ds == [] ==> Concat(ds) == []
  {
  }

  lemma {:induction false} ConcatSnoc(ds: seq<Digest>, d: Digest)
    ensures Concat(ds + [d]) == Concat(ds) + d
  {
    if ds == [] {
      assert [d][1..] == [];
    } else {
      ConcatSnoc(ds[1..], d);
      assert (ds + [d])[1..] == ds[1..] + [d];
    }
  }

  lemma {:induction false} TypesSnoc(sha: Sha, keys: seq<Bytes>, k: Bytes, res: Resources)
    requires forall x :: x in keys + [k] ==> x in res
    ensures (forall x :: x in keys ==> x in res) && k in res
    ensures TypesBytes(sha, keys + [k], res) == TypesBytes(sha, keys, res) + TypeBytes(sha, k, res[k])
  {
    hide TypeBytes;
    assert k in keys + [k];
    forall x | x in keys
      ensures x in res
    {
      assert x in keys + [k];
    }
    if keys == [] {
      assert [k][1..] == [];
    } else {
      assert (keys + [k])[1..] == keys[1..] + [k];
      TypesSnoc(sha, keys[1..], k, res);
    }
  }

  lemma TypesNone(sha: Sha, res: Resources)
    ensures TypesBytes(sha, [], res) == []
  {
  }

  lemma {:induction false} FramesSnoc(bs: seq<Bytes>, b: Bytes)
    ensures Frames(bs + [b]) == Frames(bs) + Framed(b)
  {
    if bs == [] {
      assert [b][1..] == [];
    } else {
      FramesSnoc(bs[1..], b);
      assert (bs + [b])[1..] == bs[1..] + [b];
    }
  }

  lemma {:induction false} ValuesSnoc(sha: Sha, vs: seq<Value>, i: nat)
    requires i < |vs|
    ensures Frames(ValuesBytes(sha, vs[..i + 1])) == Frames(ValuesBytes(sha, vs[..i])) + Framed(ValueBytes(sha, vs[i]))
    decreases |vs|
  {
    if i == 0 {
      assert vs[..1][1..] == [] && vs[..0] == [];
    } else {
      ValuesSnoc(sha, vs[1..], i - 1);
      assert vs[..i + 1][1..] == vs[1..][..i] && vs[..i][1..] == vs[1..][..i - 1];
    }
  }

  lemma ValuesNone(sha: Sha)
    ensures forall vs: seq<Value> :: vs == [] ==> Frames(ValuesBytes(sha, vs)) == []
  {
  }

  lemma FieldsNone(sha: Sha)
    ensures forall fs: seq<Field> :: fs == [] ==> FieldsBytes(sha, fs) == []
  {
  }

  lemma NoEntries(sha: Sha)
    ensures EntryDigests(sha, []) == []
  {
  }

  lemma WithoutSubset<T>(s: seq<T>, j: nat)
    requires j < |s|
    ensures |Without(s, j)| == |s| - 1
    ensures forall x :: x in Without(s, j) ==> x in s
  {
  }

  lemma {:induction false} FieldsSnoc(sha: Sha, fs: seq<Field>, i: nat)
    requires i < |fs|
    ensures FieldsBytes(sha, fs[..i + 1]) ==
      FieldsBytes(sha, fs[..i]) + PutVarint(fs[i].number) + ContentBytes(sha, fs[i].content)
    decreases |fs|
  {
    if i == 0 {
      assert fs[..1][1..] == [] && fs[..0] == [];
    } else {
      FieldsSnoc(sha, fs[1..], i - 1);
      assert fs[..i + 1][1..] == fs[1..][..i] && fs[..i][1..] == fs[1..][..i - 1];
    }
  }

  lemma PlainWritten(sha: Sha, m: Message)
    requires m.Plain?
    ensures MessageDigest(sha, m) == sha(FieldsBytes(sha, m.fields) + Framed([]))
  {
  }
}
