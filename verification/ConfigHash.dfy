/**
 * The version hash of a node's resources, as plain recursion over messages, and exactly how much
 * of the resources it determines. SHA-256 is a parameter; instead of assuming it injective, the
 * results assume that it has no collision among the byte strings hashed for the two sides.
 */
module ConfigHash {
  import opened Prelude
  import opened Sorting
  import opened Varint

  type Digest = d: Bytes | |d| == 32 witness seq(32, i => 0)
  type Sha = Bytes -> Digest

  // ---------------------------------------------------------------- messages

  /** `ref` is the message's address: the memo's key, not part of its value. */
  datatype Message =
    | Plain(ref: int, typ: string, fields: seq<Field>)
    | Any(ref: int, url: Bytes, packed: Packed)

  /** A packed value either decodes to a message of a registered type or stays bytes. */
  datatype Packed = Decoded(inner: Message) | Raw(value: Bytes)

  /** A field that is present, in descriptor order; unknown fields are not modelled. */
  datatype Field = Field(number: int, content: Content)
  datatype Content = One(value: Value) | Many(values: seq<Value>) | Entries(entries: seq<Entry>)
  datatype Entry = Entry(key: Value, value: Value)
  datatype Value = Msg(m: Message) | Blob(bytes: Bytes) | Flag(on: bool) | Int(n: int) | Uint(u: nat)

  // ---------------------------------------------------------------- plain hashing

  predicate DigestLess(a: Digest, b: Digest) {
    LexLess(a, b)
  }

  function Frames(bs: seq<Bytes>): Bytes {
    if bs == [] then [] else Framed(bs[0]) + Frames(bs[1..])
  }

  function ValueBytes(sha: Sha, v: Value): Bytes
    decreases v
  {
    match v
    case Msg(m) => MessageDigest(sha, m)
    case Blob(b) => b
    case Flag(f) => if f then [1] else [0]
    case Int(n) => PutVarint(n)
    case Uint(u) => PutUvarint(u)
  }

  function ValuesBytes(sha: Sha, vs: seq<Value>): (bs: seq<Bytes>)
    ensures |bs| == |vs|
    decreases vs
  {
    if vs == [] then [] else [ValueBytes(sha, vs[0])] + ValuesBytes(sha, vs[1..])
  }

  function EntryDigests(sha: Sha, es: seq<Entry>): (ds: seq<Digest>)
    ensures |ds| == |es|
    decreases es
  {
    if es == [] then [] else [sha(EntryBytes(sha, es[0]))] + EntryDigests(sha, es[1..])
  }

  function EntryBytes(sha: Sha, e: Entry): Bytes
    decreases e
  {
    Framed(ValueBytes(sha, e.key)) + Framed(ValueBytes(sha, e.value))
  }

  function ContentBytes(sha: Sha, c: Content): Bytes
    decreases c
  {
    match c
    case One(v) => Framed(ValueBytes(sha, v))
    case Many(vs) => PutVarint(|vs|) + Frames(ValuesBytes(sha, vs))
    case Entries(es) => PutUvarint(|es|) + Frames(Sort(DigestLess, EntryDigests(sha, es)))
  }

  function FieldsBytes(sha: Sha, fs: seq<Field>): Bytes
    decreases fs
  {
    if fs == [] then []
    else
      assert fs[0].content < fs[0];
      PutVarint(fs[0].number) + ContentBytes(sha, fs[0].content) + FieldsBytes(sha, fs[1..])
  }

  /** The byte string whose digest stands for the message. */
  function MessageBytes(sha: Sha, m: Message): Bytes
    decreases m, 0
  {
    match m
    case Plain(_, _, fields) => FieldsBytes(sha, fields) + Framed([])
    case Any(_, url, Decoded(inner)) => Framed(url) + MessageDigest(sha, inner)
    case Any(_, url, Raw(value)) => Framed(url) + Framed(value)
  }

  function MessageDigest(sha: Sha, m: Message): Digest
    decreases m, 1
  {
    sha(MessageBytes(sha, m))
  }

  // ---------------------------------------------------------------- equal up to map order

  ghost predicate SameValue(sha: Sha, a: Value, b: Value)
    decreases a
  {
    match (a, b)
    case (Msg(m), Msg(n)) => SameMessage(sha, m, n)
    case (Msg(_), _) => false
    case (_, Msg(_)) => false
    case _ => a == b
  }

  ghost predicate SameValues(sha: Sha, a: seq<Value>, b: seq<Value>)
    decreases a
  {
    |a| == |b| && (a == [] || (SameValue(sha, a[0], b[0]) && SameValues(sha, a[1..], b[1..])))
  }

  ghost predicate SameEntry(sha: Sha, a: Entry, b: Entry)
    decreases a
  {
    SameValue(sha, a.key, b.key) && SameValue(sha, a.value, b.value)
  }

  function Without<T>(s: seq<T>, j: nat): seq<T>
    requires j < |s|
  {
    s[..j] + s[j + 1..]
  }

  /** The entries match one to one, in any order. */
  ghost predicate SameEntries(sha: Sha, a: seq<Entry>, b: seq<Entry>)
    decreases a
  {
    |a| == |b| && (a == [] || exists j :: 0 <= j < |b| && SameEntry(sha, a[0], b[j]) && SameEntries(sha, a[1..], Without(b, j)))
  }

  ghost predicate SameContent(sha: Sha, a: Content, b: Content)
    decreases a
  {
    match (a, b)
    case (One(v), One(w)) => SameValue(sha, v, w)
    case (Many(vs), Many(ws)) => SameValues(sha, vs, ws)
    case (Entries(es), Entries(fs)) => SameEntries(sha, es, fs)
    case _ => false
  }

  ghost predicate SameFields(sha: Sha, a: seq<Field>, b: seq<Field>)
    decreases a
  {
    |a| == |b| && (a == [] ||
      (a[0].number == b[0].number
       && (assert a[0].content < a[0]; SameContent(sha, a[0].content, b[0].content))
       && SameFields(sha, a[1..], b[1..])))
  }

  /** A decodable value and an undecodable one are hashed alike: 31 bytes that complete the digest of the first. */
  predicate Meet(sha: Sha, inner: Message, value: Bytes) {
    |value| == 31 && MessageDigest(sha, inner) == [31] + value
  }

  /**
   * Equal up to the order of map entries at every depth, and up to packed values that meet; addresses
   * are ignored.
   */
  ghost predicate SameMessage(sha: Sha, a: Message, b: Message)
    decreases a
  {
    match (a, b)
    case (Plain(_, t, fs), Plain(_, u, gs)) => t == u && SameFields(sha, fs, gs)
    case (Any(_, u1, Decoded(m)), Any(_, u2, Decoded(n))) => u1 == u2 && SameMessage(sha, m, n)
    case (Any(_, u1, Raw(v)), Any(_, u2, Raw(w))) => u1 == u2 && v == w
    case (Any(_, u1, Decoded(m)), Any(_, u2, Raw(w))) => u1 == u2 && Meet(sha, m, w)
    case (Any(_, u1, Raw(v)), Any(_, u2, Decoded(n))) => u1 == u2 && Meet(sha, n, v)
    case _ => false
  }

  // ---------------------------------------------------------------- conforming messages

  datatype Kind = MessageOf(typ: string) | BlobKind | BoolKind | IntKind | UintKind
  datatype Card = Single | Repeated | MapOf(key: Kind)
  datatype FieldType = FieldType(card: Card, kind: Kind)

  /** The descriptors: a type for every field, and the message type registered for a type URL. */
  datatype Schema = Schema(field: (string, int) -> FieldType, registered: Bytes -> Option<string>)

  const ANY := "google.protobuf.Any"

  predicate TypedValue(s: Schema, k: Kind, v: Value)
    decreases v
  {
    match (k, v)
    case (MessageOf(t), Msg(m)) => Conforms(s, t, m)
    case (BlobKind, Blob(_)) => true
    case (BoolKind, Flag(_)) => true
    case (IntKind, Int(_)) => true
    case (UintKind, Uint(_)) => true
    case _ => false
  }

  predicate TypedValues(s: Schema, k: Kind, vs: seq<Value>)
    decreases vs
  {
    vs == [] || (TypedValue(s, k, vs[0]) && TypedValues(s, k, vs[1..]))
  }

  predicate TypedEntry(s: Schema, key: Kind, k: Kind, e: Entry)
    decreases e
  {
    TypedValue(s, key, e.key) && TypedValue(s, k, e.value)
  }

  predicate TypedEntries(s: Schema, key: Kind, k: Kind, es: seq<Entry>)
    decreases es
  {
    es == [] || (TypedEntry(s, key, k, es[0]) && TypedEntries(s, key, k, es[1..]))
  }

  predicate TypedContent(s: Schema, t: FieldType, c: Content)
    decreases c
  {
    match (t.card, c)
    case (Single, One(v)) => TypedValue(s, t.kind, v)
    case (Repeated, Many(vs)) => TypedValues(s, t.kind, vs)
    case (MapOf(key), Entries(es)) => TypedEntries(s, key, t.kind, es)
    case _ => false
  }

  predicate TypedFields(s: Schema, t: string, fs: seq<Field>)
    decreases fs
  {
    fs == [] ||
    (fs[0].number > 0 && (assert fs[0].content < fs[0]; TypedContent(s, s.field(t, fs[0].number), fs[0].content))
     && TypedFields(s, t, fs[1..]))
  }

  /** The message is of the given type. */
  predicate Conforms(s: Schema, t: string, m: Message)
    decreases m
  {
    match m
    case Plain(_, typ, fields) => typ == t && t != ANY && TypedFields(s, t, fields)
    case Any(_, url, Decoded(inner)) =>
      t == ANY && s.registered(url).Some? && Conforms(s, s.registered(url).value, inner)
    case Any(_, _, Raw(_)) => t == ANY
  }

  // ---------------------------------------------------------------- what is hashed

  ghost function ValueInputs(sha: Sha, v: Value): set<Bytes>
    decreases v
  {
    if v.Msg? then MessageInputs(sha, v.m) else {}
  }

  ghost function ValuesInputs(sha: Sha, vs: seq<Value>): set<Bytes>
    decreases vs
  {
    if vs == [] then {} else ValueInputs(sha, vs[0]) + ValuesInputs(sha, vs[1..])
  }

  ghost function EntryInputs(sha: Sha, e: Entry): set<Bytes>
    decreases e
  {
    {EntryBytes(sha, e)} + ValueInputs(sha, e.key) + ValueInputs(sha, e.value)
  }

  ghost function EntriesInputs(sha: Sha, es: seq<Entry>): set<Bytes>
    decreases es
  {
    if es == [] then {} else EntryInputs(sha, es[0]) + EntriesInputs(sha, es[1..])
  }

  ghost function ContentInputs(sha: Sha, c: Content): set<Bytes>
    decreases c
  {
    match c
    case One(v) => ValueInputs(sha, v)
    case Many(vs) => ValuesInputs(sha, vs)
    case Entries(es) => EntriesInputs(sha, es)
  }

  ghost function FieldsInputs(sha: Sha, fs: seq<Field>): set<Bytes>
    decreases fs
  {
    if fs == [] then {}
    else
      assert fs[0].content < fs[0];
      ContentInputs(sha, fs[0].content) + FieldsInputs(sha, fs[1..])
  }

  /** Every byte string handed to SHA-256 while the message is hashed. */
  ghost function MessageInputs(sha: Sha, m: Message): set<Bytes>
    decreases m
  {
    {MessageBytes(sha, m)} +
    match m
    case Plain(_, _, fields) => FieldsInputs(sha, fields)
    case Any(_, _, Decoded(inner)) => MessageInputs(sha, inner)
    case Any(_, _, Raw(_)) => {}
  }

  ghost predicate CollisionFree(sha: Sha, inputs: set<Bytes>) {
    forall x, y :: x in inputs && y in inputs && sha(x) == sha(y) ==> x == y
  }

  // ---------------------------------------------------------------- parsing back

  lemma {:induction false} FramesParse(a: seq<Bytes>, b: seq<Bytes>, x: Bytes, y: Bytes)
    requires |a| == |b| && Frames(a) + x == Frames(b) + y
    ensures a == b && x == y
  {
    if a != [] {
      assert Frames(a) + x == Framed(a[0]) + (Frames(a[1..]) + x);
      assert Frames(b) + y == Framed(b[0]) + (Frames(b[1..]) + y);
      FramedPrefixFree(a[0], b[0], Frames(a[1..]) + x, Frames(b[1..]) + y);
      FramesParse(a[1..], b[1..], x, y);
    } else {
      assert Frames(a) + x == x && Frames(b) + y == y;
    }
  }

  lemma DigestLessTotal()
    ensures TotalOrder(DigestLess)
  {
    forall x: Digest, y: Digest
      ensures DigestLess(x, y) || DigestLess(y, x) || x == y
      ensures DigestLess(x, y) ==> !DigestLess(y, x)
    {
      LexTotal(x, y);
      if DigestLess(x, y) {
        LexAsymmetric(x, y);
      }
    }
    forall x: Digest, y: Digest, z: Digest | DigestLess(x, z)
      ensures DigestLess(x, y) || DigestLess(y, z)
    {
      LexTotal(x, y);
      if LexLess(y, x) {
        LexTransitive(y, x, z);
      }
    }
  }

  /** Sorting forgets exactly the order. */
  lemma SortedDigests(a: seq<Digest>, b: seq<Digest>)
    ensures Sort(DigestLess, a) == Sort(DigestLess, b) <==> multiset(a) == multiset(b)
    ensures |Sort(DigestLess, a)| == |a|
  {
    DigestLessTotal();
    SortSorts(DigestLess, a);
    SortSorts(DigestLess, b);
    SameElements(Sort(DigestLess, a), a);
    if multiset(a) == multiset(b) {
      SortedUnique(DigestLess, Sort(DigestLess, a), Sort(DigestLess, b));
    }
  }

  lemma {:induction false} EntryDigestAt(sha: Sha, es: seq<Entry>, j: nat)
    requires j < |es|
    ensures EntryDigests(sha, es)[j] == sha(EntryBytes(sha, es[j]))
    ensures EntryDigests(sha, Without(es, j)) == Without(EntryDigests(sha, es), j)
    decreases |es|
  {
    var ds := EntryDigests(sha, es);
    if j == 0 {
      assert Without(es, 0) == es[1..] && Without(ds, 0) == ds[1..];
    } else {
      EntryDigestAt(sha, es[1..], j - 1);
      assert Without(es, j) == [es[0]] + Without(es[1..], j - 1);
      assert Without(es, j)[1..] == Without(es[1..], j - 1);
      assert Without(ds, j) == [ds[0]] + Without(ds[1..], j - 1);
    }
  }

  lemma WithoutMultiset<T>(s: seq<T>, j: nat)
    requires j < |s|
    ensures multiset(Without(s, j)) == multiset(s) - multiset{s[j]}
  {
    assert s == s[..j] + [s[j]] + s[j + 1..];
  }

  /** Two packed values with one URL give the same bytes although only one decodes: exactly when. */
  lemma AnyBytesMeet(sha: Sha, r1: int, r2: int, url: Bytes, inner: Message, value: Bytes)
    ensures MessageBytes(sha, Any(r1, url, Decoded(inner))) == MessageBytes(sha, Any(r2, url, Raw(value)))
      <==> Meet(sha, inner, value)
  {
    var d := MessageDigest(sha, inner);
    assert (Framed(url) + d)[|Framed(url)|..] == d;
    assert (Framed(url) + Framed(value))[|Framed(url)|..] == Framed(value);
    if |value| >= 128 {
      assert |Framed(value)| > 32;
    } else {
      assert Framed(value) == [|value|] + value;
    }
  }

  /** Two different packed values with one digest: wherever a digest starts with 31, cut it off. */
  lemma DifferentAnysMeet(sha: Sha, r1: int, r2: int, url: Bytes, inner: Message)
    requires MessageDigest(sha, inner)[0] == 31
    ensures
      var a, b := Any(r1, url, Decoded(inner)), Any(r2, url, Raw(MessageDigest(sha, inner)[1..]));
      a.packed != b.packed && MessageDigest(sha, a) == MessageDigest(sha, b)
  {
    var d := MessageDigest(sha, inner);
    assert d == [31] + d[1..];
    AnyBytesMeet(sha, r1, r2, url, inner, d[1..]);
  }

  // ---------------------------------------------------------------- equal digests, equal messages

  lemma {:induction false} ValueDetermined(sha: Sha, s: Schema, all: set<Bytes>, k: Kind, a: Value, b: Value)
    requires CollisionFree(sha, all) && ValueInputs(sha, a) <= all && ValueInputs(sha, b) <= all
    requires TypedValue(s, k, a) && TypedValue(s, k, b)
    requires ValueBytes(sha, a) == ValueBytes(sha, b)
    ensures SameValue(sha, a, b)
    decreases a
  {
    hide CollisionFree;
    match k {
      case MessageOf(t) => MessageDetermined(sha, s, all, t, a.m, b.m);
      case BlobKind =>
      case BoolKind =>
      case IntKind => VarintPrefixFree(a.n, b.n, [], []);
      case UintKind => UvarintPrefixFree(a.u, b.u, [], []);
    }
  }

  lemma {:induction false} ValuesDetermined(sha: Sha, s: Schema, all: set<Bytes>, k: Kind, a: seq<Value>, b: seq<Value>)
    requires CollisionFree(sha, all) && ValuesInputs(sha, a) <= all && ValuesInputs(sha, b) <= all
    requires TypedValues(s, k, a) && TypedValues(s, k, b)
    requires ValuesBytes(sha, a) == ValuesBytes(sha, b)
    ensures SameValues(sha, a, b)
    decreases a
  {
    hide CollisionFree;
    assert |a| == |ValuesBytes(sha, a)| == |b|;
    if a != [] {
      assert ValuesBytes(sha, a)[0] == ValuesBytes(sha, b)[0];
      assert ValuesBytes(sha, a)[1..] == ValuesBytes(sha, b)[1..];
      ValueDetermined(sha, s, all, k, a[0], b[0]);
      ValuesDetermined(sha, s, all, k, a[1..], b[1..]);
    }
  }

  lemma {:induction false} EntryDetermined(sha: Sha, s: Schema, all: set<Bytes>, key: Kind, k: Kind, a: Entry, b: Entry)
    requires CollisionFree(sha, all) && EntryInputs(sha, a) <= all && EntryInputs(sha, b) <= all
    requires TypedEntry(s, key, k, a) && TypedEntry(s, key, k, b)
    requires sha(EntryBytes(sha, a)) == sha(EntryBytes(sha, b))
    ensures SameEntry(sha, a, b)
    decreases a
  {
    assert EntryBytes(sha, a) in all && EntryBytes(sha, b) in all;
    assert EntryBytes(sha, a) == EntryBytes(sha, b);
    FramedPrefixFree(ValueBytes(sha, a.key), ValueBytes(sha, b.key), Framed(ValueBytes(sha, a.value)), Framed(ValueBytes(sha, b.value)));
    assert Framed(ValueBytes(sha, a.value)) + [] == Framed(ValueBytes(sha, b.value)) + [];
    FramedPrefixFree(ValueBytes(sha, a.value), ValueBytes(sha, b.value), [], []);
    ValueDetermined(sha, s, all, key, a.key, b.key);
    ValueDetermined(sha, s, all, k, a.value, b.value);
  }

  lemma {:induction false} EntryWithin(sha: Sha, s: Schema, key: Kind, k: Kind, es: seq<Entry>, j: nat)
    requires j < |es| && TypedEntries(s, key, k, es)
    ensures TypedEntry(s, key, k, es[j]) && EntryInputs(sha, es[j]) <= EntriesInputs(sha, es)
    ensures TypedEntries(s, key, k, Without(es, j)) && EntriesInputs(sha, Without(es, j)) <= EntriesInputs(sha, es)
    decreases |es|
  {
    if j == 0 {
      assert Without(es, 0) == es[1..];
    } else {
      EntryWithin(sha, s, key, k, es[1..], j - 1);
      assert Without(es, j) == [es[0]] + Without(es[1..], j - 1);
      assert Without(es, j)[1..] == Without(es[1..], j - 1);
    }
  }

  /** Equal multisets: the head of one list stands somewhere in the other, and the rest match again. */
  lemma HeadMatches<T>(a: seq<T>, b: seq<T>) returns (j: nat)
    requires a != [] && multiset(a) == multiset(b)
    ensures j < |b| && b[j] == a[0] && multiset(a[1..]) == multiset(Without(b, j))
  {
    SameElements(a, b);
    assert a[0] in b;
    j :| 0 <= j < |b| && b[j] == a[0];
    WithoutMultiset(b, j);
    assert a == [a[0]] + a[1..];
  }

  /** The converse: putting equal heads back keeps the multisets equal. */
  lemma HeadReturns<T>(a: seq<T>, b: seq<T>, j: nat)
    requires a != [] && j < |b| && b[j] == a[0] && multiset(a[1..]) == multiset(Without(b, j))
    ensures multiset(a) == multiset(b)
  {
    WithoutMultiset(b, j);
    assert b[j] in multiset(b);
    assert a == [a[0]] + a[1..];
  }

  lemma {:induction false} EntriesDetermined(sha: Sha, s: Schema, all: set<Bytes>, key: Kind, k: Kind, a: seq<Entry>, b: seq<Entry>)
    requires CollisionFree(sha, all) && EntriesInputs(sha, a) <= all && EntriesInputs(sha, b) <= all
    requires TypedEntries(s, key, k, a) && TypedEntries(s, key, k, b)
    requires multiset(EntryDigests(sha, a)) == multiset(EntryDigests(sha, b))
    ensures SameEntries(sha, a, b)
    decreases a
  {
    hide CollisionFree;
    hide EntryInputs, SameEntry, TypedEntry, EntryBytes, Without;
    var da, db := EntryDigests(sha, a), EntryDigests(sha, b);
    SameElements(da, db);
    if a != [] {
      var j := HeadMatches(da, db);
      EntryDigestAt(sha, b, j);
      EntryWithin(sha, s, key, k, b, j);
      EntryDetermined(sha, s, all, key, k, a[0], b[j]);
      EntriesDetermined(sha, s, all, key, k, a[1..], Without(b, j));
      WithoutLength(b, j);
    }
  }

  lemma WithoutLength<T>(s: seq<T>, j: nat)
    requires j < |s|
    ensures |Without(s, j)| == |s| - 1
  {
  }

  lemma Assoc(a: Bytes, b: Bytes, c: Bytes)
    ensures a + b + c == a + (b + c)
  {
  }

  lemma {:induction false} ContentDetermined(sha: Sha, s: Schema, all: set<Bytes>, t: FieldType, a: Content, b: Content, x: Bytes, y: Bytes)
    requires CollisionFree(sha, all) && ContentInputs(sha, a) <= all && ContentInputs(sha, b) <= all
    requires TypedContent(s, t, a) && TypedContent(s, t, b)
    requires ContentBytes(sha, a) + x == ContentBytes(sha, b) + y
    ensures SameContent(sha, a, b) && x == y
    decreases a
  {
    hide CollisionFree, Framed, Frames, PutVarint, PutUvarint, Sort;
    match t.card {
      case Single =>
        FramedPrefixFree(ValueBytes(sha, a.value), ValueBytes(sha, b.value), x, y);
        ValueDetermined(sha, s, all, t.kind, a.value, b.value);
      case Repeated =>
        var va, vb := ValuesBytes(sha, a.values), ValuesBytes(sha, b.values);
        Assoc(PutVarint(|a.values|), Frames(va), x);
        Assoc(PutVarint(|b.values|), Frames(vb), y);
        VarintPrefixFree(|a.values|, |b.values|, Frames(va) + x, Frames(vb) + y);
        FramesParse(va, vb, x, y);
        ValuesDetermined(sha, s, all, t.kind, a.values, b.values);
      case MapOf(key) =>
        var da, db := EntryDigests(sha, a.entries), EntryDigests(sha, b.entries);
        var sa, sb := Sort(DigestLess, da), Sort(DigestLess, db);
        Assoc(PutUvarint(|a.entries|), Frames(sa), x);
        Assoc(PutUvarint(|b.entries|), Frames(sb), y);
        UvarintPrefixFree(|a.entries|, |b.entries|, Frames(sa) + x, Frames(sb) + y);
        SortedDigests(da, db);
        SortedDigests(db, da);
        FramesParse(sa, sb, x, y);
        EntriesDetermined(sha, s, all, key, t.kind, a.entries, b.entries);
    }
  }

  lemma {:induction false} FieldsDetermined(sha: Sha, s: Schema, all: set<Bytes>, t: string, a: seq<Field>, b: seq<Field>)
    requires CollisionFree(sha, all) && FieldsInputs(sha, a) <= all && FieldsInputs(sha, b) <= all
    requires TypedFields(s, t, a) && TypedFields(s, t, b)
    requires FieldsBytes(sha, a) + Framed([]) == FieldsBytes(sha, b) + Framed([])
    ensures SameFields(sha, a, b)
    decreases a
  {
    hide CollisionFree;
    var end := Framed([]);
    assert end == [0];
    if a == [] || b == [] {
      EndsTogether(sha, s, t, a, b);
    } else {
      var ra, rb := FieldsBytes(sha, a[1..]) + end, FieldsBytes(sha, b[1..]) + end;
      var ca, cb := ContentBytes(sha, a[0].content), ContentBytes(sha, b[0].content);
      assert FieldsBytes(sha, a) + end == PutVarint(a[0].number) + (ca + ra);
      assert FieldsBytes(sha, b) + end == PutVarint(b[0].number) + (cb + rb);
      VarintPrefixFree(a[0].number, b[0].number, ca + ra, cb + rb);
      assert a[0].content < a[0];
      ContentDetermined(sha, s, all, s.field(t, a[0].number), a[0].content, b[0].content, ra, rb);
      FieldsDetermined(sha, s, all, t, a[1..], b[1..]);
    }
  }

  /** A field number is never read as the empty block of unknown fields. */
  lemma EndsTogether(sha: Sha, s: Schema, t: string, a: seq<Field>, b: seq<Field>)
    requires TypedFields(s, t, a) && TypedFields(s, t, b)
    requires FieldsBytes(sha, a) + Framed([]) == FieldsBytes(sha, b) + Framed([])
    requires a == [] || b == []
    ensures a == b
  {
    var end := Framed([]);
    assert end == [0];
  }

  /** Equal digests: the messages are the same up to the order of map entries. */
  lemma {:induction false} MessageDetermined(sha: Sha, s: Schema, all: set<Bytes>, t: string, a: Message, b: Message)
    requires CollisionFree(sha, all) && MessageInputs(sha, a) <= all && MessageInputs(sha, b) <= all
    requires Conforms(s, t, a) && Conforms(s, t, b)
    requires MessageDigest(sha, a) == MessageDigest(sha, b)
    ensures SameMessage(sha, a, b)
    decreases a
  {
    assert MessageBytes(sha, a) in all && MessageBytes(sha, b) in all;
    assert MessageBytes(sha, a) == MessageBytes(sha, b);
    hide CollisionFree;
    match (a, b) {
      case (Plain(_, _, fs), Plain(_, _, gs)) =>
        FieldsDetermined(sha, s, all, t, fs, gs);
      case (Any(r1, u1, p), Any(r2, u2, q)) =>
        var x := if p.Decoded? then MessageDigest(sha, p.inner) else Framed(p.value);
        var y := if q.Decoded? then MessageDigest(sha, q.inner) else Framed(q.value);
        FramedPrefixFree(u1, u2, x, y);
        AnyDetermined(sha, s, all, r1, r2, u1, p, q);
    }
  }

  lemma {:induction false} AnyDetermined(sha: Sha, s: Schema, all: set<Bytes>, r1: int, r2: int, url: Bytes, p: Packed, q: Packed)
    requires CollisionFree(sha, all) && MessageInputs(sha, Any(r1, url, p)) <= all && MessageInputs(sha, Any(r2, url, q)) <= all
    requires Conforms(s, ANY, Any(r1, url, p)) && Conforms(s, ANY, Any(r2, url, q))
    requires MessageBytes(sha, Any(r1, url, p)) == MessageBytes(sha, Any(r2, url, q))
    ensures SameMessage(sha, Any(r1, url, p), Any(r2, url, q))
    decreases p
  {
    hide CollisionFree;
    match (p, q) {
      case (Decoded(m), Decoded(n)) =>
        assert (Framed(url) + MessageDigest(sha, m))[|Framed(url)|..] == MessageDigest(sha, m);
        assert (Framed(url) + MessageDigest(sha, n))[|Framed(url)|..] == MessageDigest(sha, n);
        MessageDetermined(sha, s, all, s.registered(url).value, m, n);
      case (Raw(v), Raw(w)) =>
        FramedPrefixFree(url, url, Framed(v), Framed(w));
        FramedPrefixFree(v, w, [], []);
      case (Decoded(m), Raw(w)) => AnyBytesMeet(sha, r1, r2, url, m, w);
      case (Raw(v), Decoded(n)) => AnyBytesMeet(sha, r2, r1, url, n, v);
    }
  }

  // ---------------------------------------------------------------- same messages, equal digests

  lemma {:induction false} SameValueBytes(sha: Sha, a: Value, b: Value)
    requires SameValue(sha, a, b)
    ensures ValueBytes(sha, a) == ValueBytes(sha, b)
    decreases a
  {
    if a.Msg? {
      SameMessageDigest(sha, a.m, b.m);
    }
  }

  lemma {:induction false} SameValuesBytes(sha: Sha, a: seq<Value>, b: seq<Value>)
    requires SameValues(sha, a, b)
    ensures ValuesBytes(sha, a) == ValuesBytes(sha, b)
    decreases a
  {
    if a != [] {
      SameValueBytes(sha, a[0], b[0]);
      SameValuesBytes(sha, a[1..], b[1..]);
    }
  }

  lemma {:induction false} SameEntryBytes(sha: Sha, a: Entry, b: Entry)
    requires SameEntry(sha, a, b)
    ensures EntryBytes(sha, a) == EntryBytes(sha, b)
    decreases a
  {
    SameValueBytes(sha, a.key, b.key);
    SameValueBytes(sha, a.value, b.value);
  }

  lemma {:induction false} SameEntriesDigests(sha: Sha, a: seq<Entry>, b: seq<Entry>)
    requires SameEntries(sha, a, b)
    ensures multiset(EntryDigests(sha, a)) == multiset(EntryDigests(sha, b))
    decreases a
  {
    hide Without, SameEntry, EntryBytes;
    if a != [] {
      var j :| 0 <= j < |b| && SameEntry(sha, a[0], b[j]) && SameEntries(sha, a[1..], Without(b, j));
      SameEntryBytes(sha, a[0], b[j]);
      SameEntriesDigests(sha, a[1..], Without(b, j));
      EntryDigestAt(sha, b, j);
      HeadReturns(EntryDigests(sha, a), EntryDigests(sha, b), j);
    }
  }

  lemma {:induction false} SameContentBytes(sha: Sha, a: Content, b: Content)
    requires SameContent(sha, a, b)
    ensures ContentBytes(sha, a) == ContentBytes(sha, b)
    decreases a
  {
    match a {
      case One(v) => SameValueBytes(sha, v, b.value);
      case Many(vs) => SameValuesBytes(sha, vs, b.values);
      case Entries(es) =>
        SameEntriesDigests(sha, es, b.entries);
        SortedDigests(EntryDigests(sha, es), EntryDigests(sha, b.entries));
    }
  }

  lemma {:induction false} SameFieldsBytes(sha: Sha, a: seq<Field>, b: seq<Field>)
    requires SameFields(sha, a, b)
    ensures FieldsBytes(sha, a) == FieldsBytes(sha, b)
    decreases a
  {
    if a != [] {
      assert a[0].content < a[0];
      SameContentBytes(sha, a[0].content, b[0].content);
      SameFieldsBytes(sha, a[1..], b[1..]);
    }
  }

  /** The order of map entries, at any depth, does not show in the digest. */
  lemma {:induction false} SameMessageDigest(sha: Sha, a: Message, b: Message)
    requires SameMessage(sha, a, b)
    ensures MessageDigest(sha, a) == MessageDigest(sha, b)
    decreases a
  {
    match (a, b) {
      case (Plain(_, _, fs), Plain(_, _, gs)) => SameFieldsBytes(sha, fs, gs);
      case (Any(_, _, Decoded(m)), Any(_, _, Decoded(n))) => SameMessageDigest(sha, m, n);
      case (Any(_, _, Raw(_)), Any(_, _, Raw(_))) =>
      case (Any(r1, u, Decoded(m)), Any(r2, _, Raw(w))) => AnyBytesMeet(sha, r1, r2, u, m, w);
      case (Any(r1, u, Raw(v)), Any(r2, _, Decoded(n))) => AnyBytesMeet(sha, r2, r1, u, n, v);
    }
  }

  /** A message's digest and the message determine each other, up to the order of map entries. */
  lemma DigestIffSame(sha: Sha, s: Schema, t: string, a: Message, b: Message)
    requires CollisionFree(sha, MessageInputs(sha, a) + MessageInputs(sha, b))
    requires Conforms(s, t, a) && Conforms(s, t, b)
    ensures MessageDigest(sha, a) == MessageDigest(sha, b) <==> SameMessage(sha, a, b)
  {
    if MessageDigest(sha, a) == MessageDigest(sha, b) {
      MessageDetermined(sha, s, MessageInputs(sha, a) + MessageInputs(sha, b), t, a, b);
    }
    if SameMessage(sha, a, b) {
      SameMessageDigest(sha, a, b);
    }
  }

  // ---------------------------------------------------------------- a node's resources

  /** Resources by type URL. */
  type Resources = map<Bytes, seq<Message>>

  function Digests(sha: Sha, ms: seq<Message>): (ds: seq<Digest>)
    ensures |ds| == |ms|
    ensures forall i :: 0 <= i < |ms| ==> ds[i] == MessageDigest(sha, ms[i])
  {
    seq(|ms|, i requires 0 <= i < |ms| => MessageDigest(sha, ms[i]))
  }

  function Concat(ds: seq<Digest>): Bytes {
    if ds == [] then [] else ds[0] + Concat(ds[1..])
  }

  predicate BytesLess(a: Bytes, b: Bytes) {
    LexLess(a, b)
  }

  /** One resource type's part of the hashed bytes. */
  function TypeBytes(sha: Sha, k: Bytes, ms: seq<Message>): Bytes {
    Framed(k) + PutUvarint(|ms|) + Concat(Sort(DigestLess, Digests(sha, ms)))
  }

  function TypesBytes(sha: Sha, keys: seq<Bytes>, res: Resources): Bytes
    requires forall k :: k in keys ==> k in res
  {
    if keys == [] then [] else TypeBytes(sha, keys[0], res[keys[0]]) + TypesBytes(sha, keys[1..], res)
  }

  ghost function Listed(keys: set<Bytes>): (l: seq<Bytes>)
    ensures multiset(l) == multiset(keys)
  {
    if keys == {} then []
    else
      var k :| k in keys;
      assert multiset(keys) == multiset{k} + multiset(keys - {k});
      [k] + Listed(keys - {k})
  }

  ghost function SortedKeys(keys: set<Bytes>): seq<Bytes> {
    Sort(BytesLess, Listed(keys))
  }

  lemma BytesLessTotal()
    ensures TotalOrder(BytesLess)
  {
    forall x: Bytes, y: Bytes
      ensures BytesLess(x, y) || BytesLess(y, x) || x == y
      ensures BytesLess(x, y) ==> !BytesLess(y, x)
    {
      LexTotal(x, y);
      if BytesLess(x, y) {
        LexAsymmetric(x, y);
      }
    }
    forall x: Bytes, y: Bytes, z: Bytes | BytesLess(x, z)
      ensures BytesLess(x, y) || BytesLess(y, z)
    {
      LexTotal(x, y);
      if LexLess(y, x) {
        LexTransitive(y, x, z);
      }
    }
  }

  lemma SortedKeysList(keys: set<Bytes>)
    ensures Sorted(BytesLess, SortedKeys(keys)) && multiset(SortedKeys(keys)) == multiset(keys)
    ensures forall k :: k in SortedKeys(keys) <==> k in keys
  {
    BytesLessTotal();
    SortSorts(BytesLess, Listed(keys));
    forall k
      ensures k in SortedKeys(keys) <==> k in keys
    {
      assert k in SortedKeys(keys) <==> k in multiset(SortedKeys(keys));
      assert k in keys <==> k in multiset(keys);
    }
  }

  /** The bytes a node's version is the digest of. */
  ghost function ResourcesBytes(sha: Sha, res: Resources): Bytes {
    SortedKeysList(res.Keys);
    TypesBytes(sha, SortedKeys(res.Keys), res)
  }

  /** The messages of a type match one to one, in any order. */
  ghost predicate SameMessages(sha: Sha, a: seq<Message>, b: seq<Message>)
    decreases |a|
  {
    |a| == |b| && (a == [] || exists j :: 0 <= j < |b| && SameMessage(sha, a[0], b[j]) && SameMessages(sha, a[1..], Without(b, j)))
  }

  ghost predicate SameResources(sha: Sha, a: Resources, b: Resources) {
    a.Keys == b.Keys && forall k :: k in a.Keys ==> SameMessages(sha, a[k], b[k])
  }

  ghost predicate ConformingList(s: Schema, t: string, ms: seq<Message>) {
    forall m :: m in ms ==> Conforms(s, t, m)
  }

  /** The resources under a type URL are messages of the type registered for it. */
  ghost predicate ConformingResources(s: Schema, res: Resources) {
    forall k :: k in res ==> s.registered(k).Some? && ConformingList(s, s.registered(k).value, res[k])
  }

  ghost function ResourceInputs(sha: Sha, res: Resources): set<Bytes> {
    set k, m, x | k in res && m in res[k] && x in MessageInputs(sha, m) :: x
  }

  lemma {:induction false} ConcatParse(a: seq<Digest>, b: seq<Digest>, x: Bytes, y: Bytes)
    requires |a| == |b| && Concat(a) + x == Concat(b) + y
    ensures a == b && x == y
  {
    if a != [] {
      assert Concat(a) + x == a[0] + (Concat(a[1..]) + x);
      assert Concat(b) + y == b[0] + (Concat(b[1..]) + y);
      assert (a[0] + (Concat(a[1..]) + x))[..32] == a[0] && (b[0] + (Concat(b[1..]) + y))[..32] == b[0];
      assert (a[0] + (Concat(a[1..]) + x))[32..] == Concat(a[1..]) + x;
      assert (b[0] + (Concat(b[1..]) + y))[32..] == Concat(b[1..]) + y;
      ConcatParse(a[1..], b[1..], x, y);
    } else {
      assert Concat(a) + x == x && Concat(b) + y == y;
    }
  }

  lemma TypeParse(sha: Sha, ka: Bytes, ma: seq<Message>, kb: Bytes, mb: seq<Message>, x: Bytes, y: Bytes)
    requires TypeBytes(sha, ka, ma) + x == TypeBytes(sha, kb, mb) + y
    ensures ka == kb && multiset(Digests(sha, ma)) == multiset(Digests(sha, mb)) && x == y
  {
    hide Framed, PutUvarint, Concat, Sort, Digests;
    var sa, sb := Sort(DigestLess, Digests(sha, ma)), Sort(DigestLess, Digests(sha, mb));
    SortedDigests(Digests(sha, ma), Digests(sha, mb));
    SortedDigests(Digests(sha, mb), Digests(sha, ma));
    Assoc(Framed(ka) + PutUvarint(|ma|), Concat(sa), x);
    Assoc(Framed(ka), PutUvarint(|ma|), Concat(sa) + x);
    Assoc(Framed(kb) + PutUvarint(|mb|), Concat(sb), y);
    Assoc(Framed(kb), PutUvarint(|mb|), Concat(sb) + y);
    FramedPrefixFree(ka, kb, PutUvarint(|ma|) + (Concat(sa) + x), PutUvarint(|mb|) + (Concat(sb) + y));
    UvarintPrefixFree(|ma|, |mb|, Concat(sa) + x, Concat(sb) + y);
    ConcatParse(sa, sb, x, y);
  }

  lemma {:induction false} TypesParse(sha: Sha, ka: seq<Bytes>, a: Resources, kb: seq<Bytes>, b: Resources)
    requires (forall k :: k in ka ==> k in a) && (forall k :: k in kb ==> k in b)
    requires TypesBytes(sha, ka, a) == TypesBytes(sha, kb, b)
    ensures ka == kb
    ensures forall k :: k in ka ==> SameDigests(sha, a[k], b[k])
    decreases |ka|
  {
    hide TypeBytes, Digests;
    if ka != [] && kb != [] {
      TypeParse(sha, ka[0], a[ka[0]], kb[0], b[kb[0]], TypesBytes(sha, ka[1..], a), TypesBytes(sha, kb[1..], b));
      TypesParse(sha, ka[1..], a, kb[1..], b);
      assert ka == [ka[0]] + ka[1..] && kb == [kb[0]] + kb[1..];
    } else if ka != [] {
      TypeBytesNonEmpty(sha, ka[0], a[ka[0]]);
    } else if kb != [] {
      TypeBytesNonEmpty(sha, kb[0], b[kb[0]]);
    }
  }

  lemma TypeBytesNonEmpty(sha: Sha, k: Bytes, ms: seq<Message>)
    ensures TypeBytes(sha, k, ms) != []
  {
    assert Framed(k) != [];
  }

  lemma DigestsWithout(sha: Sha, ms: seq<Message>, j: nat)
    requires j < |ms|
    ensures Digests(sha, Without(ms, j)) == Without(Digests(sha, ms), j)
  {
  }

  lemma {:induction false} MessagesDetermined(sha: Sha, s: Schema, all: set<Bytes>, t: string, a: seq<Message>, b: seq<Message>)
    requires CollisionFree(sha, all)
    requires forall m, x :: (m in a || m in b) && x in MessageInputs(sha, m) ==> x in all
    requires ConformingList(s, t, a) && ConformingList(s, t, b)
    requires SameDigests(sha, a, b)
    ensures SameMessages(sha, a, b)
    decreases |a|
  {
    hide CollisionFree, MessageInputs, Conforms, MessageDigest, Without, SameMessage;
    var da, db := Digests(sha, a), Digests(sha, b);
    SameElements(da, db);
    if a != [] {
      assert Digests(sha, a[1..]) == da[1..];
      var j := HeadMatches(da, db);
      DigestsWithout(sha, b, j);
      WithoutLength(b, j);
      WithoutMembers(b, j);
      MessagesDetermined(sha, s, all, t, a[1..], Without(b, j));
      MessageDetermined(sha, s, all, t, a[0], b[j]);
    }
  }

  lemma WithoutMembers<T>(s: seq<T>, j: nat)
    requires j < |s|
    ensures forall x :: x in Without(s, j) ==> x in s
  {
  }

  lemma {:induction false} SameMessagesDigests(sha: Sha, a: seq<Message>, b: seq<Message>)
    requires SameMessages(sha, a, b)
    ensures SameDigests(sha, a, b)
    decreases |a|
  {
    hide MessageDigest, Without, SameMessage;
    if a != [] {
      var da, db := Digests(sha, a), Digests(sha, b);
      assert Digests(sha, a[1..]) == da[1..];
      var j :| 0 <= j < |b| && SameMessage(sha, a[0], b[j]) && SameMessages(sha, a[1..], Without(b, j));
      DigestsWithout(sha, b, j);
      SameMessagesDigests(sha, a[1..], Without(b, j));
      SameMessageDigest(sha, a[0], b[j]);
      HeadReturns(da, db, j);
    }
  }

  /**
   * The hashed bytes of two resource maps are equal exactly when the maps are, up to the order of
   * resources within a type and of map entries at every depth; repeated fields keep their order.
   */
  lemma ResourcesIffSame(sha: Sha, s: Schema, a: Resources, b: Resources)
    requires ConformingResources(s, a) && ConformingResources(s, b)
    requires CollisionFree(sha, ResourceInputs(sha, a) + ResourceInputs(sha, b))
    ensures ResourcesBytes(sha, a) == ResourcesBytes(sha, b) <==> SameResources(sha, a, b)
  {
    hide ResourceInputs, ConformingResources, SameMessages, Digests, ResourcesBytes, CollisionFree;
    ResourcesParse(sha, a, b);
    forall k | k in a && k in b
      ensures SameDigests(sha, a[k], b[k]) <==> SameMessages(sha, a[k], b[k])
    {
      TypeDetermined(sha, s, a, b, k);
    }
  }

  ghost predicate SameDigests(sha: Sha, a: seq<Message>, b: seq<Message>) {
    multiset(Digests(sha, a)) == multiset(Digests(sha, b))
  }

  /** The hashed bytes parse back into the sorted type URLs and the digests under each. */
  lemma ResourcesParse(sha: Sha, a: Resources, b: Resources)
    ensures ResourcesBytes(sha, a) == ResourcesBytes(sha, b) <==>
      a.Keys == b.Keys && forall k :: k in a.Keys ==> SameDigests(sha, a[k], b[k])
  {
    hide Digests, TypesBytes, SortedKeys;
    var ka, kb := SortedKeys(a.Keys), SortedKeys(b.Keys);
    SortedKeysList(a.Keys);
    SortedKeysList(b.Keys);
    if ResourcesBytes(sha, a) == ResourcesBytes(sha, b) {
      TypesParse(sha, ka, a, kb, b);
      assert forall k :: k in a.Keys <==> k in b.Keys;
    }
    if a.Keys == b.Keys && forall k :: k in a.Keys ==> SameDigests(sha, a[k], b[k]) {
      SameTypesBytes(sha, ka, a, b);
    }
  }

  lemma TypeDetermined(sha: Sha, s: Schema, a: Resources, b: Resources, k: Bytes)
    requires ConformingResources(s, a) && ConformingResources(s, b) && k in a && k in b
    requires CollisionFree(sha, ResourceInputs(sha, a) + ResourceInputs(sha, b))
    ensures SameDigests(sha, a[k], b[k]) <==> SameMessages(sha, a[k], b[k])
  {
    hide CollisionFree, MessageInputs, ConformingList, SameMessages, Digests;
    if SameDigests(sha, a[k], b[k]) {
      MessagesDetermined(sha, s, ResourceInputs(sha, a) + ResourceInputs(sha, b), s.registered(k).value, a[k], b[k]);
    }
    if SameMessages(sha, a[k], b[k]) {
      SameMessagesDigests(sha, a[k], b[k]);
    }
  }

  lemma {:induction false} SameTypesBytes(sha: Sha, keys: seq<Bytes>, a: Resources, b: Resources)
    requires forall k :: k in keys ==> k in a && k in b && SameDigests(sha, a[k], b[k])
    ensures TypesBytes(sha, keys, a) == TypesBytes(sha, keys, b)
  {
    if keys != [] {
      var k := keys[0];
      SortedDigests(Digests(sha, a[k]), Digests(sha, b[k]));
      SameElements(Digests(sha, a[k]), Digests(sha, b[k]));
      SameTypesBytes(sha, keys[1..], a, b);
    }
  }
}
