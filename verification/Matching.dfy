/** pkg/xds/fcm: when can two filter chain matchers share one Envoy listener? */
module Matching {
  import opened Prelude

  /** The three verdicts of a comparison; Apart is called None in the source. */
  datatype Verdict = Apart | Shadow | Duplicate

  // ---------------------------------------------------------------- address ranges

  datatype Family = V4 | V6

  function Width(f: Family): nat {
    match f
    case V4 => 32
    case V6 => 128
  }

  function Pow2(n: nat): (p: nat)
    ensures p >= 1
  {
    if n == 0 then 1 else 2 * Pow2(n - 1)
  }

  /** One entry of a CIDR list: the parsed address, absent when it does not parse, and prefix_len. */
  datatype CidrRange = CidrRange(address: Option<Address>, prefixLen: nat)

  datatype RawAddress = RawAddress(family: Family, bits: nat)
  type Address = a: RawAddress | a.bits < Pow2(Width(a.family)) witness RawAddress(V4, 0)

  /** A compiled range: the address masked to its prefix. */
  datatype Prefix = Prefix(family: Family, bits: nat, len: nat)

  function Min(a: nat, b: nat): nat { if a < b then a else b }

  function HostBits(a: Address, prefixLen: nat): nat {
    Width(a.family) - Min(prefixLen, Width(a.family))
  }

  /** The start of x's block of addresses. */
  function BlockStart(x: nat, block: nat): nat
    requires block > 0
  {
    x / block * block
  }

  /** netip.Addr.Prefix after clamping prefix_len to the address length. */
  function CompileRange(a: Address, prefixLen: nat): Prefix {
    var block := Pow2(HostBits(a, prefixLen));
    Prefix(a.family, BlockStart(a.bits, block), Min(prefixLen, Width(a.family)))
  }

  /** Does the range a/prefixLen contain the address x: do their network bits agree? */
  predicate InRange(a: Address, prefixLen: nat, x: nat)
    requires x < Pow2(Width(a.family))
  {
    x / Pow2(HostBits(a, prefixLen)) == a.bits / Pow2(HostBits(a, prefixLen))
  }

  ghost predicate SameAddresses(a: Address, la: nat, b: Address, lb: nat)
    requires a.family == b.family
  {
    forall x: nat | x < Pow2(Width(a.family)) :: InRange(a, la, x) <==> InRange(b, lb, x)
  }

  lemma {:induction false} Pow2Split(n: nat, m: nat)
    ensures Pow2(n + m) == Pow2(n) * Pow2(m)
    decreases n
  {
    if n == 0 {
    } else {
      Pow2Split(n - 1, m);
      assert Pow2(n + m) == 2 * Pow2(n - 1 + m);
      assert 2 * (Pow2(n - 1) * Pow2(m)) == (2 * Pow2(n - 1)) * Pow2(m);
    }
  }

  lemma {:induction false} Pow2Injective(n: nat, m: nat)
    requires Pow2(n) == Pow2(m)
    ensures n == m
  {
    if n != 0 && m != 0 {
      Pow2Injective(n - 1, m - 1);
    }
  }

  lemma BlockBounds(x: nat, block: nat)
    requires block > 0
    ensures BlockStart(x, block) <= x < BlockStart(x, block) + block
  {
    assert x == x / block * block + x % block;
  }

  lemma NextBlock(q: nat, p: nat, block: nat)
    requires q < p
    ensures q * block + block <= p * block
  {
    var gap := p - q - 1;
    assert p * block == q * block + block + gap * block;
    assert gap * block >= 0;
  }

  /** Division by a block length groups exactly the addresses of one block. */
  lemma BlockOf(x: nat, a: nat, block: nat)
    requires block > 0
    ensures x / block == a / block <==> BlockStart(a, block) <= x < BlockStart(a, block) + block
  {
    var q, p := x / block, a / block;
    BlockBounds(x, block);
    if q < p {
      NextBlock(q, p, block);
    } else if p < q {
      NextBlock(p, q, block);
    }
  }

  lemma BlockFits(a: nat, block: nat, blocks: nat)
    requires block > 0 && a < block * blocks
    ensures BlockStart(a, block) + block <= block * blocks
  {
    BlockBounds(a, block);
    var p := a / block;
    if blocks <= p {
      if blocks < p {
        NextBlock(blocks, p, block);
      }
    } else {
      NextBlock(p, blocks, block);
    }
  }

  /** A range is the block of addresses starting at its compiled base. */
  lemma RangeIsBlock(a: Address, len: nat)
    ensures CompileRange(a, len).bits + Pow2(HostBits(a, len)) <= Pow2(Width(a.family))
    ensures forall x: nat | x < Pow2(Width(a.family)) ::
      InRange(a, len, x) <==>
        CompileRange(a, len).bits <= x < CompileRange(a, len).bits + Pow2(HostBits(a, len))
  {
    var h, n := HostBits(a, len), Min(len, Width(a.family));
    Pow2Split(h, n);
    BlockFits(a.bits, Pow2(h), Pow2(n));
    forall x: nat | x < Pow2(Width(a.family))
      ensures InRange(a, len, x) <==>
        CompileRange(a, len).bits <= x < CompileRange(a, len).bits + Pow2(h)
    {
      BlockOf(x, a.bits, Pow2(h));
    }
  }

  /**
   * After clamping and masking, two ranges of one address family get the same key exactly
   * when they contain the same addresses (prefix notation of section 3.1 of RFC 4632).
   */
  lemma RangeKeysAreAddressSets(a: Address, la: nat, b: Address, lb: nat)
    requires a.family == b.family
    ensures CompileRange(a, la) == CompileRange(b, lb) <==> SameAddresses(a, la, b, lb)
  {
    RangeIsBlock(a, la);
    RangeIsBlock(b, lb);
    var baseA, blockA := CompileRange(a, la).bits, Pow2(HostBits(a, la));
    var baseB, blockB := CompileRange(b, lb).bits, Pow2(HostBits(b, lb));
    if SameAddresses(a, la, b, lb) {
      assert InRange(a, la, baseA) && InRange(b, lb, baseB);
      assert InRange(b, lb, baseA) && InRange(a, la, baseB);
      assert InRange(a, la, baseA + blockA - 1) && InRange(b, lb, baseB + blockB - 1);
      assert InRange(b, lb, baseA + blockA - 1) && InRange(a, la, baseB + blockB - 1);
      Pow2Injective(HostBits(a, la), HostBits(b, lb));
    }
  }

  /** The i-th bit from the right. */
  function Bit(x: nat, i: nat): nat {
    x / Pow2(i) % 2
  }

  lemma HalfOfQuotient(x: nat, p: nat)
    requires p > 0
    ensures x / (2 * p) == x / p / 2
  {
    var q, r := x / p, x % p;
    var h, b := q / 2, q % 2;
    assert x == q * p + r && q == 2 * h + b;
    assert x == h * (2 * p) + (b * p + r) by {
      assert (2 * h + b) * p == h * (2 * p) + b * p;
    }
    assert 0 <= b * p + r < 2 * p;
    QuotientIs(x, 2 * p, h, b * p + r);
  }

  lemma QuotientIs(x: nat, p: nat, q: nat, r: nat)
    requires p > 0 && x == q * p + r && r < p
    ensures x / p == q
  {
    BlockBounds(x, p);
    if x / p < q {
      NextBlock(x / p, q, p);
    } else if q < x / p {
      NextBlock(q, x / p, p);
    }
  }

  /** Numbers below 2^w agree from bit h up exactly when their quotients by 2^h are equal. */
  lemma {:induction false} LeadingBits(x: nat, y: nat, h: nat, w: nat)
    requires h <= w && x < Pow2(w) && y < Pow2(w)
    ensures x / Pow2(h) == y / Pow2(h) <==> forall i :: h <= i < w ==> Bit(x, i) == Bit(y, i)
    decreases w - h
  {
    if h == w {
      QuotientIs(x, Pow2(w), 0, x);
      QuotientIs(y, Pow2(w), 0, y);
    } else {
      LeadingBits(x, y, h + 1, w);
      HalfOfQuotient(x, Pow2(h));
      HalfOfQuotient(y, Pow2(h));
      assert Bit(x, h) == x / Pow2(h) % 2 && Bit(y, h) == y / Pow2(h) % 2;
    }
  }

  /** An address is in a range exactly when its first prefix_len bits, at most all, are those of the range's address. */
  lemma InRangeIsLeadingBits(a: Address, len: nat, x: nat)
    requires x < Pow2(Width(a.family))
    ensures InRange(a, len, x) <==>
      var w := if a.family.V4? then 32 else 128;
      forall i :: (if len < w then w - len else 0) <= i < w ==> Bit(x, i) == Bit(a.bits, i)
  {
    LeadingBits(x, a.bits, HostBits(a, len), Width(a.family));
  }

  // ---------------------------------------------------------------- normal form

  predicate NoRepeats<T(==)>(values: seq<T>) {
    forall i, j :: 0 <= i < j < |values| ==> values[i] != values[j]
  }

  /** An empty criterion is filed under the "any" keys; a repeated key is an error. */
  function UniqueOr<T(==)>(values: seq<T>, any: seq<T>): Option<seq<T>> {
    if values == [] then Some(any)
    else if NoRepeats(values) then Some(values)
    else None
  }

  method Unique<T(==)>(values: seq<T>, any: seq<T>) returns (keys: Option<seq<T>>)
    ensures keys == UniqueOr(values, any)
    ensures values == [] ==> keys == Some(any)
    ensures values != [] ==> keys == if exists i, j :: 0 <= i < j < |values| && values[i] == values[j] then None else Some(values)
  {
    if |values| == 0 {
      return Some(any);
    }
    for i := 0 to |values|
      invariant NoRepeats(values[..i])
    {
      if values[i] in values[..i] {
        return None;
      }
    }
    assert values[..|values|] == values;
    return Some(values);
  }

  const ANY_NAMES: seq<string> := [""]
  const ANY_PORTS: seq<nat> := [0]
  const ANY_ADDRESSES: seq<Prefix> := [Prefix(V4, 0, 0), Prefix(V6, 0, 0)]

  function LowerChar(c: char): char {
    if 'A' <= c <= 'Z' then c - 'A' + 'a' else c
  }

  function AsciiLower(s: string): string {
    seq(|s|, i requires 0 <= i < |s| => LowerChar(s[i]))
  }

  function Stars(s: string): nat {
    if s == "" then 0 else (if s[0] == '*' then 1 else 0) + Stars(s[1..])
  }

  predicate PartialWildcard(name: string) {
    ('*' in name && !("*." <= name)) || Stars(name) > 1
  }

  /** "*.example.com" is filed under ".example.com", lower case. */
  function NameKey(name: string): string {
    var lower := AsciiLower(name);
    if lower != "" && lower[0] == '*' then lower[1..] else lower
  }

  // ---------------------------------------------------------------- names as written

  /** Is k the character c stands for when ASCII letters are lowered? */
  ghost predicate Lowers(c: char, k: char) {
    if 65 <= c as int <= 90 then k as int == c as int + 32 else k == c
  }

  /** The key a server name is filed under: its characters lowered, without the star of a wildcard. */
  ghost predicate IsKey(name: string, key: string) {
    var from := if name != "" && name[0] == '*' then 1 else 0;
    |key| == |name| - from && forall i :: 0 <= i < |key| ==> Lowers(name[i + from], key[i])
  }

  lemma NameKeyIsKey(name: string)
    ensures IsKey(name, NameKey(name))
    ensures forall key :: IsKey(name, key) ==> key == NameKey(name)
  {
    var key := NameKey(name);
    forall other | IsKey(name, other)
      ensures other == key
    {
      assert forall i :: 0 <= i < |key| ==> other[i] == key[i];
    }
  }

  /** A star may stand only at the start, before a dot, and once. */
  ghost predicate WildcardOk(name: string) {
    '*' !in name || ("*." <= name && '*' !in name[1..])
  }

  lemma {:induction false} StarsCount(s: string)
    ensures Stars(s) == 0 <==> '*' !in s
    decreases |s|
  {
    if s != "" {
      StarsCount(s[1..]);
      assert s == [s[0]] + s[1..];
    }
  }

  lemma PartialWildcardIff(name: string)
    ensures PartialWildcard(name) <==> !WildcardOk(name)
  {
    StarsCount(name);
    if "*." <= name {
      StarsCount(name[1..]);
    }
  }

  /** Equal but for the case of ASCII letters. */
  ghost predicate SameIgnoringCase(a: string, b: string) {
    |a| == |b| && forall i :: 0 <= i < |a| ==> SameLetter(a[i], b[i])
  }

  ghost predicate SameLetter(c: char, d: char) {
    || c == d
    || (65 <= c as int <= 90 && d as int == c as int + 32)
    || (65 <= d as int <= 90 && c as int == d as int + 32)
  }

  lemma LowerAgrees(a: string, b: string)
    ensures AsciiLower(a) == AsciiLower(b) <==> SameIgnoringCase(a, b)
  {
    if AsciiLower(a) == AsciiLower(b) {
      forall i | 0 <= i < |a|
        ensures SameLetter(a[i], b[i])
      {
        assert AsciiLower(a)[i] == AsciiLower(b)[i];
      }
    }
  }

  /** Names without a star share a key exactly when they are the same name, ignoring case. */
  lemma PlainKeysAgree(a: string, b: string)
    requires '*' !in a && '*' !in b
    ensures NameKey(a) == NameKey(b) <==> SameIgnoringCase(a, b)
  {
    LowerAgrees(a, b);
    PlainKey(a);
    PlainKey(b);
  }

  lemma PlainKey(name: string)
    requires '*' !in name
    ensures NameKey(name) == AsciiLower(name)
  {
    assert name != "" ==> name[0] in name;
  }

  lemma LowerJoins(a: string, b: string)
    ensures AsciiLower(a + b) == AsciiLower(a) + AsciiLower(b)
  {
  }

  lemma LowerKeepsDots(a: string)
    ensures '.' in a <==> '.' in AsciiLower(a)
  {
    assert forall i :: 0 <= i < |a| ==> (a[i] == '.' <==> AsciiLower(a)[i] == '.');
  }

  lemma WildcardKey(d: string)
    ensures NameKey("*." + d) == "." + AsciiLower(d)
  {
    var name := "*." + d;
    assert AsciiLower(name) == "*." + AsciiLower(d);
    assert ("*." + AsciiLower(d))[1..] == "." + AsciiLower(d);
  }

  /** The host is the domain with one non-empty label in front. */
  ghost predicate OneLabelBefore(host: string, d: string) {
    exists part :: part != "" && '.' !in part && SameIgnoringCase(host, part + "." + d)
  }

  /** The host is covered by "*." and the domain, or differs from "." and the domain in a trailing dot. */
  ghost predicate NearName(host: string, d: string) {
    OneLabelBefore(host, d) || SameIgnoringCase(host, "." + d + ".") || SameIgnoringCase(host + ".", "." + d)
  }

  /**
   * What a wildcard name and a plain one mean to each other, from the names as written: the same key,
   * or one covers the other or differs from it in a trailing dot.
   */
  lemma WildcardAgainstHost(d: string, h: string)
    requires '*' !in d && '*' !in h
    ensures var v := CompareNames([NameKey("*." + d)], [NameKey(h)]);
      && (v == Duplicate <==> SameIgnoringCase(h, "." + d))
      && (v == Shadow <==> v != Duplicate && h != "" && NearName(h, d))
  {
    WildcardKey(d);
    PlainKey(h);
    var x, y := NameKey("*." + d), NameKey(h);
    LowerAgrees(h, "." + d);
    LowerJoins(".", d);
    assert AsciiLower(".") == ".";
    assert x in [x] && y in [y];
    LowerAgrees(h, "." + d + ".");
    LowerJoins("." + d, ".");
    LowerAgrees(h + ".", "." + d);
    LowerJoins(h, ".");
    CoversIffLabel(d, h);
    assert !Covers(y, x) by {
      assert FirstDot(x) == 0;
    }
    assert CompareNames([x], [y]) == if x == y then Duplicate else if ShadowPair(x, y) then Shadow else Apart;
  }

  lemma CoversIffLabel(d: string, h: string)
    ensures Covers("." + AsciiLower(d), AsciiLower(h)) <==> OneLabelBefore(h, d)
  {
    var pattern, host := "." + AsciiLower(d), AsciiLower(h);
    CoversOneLabel(pattern, host);
    if part :| part != "" && '.' !in part && host == part + pattern {
      var front := h[..|part|];
      assert AsciiLower(front) == part;
      LowerKeepsDots(front);
      JoinLower(front, d);
      LowerAgrees(h, front + "." + d);
    }
    if part :| part != "" && '.' !in part && SameIgnoringCase(h, part + "." + d) {
      LowerAgrees(h, part + "." + d);
      JoinLower(part, d);
      LowerKeepsDots(part);
      assert host == AsciiLower(part) + pattern;
    }
  }

  lemma JoinLower(part: string, d: string)
    ensures AsciiLower(part + "." + d) == AsciiLower(part) + ("." + AsciiLower(d))
  {
  }

  function CompileNames(names: seq<string>): Option<seq<string>> {
    if exists n :: n in names && PartialWildcard(n) then None
    else UniqueOr(seq(|names|, i requires 0 <= i < |names| => NameKey(names[i])), ANY_NAMES)
  }

  /** No name has a misplaced star and no two share a key. */
  ghost predicate NamesOk(names: seq<string>) {
    && (forall n :: n in names ==> WildcardOk(n))
    && (forall i, j, key :: 0 <= i < j < |names| ==> !(IsKey(names[i], key) && IsKey(names[j], key)))
  }

  /** Some name is filed under the key; no name at all under the empty one. */
  ghost predicate NameFiled(names: seq<string>, key: string) {
    if names == [] then key == "" else exists i :: 0 <= i < |names| && IsKey(names[i], key)
  }

  lemma NamesCompile(names: seq<string>)
    ensures CompileNames(names).Some? <==> NamesOk(names)
    ensures CompileNames(names).Some? && names != [] ==>
      |CompileNames(names).value| == |names| && forall i :: 0 <= i < |names| ==> IsKey(names[i], CompileNames(names).value[i])
    ensures CompileNames(names).Some? ==> forall key :: key in CompileNames(names).value <==> NameFiled(names, key)
  {
    forall n | n in names
      ensures PartialWildcard(n) <==> !WildcardOk(n)
    {
      PartialWildcardIff(n);
    }
    forall n {
      NameKeyIsKey(n);
    }
    hide NameKey, IsKey, WildcardOk, PartialWildcard;
    var keys := seq(|names|, i requires 0 <= i < |names| => NameKey(names[i]));
    if names != [] && !(exists n :: n in names && PartialWildcard(n)) {
      if !NoRepeats(keys) {
        var i, j :| 0 <= i < j < |keys| && keys[i] == keys[j];
        assert IsKey(names[i], keys[i]) && IsKey(names[j], keys[i]);
      } else {
        forall i, j, key | 0 <= i < j < |names| && IsKey(names[i], key)
          ensures !IsKey(names[j], key)
        {
          assert keys[i] == key && keys[j] == NameKey(names[j]);
        }
      }
    }
  }

  method CompileServerNames(names: seq<string>) returns (keys: Option<seq<string>>)
    ensures keys == CompileNames(names)
    ensures keys.Some? <==> NamesOk(names)
    ensures keys.Some? ==> forall key :: key in keys.value <==> NameFiled(names, key)
    ensures keys.Some? && names != [] ==>
      |keys.value| == |names| && forall i :: 0 <= i < |names| ==> IsKey(names[i], keys.value[i])
  {
    NamesCompile(names);
    hide IsKey, NamesOk, NameFiled;
    var out: seq<string> := [];
    for i := 0 to |names|
      invariant |out| == i
      invariant forall j :: 0 <= j < i ==> !PartialWildcard(names[j]) && out[j] == NameKey(names[j])
    {
      if PartialWildcard(names[i]) {
        return None;
      }
      out := out + [NameKey(names[i])];
    }
    assert out == seq(|names|, i requires 0 <= i < |names| => NameKey(names[i]));
    keys := Unique(out, ANY_NAMES);
  }

  function CompileRanges(ranges: seq<CidrRange>): Option<seq<Prefix>> {
    if exists i :: 0 <= i < |ranges| && ranges[i].address.None? then None
    else UniqueOr(seq(|ranges|, i requires 0 <= i < |ranges| && ranges[i].address.Some? =>
                      CompileRange(ranges[i].address.value, ranges[i].prefixLen)), ANY_ADDRESSES)
  }

  /** Is the prefix that of the range: as long as prefix_len allows, the address in it, no host bits set? */
  ghost predicate IsPrefix(r: CidrRange, p: Prefix) {
    r.address.Some? &&
    var w := if p.family.V4? then 32 else 128;
    && p.family == r.address.value.family
    && p.len == (if r.prefixLen < w then r.prefixLen else w)
    && p.bits % Pow2(w - p.len) == 0
    && p.bits <= r.address.value.bits < p.bits + Pow2(w - p.len)
  }

  lemma CompileRangeIsPrefix(r: CidrRange)
    requires r.address.Some?
    ensures IsPrefix(r, CompileRange(r.address.value, r.prefixLen))
    ensures forall p :: IsPrefix(r, p) ==> p == CompileRange(r.address.value, r.prefixLen)
  {
    hide Pow2, BlockStart;
    var a := r.address.value;
    OnlyBlock(a.bits, Pow2(HostBits(a, r.prefixLen)));
  }

  /** The block around x starts at the one multiple of the block size that is less than a block below x. */
  lemma OnlyBlock(x: nat, block: nat)
    requires block > 0
    ensures BlockStart(x, block) % block == 0 && BlockStart(x, block) <= x < BlockStart(x, block) + block
    ensures forall b: nat :: b % block == 0 && b <= x < b + block ==> b == BlockStart(x, block)
  {
    BlockBounds(x, block);
    MultipleOf(x / block, block);
    forall b: nat | b % block == 0 && b <= x < b + block
      ensures b == BlockStart(x, block)
    {
      QuotientIs(x, block, b / block, x - b);
    }
  }

  lemma MultipleOf(q: nat, p: nat)
    requires p > 0
    ensures q * p % p == 0
  {
    QuotientIs(q * p, p, q, 0);
  }

  /** Every address parses and no two ranges have one prefix. */
  ghost predicate RangesOk(ranges: seq<CidrRange>) {
    && (forall i :: 0 <= i < |ranges| ==> ranges[i].address.Some?)
    && (forall i, j, p :: 0 <= i < j < |ranges| ==> !(IsPrefix(ranges[i], p) && IsPrefix(ranges[j], p)))
  }

  /** Some range has the prefix; no range at all stands for all addresses of both families. */
  ghost predicate RangeFiled(ranges: seq<CidrRange>, p: Prefix) {
    if ranges == [] then p.len == 0 && p.bits == 0 else exists i :: 0 <= i < |ranges| && IsPrefix(ranges[i], p)
  }

  /** The keys of ranges that all parse are their prefixes. */
  lemma RangeKeys(ranges: seq<CidrRange>) returns (keys: seq<Prefix>)
    requires ranges != [] && forall i :: 0 <= i < |ranges| ==> ranges[i].address.Some?
    ensures |keys| == |ranges| && CompileRanges(ranges) == UniqueOr(keys, ANY_ADDRESSES)
    ensures forall i, p :: 0 <= i < |ranges| ==> (IsPrefix(ranges[i], p) <==> p == keys[i])
  {
    keys := seq(|ranges|, i requires 0 <= i < |ranges| && ranges[i].address.Some? =>
                CompileRange(ranges[i].address.value, ranges[i].prefixLen));
    forall i, p | 0 <= i < |ranges|
      ensures IsPrefix(ranges[i], p) <==> p == keys[i]
    {
      CompileRangeIsPrefix(ranges[i]);
    }
  }

  lemma AnyAddress(p: Prefix)
    ensures p in ANY_ADDRESSES <==> p.len == 0 && p.bits == 0
  {
    assert ANY_ADDRESSES[0] in ANY_ADDRESSES && ANY_ADDRESSES[1] in ANY_ADDRESSES;
    assert p.family == V4 || p.family == V6;
  }

  lemma RangesCompile(ranges: seq<CidrRange>)
    ensures CompileRanges(ranges).Some? <==> RangesOk(ranges)
    ensures CompileRanges(ranges).Some? ==> forall p :: p in CompileRanges(ranges).value <==> RangeFiled(ranges, p)
  {
    hide IsPrefix, CompileRange;
    if ranges == [] {
      forall p {
        AnyAddress(p);
      }
    } else if forall i :: 0 <= i < |ranges| ==> ranges[i].address.Some? {
      hide CompileRanges;
      var keys := RangeKeys(ranges);
      if !NoRepeats(keys) {
        var i, j :| 0 <= i < j < |keys| && keys[i] == keys[j];
        assert IsPrefix(ranges[i], keys[i]) && IsPrefix(ranges[j], keys[i]);
      }
    }
  }

  method CompileCIDRs(ranges: seq<CidrRange>) returns (keys: Option<seq<Prefix>>)
    ensures keys == CompileRanges(ranges)
    ensures keys.Some? <==> RangesOk(ranges)
    ensures keys.Some? ==> forall p :: p in keys.value <==> RangeFiled(ranges, p)
  {
    RangesCompile(ranges);
    hide RangesOk, RangeFiled, CompileRange;
    var out: seq<Prefix> := [];
    for i := 0 to |ranges|
      invariant |out| == i
      invariant forall j :: 0 <= j < i ==>
        ranges[j].address.Some? && out[j] == CompileRange(ranges[j].address.value, ranges[j].prefixLen)
    {
      if ranges[i].address.None? {
        return None;
      }
      out := out + [CompileRange(ranges[i].address.value, ranges[i].prefixLen)];
    }
    assert out == seq(|ranges|, i requires 0 <= i < |ranges| && ranges[i].address.Some? =>
                      CompileRange(ranges[i].address.value, ranges[i].prefixLen));
    keys := Unique(out, ANY_ADDRESSES);
  }

  /**
   * A filter_chain_match as parsed. `valid` is the verdict of the JSON and proto validation
   * libraries; `hasSuffix` says that address_suffix or suffix_len is set.
   */
  datatype ChainMatch = ChainMatch(
    valid: bool,
    hasSuffix: bool,
    destinationPort: nat,
    prefixRanges: seq<CidrRange>,
    serverNames: seq<string>,
    transportProtocol: string,
    applicationProtocols: seq<string>,
    directSource: seq<CidrRange>,
    sourceType: nat,
    source: seq<CidrRange>,
    sourcePorts: seq<nat>)

  /** What an absent filter_chain_match stands for. */
  const CATCH_ALL := ChainMatch(true, false, 0, [], [], "", [], [], 0, [], [])

  datatype Matcher = Matcher(
    destinationPort: nat,
    prefixRanges: seq<Prefix>,
    serverNames: seq<string>,
    transportProtocol: string,
    alpn: seq<string>,
    directSource: seq<Prefix>,
    sourceType: nat,
    source: seq<Prefix>,
    sourcePorts: seq<nat>)

  function Compile(m: ChainMatch): Option<Matcher> {
    var names := CompileNames(m.serverNames);
    var alpn := UniqueOr(m.applicationProtocols, ANY_NAMES);
    var ports := UniqueOr(m.sourcePorts, ANY_PORTS);
    var ranges := CompileRanges(m.prefixRanges);
    var direct := CompileRanges(m.directSource);
    var source := CompileRanges(m.source);
    if m.valid && !m.hasSuffix && names.Some? && alpn.Some? && ports.Some?
       && ranges.Some? && direct.Some? && source.Some?
    then Some(Matcher(m.destinationPort, ranges.value, names.value, m.transportProtocol, alpn.value,
                      direct.value, m.sourceType, source.value, ports.value))
    else None
  }

  /** Every criterion of a compiled matcher lists at least one key and none twice. */
  ghost predicate Normal(m: Matcher) {
    && m.prefixRanges != [] && NoRepeats(m.prefixRanges)
    && m.serverNames != [] && NoRepeats(m.serverNames)
    && m.alpn != [] && NoRepeats(m.alpn)
    && m.directSource != [] && NoRepeats(m.directSource)
    && m.source != [] && NoRepeats(m.source)
    && m.sourcePorts != [] && NoRepeats(m.sourcePorts)
  }

  lemma CompiledIsNormal(m: ChainMatch)
    requires Compile(m).Some?
    ensures Normal(Compile(m).value)
  {
    assert ANY_ADDRESSES[0] != ANY_ADDRESSES[1];
  }

  // ---------------------------------------------------------------- comparison

  predicate ShareKey<T(==)>(a: seq<T>, b: seq<T>) {
    exists x :: x in a && x in b
  }

  /** Index of the first '.', or the length when there is none (strings.Cut). */
  function FirstDot(s: string): (i: nat)
    ensures i <= |s|
  {
    if s == "" || s[0] == '.' then 0 else 1 + FirstDot(s[1..])
  }

  /** On keys: a wildcard is a key with a leading ".". */
  predicate Covers(pattern: string, domain: string) {
    pattern != "" && pattern[0] == '.'
    && 0 < FirstDot(domain) < |domain| && domain[FirstDot(domain)..] == pattern
  }

  predicate SameButTrailingDot(x: string, y: string) {
    x == y + "." || y == x + "."
  }

  predicate ShadowPair(x: string, y: string) {
    x != "" && y != "" && (Covers(x, y) || Covers(y, x) || SameButTrailingDot(x, y))
  }

  function CompareNames(a: seq<string>, b: seq<string>): Verdict {
    if ShareKey(a, b) then Duplicate
    else if exists x, y :: x in a && y in b && ShadowPair(x, y) then Shadow
    else Apart
  }

  method CompareServerNames(a: seq<string>, b: seq<string>) returns (v: Verdict)
    ensures v == CompareNames(a, b)
  {
    v := Apart;
    for i := 0 to |a|
      invariant v != Duplicate
      invariant forall k :: 0 <= k < i ==> a[k] !in b
      invariant v == Shadow <==> exists k, y :: 0 <= k < i && y in b && ShadowPair(a[k], y)
    {
      for j := 0 to |b|
        invariant v != Duplicate
        invariant a[i] !in b[..j]
        invariant v == Shadow <==>
          (exists k, y :: 0 <= k < i && y in b && ShadowPair(a[k], y))
          || (exists y :: y in b[..j] && ShadowPair(a[i], y))
      {
        if a[i] == b[j] {
          assert a[i] in a && a[i] in b;
          return Duplicate;
        }
        if ShadowPair(a[i], b[j]) {
          v := Shadow;
          assert b[j] in b[..j + 1];
        }
      }
      assert b[..|b|] == b;
    }
  }

  /** Can one listener hold chains with both matchers? */
  function Compare(m: Matcher, o: Matcher): Verdict {
    if m.destinationPort != o.destinationPort
       || m.transportProtocol != o.transportProtocol
       || m.sourceType != o.sourceType
       || !ShareKey(m.prefixRanges, o.prefixRanges)
       || !ShareKey(m.alpn, o.alpn)
       || !ShareKey(m.directSource, o.directSource)
       || !ShareKey(m.source, o.source)
       || !ShareKey(m.sourcePorts, o.sourcePorts)
    then Apart
    else CompareNames(m.serverNames, o.serverNames)
  }

  lemma ShareKeySymmetric<T>(a: seq<T>, b: seq<T>)
    ensures ShareKey(a, b) == ShareKey(b, a)
  {
  }

  lemma CompareSymmetric(m: Matcher, o: Matcher)
    ensures Compare(m, o) == Compare(o, m)
  {
    forall x, y | x in m.serverNames && y in o.serverNames
      ensures ShadowPair(x, y) == ShadowPair(y, x)
    {
    }
  }

  /** One leaf of Envoy's matching trie: a key for each of the nine criteria. */
  datatype TrieKey = TrieKey(
    destinationPort: nat,
    prefixRange: Prefix,
    serverName: string,
    transportProtocol: string,
    alpn: string,
    directSource: Prefix,
    sourceType: nat,
    source: Prefix,
    sourcePort: nat)

  /** Envoy files a chain under every combination of its keys. */
  predicate FiledUnder(m: Matcher, k: TrieKey) {
    && k.destinationPort == m.destinationPort
    && k.prefixRange in m.prefixRanges
    && k.serverName in m.serverNames
    && k.transportProtocol == m.transportProtocol
    && k.alpn in m.alpn
    && k.directSource in m.directSource
    && k.sourceType == m.sourceType
    && k.source in m.source
    && k.sourcePort in m.sourcePorts
  }

  ghost predicate Collide(m: Matcher, o: Matcher) {
    exists k: TrieKey :: FiledUnder(m, k) && FiledUnder(o, k)
  }

  // ---------------------------------------------------------------- from filter_chain_match to trie leaves

  /** Is an exact value filed under the key; nothing at all under the "any" key? */
  predicate Filed<T(==)>(values: seq<T>, any: T, key: T) {
    if values == [] then key == any else key in values
  }

  /** The leaves a filter_chain_match stands for, criterion by criterion. */
  ghost predicate Files(cm: ChainMatch, k: TrieKey) {
    && k.destinationPort == cm.destinationPort
    && RangeFiled(cm.prefixRanges, k.prefixRange)
    && NameFiled(cm.serverNames, k.serverName)
    && k.transportProtocol == cm.transportProtocol
    && Filed(cm.applicationProtocols, "", k.alpn)
    && RangeFiled(cm.directSource, k.directSource)
    && k.sourceType == cm.sourceType
    && RangeFiled(cm.source, k.source)
    && Filed(cm.sourcePorts, 0, k.sourcePort)
  }

  /** When a filter_chain_match compiles, and which leaves its matcher is filed under. */
  lemma CompileIff(cm: ChainMatch)
    ensures Compile(cm).Some? <==>
      && cm.valid && !cm.hasSuffix
      && NamesOk(cm.serverNames) && NoRepeats(cm.applicationProtocols) && NoRepeats(cm.sourcePorts)
      && RangesOk(cm.prefixRanges) && RangesOk(cm.directSource) && RangesOk(cm.source)
    ensures Compile(cm).Some? ==> forall k :: FiledUnder(Compile(cm).value, k) <==> Files(cm, k)
  {
    NamesCompile(cm.serverNames);
    RangesCompile(cm.prefixRanges);
    RangesCompile(cm.directSource);
    RangesCompile(cm.source);
    hide CompileNames, CompileRanges, NamesOk, RangesOk, NameFiled, RangeFiled;
    assert ANY_NAMES[0] == "" && ANY_PORTS[0] == 0;
  }

  /** A match that names no criterion is filed under the "any" keys alone. */
  lemma CatchAllFiles(k: TrieKey)
    ensures Compile(CATCH_ALL).Some?
    ensures Files(CATCH_ALL, k) <==>
      && k.destinationPort == 0 && k.serverName == "" && k.transportProtocol == "" && k.alpn == ""
      && k.sourceType == 0 && k.sourcePort == 0
      && (forall p :: p in [k.prefixRange, k.directSource, k.source] ==> p.len == 0 && p.bits == 0)
  {
    CompileIff(CATCH_ALL);
    var ps := [k.prefixRange, k.directSource, k.source];
    assert ps[0] in ps && ps[1] in ps && ps[2] in ps;
  }

  /** Everything but the server name. */
  ghost predicate FiledElsewhere(m: Matcher, k: TrieKey) {
    && k.destinationPort == m.destinationPort
    && k.prefixRange in m.prefixRanges
    && k.transportProtocol == m.transportProtocol
    && k.alpn in m.alpn
    && k.directSource in m.directSource
    && k.sourceType == m.sourceType
    && k.source in m.source
    && k.sourcePort in m.sourcePorts
  }

  /** The domain is the pattern, a key with a leading dot, with one non-empty label in front. */
  ghost predicate OneLabelMore(domain: string, pattern: string) {
    pattern != "" && pattern[0] == '.' && exists part :: part != "" && '.' !in part && domain == part + pattern
  }

  /** Two keys one of which covers the other, or that differ in a trailing dot. */
  ghost predicate Near(x: string, y: string) {
    x != "" && y != "" && (OneLabelMore(x, y) || OneLabelMore(y, x) || x == y + "." || y == x + ".")
  }

  /** No common leaf, but leaves that agree in everything except two near names. */
  ghost predicate NearMiss(m: Matcher, o: Matcher) {
    && !Collide(m, o)
    && (exists k: TrieKey :: FiledElsewhere(m, k) && FiledElsewhere(o, k))
    && (exists x, y :: x in m.serverNames && y in o.serverNames && Near(x, y))
  }

  lemma NearIff(x: string, y: string)
    ensures ShadowPair(x, y) <==> Near(x, y)
  {
    CoversOneLabel(x, y);
    CoversOneLabel(y, x);
  }

  /** The three verdicts in terms of trie leaves. */
  lemma CompareIff(m: Matcher, o: Matcher)
    ensures Compare(m, o) == Duplicate <==> Collide(m, o)
    ensures Compare(m, o) == Shadow <==> NearMiss(m, o)
  {
    DuplicateIffCollide(m, o);
    forall x, y
      ensures ShadowPair(x, y) <==> Near(x, y)
    {
      NearIff(x, y);
    }
    hide ShadowPair, Near, Collide;
    if Compare(m, o) == Shadow {
      var range :| range in m.prefixRanges && range in o.prefixRanges;
      var alpn :| alpn in m.alpn && alpn in o.alpn;
      var direct :| direct in m.directSource && direct in o.directSource;
      var source :| source in m.source && source in o.source;
      var port :| port in m.sourcePorts && port in o.sourcePorts;
      var k := TrieKey(m.destinationPort, range, "", m.transportProtocol, alpn, direct, m.sourceType, source, port);
      assert FiledElsewhere(m, k) && FiledElsewhere(o, k);
      var x, y :| x in m.serverNames && y in o.serverNames && ShadowPair(x, y);
    }
    if NearMiss(m, o) {
      var k: TrieKey :| FiledElsewhere(m, k) && FiledElsewhere(o, k);
      assert ShareKey(m.prefixRanges, o.prefixRanges) && ShareKey(m.alpn, o.alpn) && ShareKey(m.directSource, o.directSource)
        && ShareKey(m.source, o.source) && ShareKey(m.sourcePorts, o.sourcePorts);
      var x, y :| x in m.serverNames && y in o.serverNames && Near(x, y);
      assert ShadowPair(x, y);
    }
  }

  /** The per-criterion test is exact: Duplicate means some trie leaf would hold both chains. */
  lemma DuplicateIffCollide(m: Matcher, o: Matcher)
    ensures Compare(m, o) == Duplicate <==> Collide(m, o)
  {
    if Compare(m, o) == Duplicate {
      var range :| range in m.prefixRanges && range in o.prefixRanges;
      var name :| name in m.serverNames && name in o.serverNames;
      var alpn :| alpn in m.alpn && alpn in o.alpn;
      var direct :| direct in m.directSource && direct in o.directSource;
      var source :| source in m.source && source in o.source;
      var port :| port in m.sourcePorts && port in o.sourcePorts;
      var k := TrieKey(m.destinationPort, range, name, m.transportProtocol, alpn, direct, m.sourceType, source, port);
      assert FiledUnder(m, k) && FiledUnder(o, k);
    }
  }

  lemma {:induction false} FirstDotSplits(s: string)
    ensures '.' !in s[..FirstDot(s)]
  {
    if s != "" && s[0] != '.' {
      FirstDotSplits(s[1..]);
      assert s[..FirstDot(s)] == [s[0]] + s[1..][..FirstDot(s[1..])];
    }
  }

  lemma {:induction false} FirstDotAfter(part: string, rest: string)
    requires '.' !in part && rest != "" && rest[0] == '.'
    ensures FirstDot(part + rest) == |part|
  {
    if part == "" {
      assert part + rest == rest;
    } else {
      FirstDotAfter(part[1..], rest);
      assert (part + rest)[1..] == part[1..] + rest;
    }
  }

  /** A wildcard key covers a domain exactly when the domain puts one non-empty label in front of it. */
  lemma CoversOneLabel(pattern: string, domain: string)
    ensures Covers(pattern, domain) <==>
      pattern != "" && pattern[0] == '.' &&
      exists part :: part != "" && '.' !in part && domain == part + pattern
  {
    if Covers(pattern, domain) {
      FirstDotSplits(domain);
      var part := domain[..FirstDot(domain)];
      assert domain == part + pattern;
    }
    if pattern != "" && pattern[0] == '.' {
      forall part: string | part != "" && '.' !in part && domain == part + pattern
        ensures Covers(pattern, domain)
      {
        FirstDotAfter(part, pattern);
      }
    }
  }

  // ---------------------------------------------------------------- the index

  /** One listener's matchers, filed under each of their server name keys. */
  class MatcherSet {
    var byName: map<string, seq<Matcher>>
    ghost var added: seq<Matcher>

    ghost predicate Valid()
      reads this
    {
      && (forall n, m :: n in byName && m in byName[n] ==> m in added && n in m.serverNames)
      && (forall n, m :: m in added && n in m.serverNames ==> n in byName && m in byName[n])
    }

    constructor ()
      ensures Valid() && added == []
    {
      byName, added := map[], [];
    }

    method Add(m: Matcher)
      requires Valid()
      modifies this
      ensures Valid() && added == old(added) + [m]
    {
      ghost var before := byName;
      for i := 0 to |m.serverNames|
        invariant added == old(added)
        invariant forall n, o :: n in byName && o in byName[n] ==>
          (n in before && o in before[n]) || (o == m && n in m.serverNames[..i])
        invariant forall n, o :: n in before && o in before[n] ==> n in byName && o in byName[n]
        invariant forall n :: n in m.serverNames[..i] ==> n in byName && m in byName[n]
      {
        var n := m.serverNames[i];
        byName := byName[n := (if n in byName then byName[n] else []) + [m]];
      }
      assert m.serverNames[..|m.serverNames|] == m.serverNames;
      added := added + [m];
      forall n, o | o in added && n in o.serverNames
        ensures n in byName && o in byName[n]
      {
        if o in old(added) {
          assert n in before && o in before[n];
        } else {
          assert o == m;
        }
      }
    }

    /** A matcher that duplicates m shares a name with it, so it is filed under one of m's names. */
    lemma DuplicatesShareAName(m: Matcher, o: Matcher)
      requires Valid() && o in added && Compare(m, o) == Duplicate
      ensures exists n :: n in m.serverNames && n in byName && o in byName[n]
    {
      var n :| n in m.serverNames && n in o.serverNames;
      assert n in byName && o in byName[n];
    }

    /** The index answers as a linear scan of everything added would. */
    method HasDuplicate(m: Matcher) returns (found: bool)
      requires Valid()
      ensures found <==> exists o :: o in added && Compare(m, o) == Duplicate
    {
      hide Compare;
      for i := 0 to |m.serverNames|
        invariant forall n, o :: n in m.serverNames[..i] && n in byName && o in byName[n] ==>
          Compare(m, o) != Duplicate
      {
        var n := m.serverNames[i];
        var filed := if n in byName then byName[n] else [];
        for j := 0 to |filed|
          invariant forall k :: 0 <= k < j ==> Compare(m, filed[k]) != Duplicate
        {
          if Compare(m, filed[j]) == Duplicate {
            assert filed[j] in byName[n];
            return true;
          }
        }
      }
      assert m.serverNames[..|m.serverNames|] == m.serverNames;
      forall o | o in added && Compare(m, o) == Duplicate
        ensures false
      {
        DuplicatesShareAName(m, o);
      }
      return false;
    }
  }
}
