/** Bloom filters: a key that was added always matches. */
module BloomFilters {
  import opened Coding

  /** The hash is any function of the key into 32 bits. */
  type Hash = Bytes -> nat

  ghost predicate HashFits(hash: Hash) {
    forall key: Bytes :: hash(key) < TWO_32
  }

  // ----- Bits of a byte array -----

  predicate Bit(b: nat, i: nat)
    decreases i
  {
    if i == 0 then b % 2 == 1 else Bit(b / 2, i - 1)
  }

  /** b with bit i set. */
  function SetBit(b: nat, i: nat): nat
    decreases i
  {
    if i == 0 then b / 2 * 2 + 1 else SetBit(b / 2, i - 1) * 2 + b % 2
  }

  lemma {:induction false} SetBitFits(b: nat, i: nat, n: nat)
    requires i < n && b < Pow2(n)
    ensures SetBit(b, i) < Pow2(n)
    decreases n
  {
    if i > 0 { SetBitFits(b / 2, i - 1, n - 1); }
  }

  lemma {:induction false} BitOfSet(b: nat, i: nat, j: nat)
    ensures Bit(SetBit(b, i), j) <==> Bit(b, j) || i == j
    decreases i
  {
    if i > 0 && j > 0 {
      BitOfSet(b / 2, i - 1, j - 1);
      assert (SetBit(b / 2, i - 1) * 2 + b % 2) / 2 == SetBit(b / 2, i - 1);
    }
  }

  predicate BitAt(s: Bytes, p: nat) {
    p / 8 < |s| && Bit(s[p / 8], p % 8)
  }

  function SetBitAt(s: Bytes, p: nat): (r: Bytes)
    requires p / 8 < |s|
    ensures |r| == |s|
  {
    ByteKept(s[p / 8], p % 8);
    s[p / 8 := SetBit(s[p / 8], p % 8)]
  }

  lemma ByteKept(b: Byte, i: nat)
    requires i < 8
    ensures SetBit(b, i) < 256
  {
    assert Pow2(4) == 16 && Pow2(8) == 256;
    SetBitFits(b, i, 8);
  }

  lemma BitAtSet(s: Bytes, p: nat, q: nat)
    requires p / 8 < |s|
    ensures BitAt(SetBitAt(s, p), q) <==> BitAt(s, q) || p == q
  {
    hide Bit, SetBit;
    if p / 8 == q / 8 { BitOfSet(s[p / 8], p % 8, q % 8); }
  }

  // ----- Probes -----

  /** Rotate right by 17 bits. */
  function Delta(h: nat): nat
    requires h < TWO_32
  {
    h / 0x2_0000 + h % 0x2_0000 * 0x8000
  }

  function Probe(h: nat, delta: nat, j: nat): (p: nat)
    requires h < TWO_32
    ensures p < TWO_32
  {
    if j == 0 then h else (Probe(h, delta, j - 1) + delta) % TWO_32
  }

  ghost predicate ProbesSet(s: Bytes, bits: nat, h: nat, k: nat)
    requires bits > 0 && h < TWO_32
  {
    forall j :: 0 <= j < k ==> BitAt(s, Probe(h, Delta(h), j) % bits)
  }

  /** What a filter says of a key. */
  ghost predicate Matches(hash: Hash, key: Bytes, filter: Bytes)
    requires HashFits(hash)
  {
    var n := |filter|;
    n >= 2 && (filter[n - 1] > 30 || ProbesSet(filter[..n - 1], (n - 1) * 8, hash(key), filter[n - 1]))
  }

  /** Bits are only ever added. */
  ghost predicate Keeps(s: Bytes, t: Bytes) {
    |s| == |t| && forall q :: BitAt(s, q) ==> BitAt(t, q)
  }

  ghost predicate IsProbe(h: nat, bits: nat, k: nat, q: nat)
    requires bits > 0 && h < TWO_32
  {
    exists j :: 0 <= j < k && Probe(h, Delta(h), j) % bits == q
  }

  /** No bit is set that neither was set before nor belongs to this key. */
  ghost predicate AddsOnly(s: Bytes, t: Bytes, bits: nat, h: nat, k: nat)
    requires bits > 0 && h < TWO_32
  {
    forall q :: 0 <= q && BitAt(t, q) ==> BitAt(s, q) || IsProbe(h, bits, k, q)
  }

  lemma AddsOneMore(s: Bytes, t: Bytes, u: Bytes, bits: nat, h: nat, k: nat)
    requires bits > 0 && h < TWO_32 && AddsOnly(s, t, bits, h, k)
    requires Probe(h, Delta(h), k) % bits / 8 < |t| && u == SetBitAt(t, Probe(h, Delta(h), k) % bits)
    ensures AddsOnly(s, u, bits, h, k + 1)
  {
    hide BitAt, SetBitAt;
    var p := Probe(h, Delta(h), k) % bits;
    forall q | 0 <= q && BitAt(u, q) ensures BitAt(s, q) || IsProbe(h, bits, k + 1, q) {
      BitAtSet(t, p, q);
      if BitAt(t, q) && IsProbe(h, bits, k, q) {
        var j :| 0 <= j < k && Probe(h, Delta(h), j) % bits == q;
      }
    }
  }

  /** Every bit set belongs to one of the keys. */
  ghost predicate OnlyKeys(hash: Hash, keys: seq<Bytes>, s: Bytes, bits: nat, k: nat)
    requires HashFits(hash) && bits > 0
  {
    forall q :: 0 <= q && BitAt(s, q) ==> exists i :: 0 <= i < |keys| && IsProbe(hash(keys[i]), bits, k, q)
  }

  lemma OnlyKeysMore(hash: Hash, keys: seq<Bytes>, n: nat, s: Bytes, t: Bytes, bits: nat, k: nat)
    requires HashFits(hash) && bits > 0 && n < |keys|
    requires OnlyKeys(hash, keys[..n], s, bits, k) && AddsOnly(s, t, bits, hash(keys[n]), k)
    ensures OnlyKeys(hash, keys[..n + 1], t, bits, k)
  {
    hide BitAt, IsProbe;
    var some, more := keys[..n], keys[..n + 1];
    forall q | 0 <= q && BitAt(t, q) ensures exists i :: 0 <= i < |more| && IsProbe(hash(more[i]), bits, k, q) {
      if BitAt(s, q) {
        var i :| 0 <= i < |some| && IsProbe(hash(some[i]), bits, k, q);
        assert more[i] == some[i];
      } else {
        assert more[n] == keys[n];
      }
    }
  }

  lemma {:induction false} ZeroHasNoBit(i: nat)
    ensures !Bit(0, i)
  {
    if i > 0 { ZeroHasNoBit(i - 1); }
  }

  lemma NoKeys(hash: Hash, s: Bytes, bits: nat, k: nat)
    requires HashFits(hash) && bits > 0 && forall i :: 0 <= i < |s| ==> s[i] == 0
    ensures OnlyKeys(hash, [], s, bits, k)
  {
    forall q | 0 <= q ensures !BitAt(s, q) {
      if q / 8 < |s| { ZeroHasNoBit(q % 8); }
    }
  }

  lemma ProbesStay(s: Bytes, t: Bytes, bits: nat, h: nat, k: nat)
    requires bits > 0 && h < TWO_32 && ProbesSet(s, bits, h, k) && Keeps(s, t)
    ensures ProbesSet(t, bits, h, k)
  {
    hide BitAt;
  }

  lemma SetKeeps(s: Bytes, p: nat)
    requires p / 8 < |s|
    ensures Keeps(s, SetBitAt(s, p)) && BitAt(SetBitAt(s, p), p)
  {
    hide BitAt, SetBitAt;
    forall q ensures BitAt(s, q) ==> BitAt(SetBitAt(s, p), q) {
      if q >= 0 { BitAtSet(s, p, q); }
    }
    BitAtSet(s, p, p);
  }

  lemma KeepsOn(a: Bytes, b: Bytes, c: Bytes)
    requires Keeps(a, b) && Keeps(b, c)
    ensures Keeps(a, c)
  {
  }

  lemma InArray(h: nat, bytes: nat)
    requires bytes > 0
    ensures bytes * 8 > 0 && h % (bytes * 8) / 8 < bytes
  {
  }

  /** Set the bits of one key. */
  method AddKey(bytes: array<Byte>, h0: nat, k: nat)
    requires bytes.Length > 0 && h0 < TWO_32
    modifies bytes
    ensures Keeps(old(bytes[..]), bytes[..]) && ProbesSet(bytes[..], bytes.Length * 8, h0, k)
    ensures AddsOnly(old(bytes[..]), bytes[..], bytes.Length * 8, h0, k)
  {
    assert AddsOnly(bytes[..], bytes[..], bytes.Length * 8, h0, 0);
    hide BitAt, Delta, Keeps, ProbesSet, AddsOnly;
    var bits := bytes.Length * 8;
    var h := h0;
    var delta := Delta(h);
    KeepsItself(bytes[..]);
    NoProbes(bytes[..], bits, h0);
    for j := 0 to k
      invariant h == Probe(h0, delta, j)
      invariant ProbesSet(bytes[..], bits, h0, j)
      invariant Keeps(old(bytes[..]), bytes[..])
      invariant AddsOnly(old(bytes[..]), bytes[..], bits, h0, j)
    {
      var bitpos := h % bits;
      InArray(h, bytes.Length);
      ghost var was := bytes[..];
      ByteKept(bytes[bitpos / 8], bitpos % 8);
      bytes[bitpos / 8] := SetBit(bytes[bitpos / 8], bitpos % 8);
      assert bytes[..] == SetBitAt(was, bitpos);
      SetKeeps(was, bitpos);
      KeepsOn(old(bytes[..]), was, bytes[..]);
      ProbesStay(was, bytes[..], bits, h0, j);
      OneMoreProbe(bytes[..], bits, h0, j);
      AddsOneMore(old(bytes[..]), was, bytes[..], bits, h0, j);
      h := (h + delta) % TWO_32;
    }
  }

  lemma KeepsItself(s: Bytes)
    ensures Keeps(s, s)
  {
  }

  lemma NoProbes(s: Bytes, bits: nat, h: nat)
    requires bits > 0 && h < TWO_32
    ensures ProbesSet(s, bits, h, 0)
  {
  }

  lemma OneMoreProbe(s: Bytes, bits: nat, h: nat, j: nat)
    requires bits > 0 && h < TWO_32 && ProbesSet(s, bits, h, j) && BitAt(s, Probe(h, Delta(h), j) % bits)
    ensures ProbesSet(s, bits, h, j + 1)
  {
  }

  /** Bytes of a filter: at least 64 bits, and one byte for the number of probes. */
  function FilterSize(keys: nat, bitsPerKey: nat): (n: nat)
    ensures n >= 9
  {
    var bits := keys * bitsPerKey;
    ((if bits < 64 then 64 else bits) + 7) / 8 + 1
  }

  /** A filter for some keys: k probes each, at least 64 bits, and k itself in the last byte. */
  method CreateFilter(hash: Hash, keys: seq<Bytes>, bitsPerKey: nat, k: nat) returns (filter: Bytes)
    requires HashFits(hash) && 1 <= k <= 30
    ensures |filter| == FilterSize(|keys|, bitsPerKey)
    ensures forall i :: 0 <= i < |keys| ==> Matches(hash, keys[i], filter)
    ensures OnlyKeys(hash, keys, filter[..|filter| - 1], (|filter| - 1) * 8, k) && filter[|filter| - 1] == k
  {
    var bits := |keys| * bitsPerKey;
    if bits < 64 {
      bits := 64;
    }
    var n := (bits + 7) / 8;
    var bytes := new Byte[n](i => 0);
    NoKeys(hash, bytes[..], n * 8, k);
    assert keys[..0] == [];
    hide ProbesSet, Keeps, OnlyKeys, AddsOnly;
    for i := 0 to |keys|
      invariant OnlyKeys(hash, keys[..i], bytes[..], n * 8, k)
      invariant forall j :: 0 <= j < i ==> ProbesSet(bytes[..], bytes.Length * 8, hash(keys[j]), k)
    {
      ghost var was := bytes[..];
      AddKey(bytes, hash(keys[i]), k);
      OnlyKeysMore(hash, keys, i, was, bytes[..], n * 8, k);
      forall j | 0 <= j < i ensures ProbesSet(bytes[..], bytes.Length * 8, hash(keys[j]), k) {
        ProbesStay(was, bytes[..], bytes.Length * 8, hash(keys[j]), k);
      }
    }
    filter := bytes[..] + [k];
    assert filter[..n] == bytes[..] && keys[..|keys|] == keys;
  }

  method KeyMayMatch(hash: Hash, key: Bytes, filter: Bytes) returns (may: bool)
    requires HashFits(hash)
    ensures may <==> Matches(hash, key, filter)
  {
    hide BitAt;
    var len := |filter|;
    if len < 2 {
      return false;
    }
    var bits := (len - 1) * 8;
    var k: nat := filter[len - 1];
    if k > 30 {
      return true;
    }
    var h := hash(key);
    var delta := Delta(h);
    for j := 0 to k
      invariant h == Probe(hash(key), delta, j)
      invariant ProbesSet(filter[..len - 1], bits, hash(key), j)
    {
      var bitpos := h % bits;
      if !BitAt(filter[..len - 1], bitpos) {
        return false;
      }
      h := (h + delta) % TWO_32;
    }
    return true;
  }
}
