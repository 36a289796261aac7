/** Prefix-compressed blocks with restart points: the format and its builder. */
module Blocks {
  import opened Coding

  datatype KeyValue = KeyValue(key: Bytes, value: Bytes)

  // ----- The format -----

  function CommonPrefix(a: Bytes, b: Bytes): (n: nat)
    ensures n <= |a| && n <= |b| && a[..n] == b[..n]
  {
    if a != [] && b != [] && a[0] == b[0] then
      var n := CommonPrefix(a[1..], b[1..]);
      assert a[..n + 1] == [a[0]] + a[1..][..n] && b[..n + 1] == [b[0]] + b[1..][..n];
      n + 1
    else 0
  }

  /** How much of key i is left out: nothing at a restart point. */
  function SharedAt(es: seq<KeyValue>, interval: nat, i: nat): (n: nat)
    requires interval > 0 && i < |es|
    ensures n <= |es[i].key|
    ensures i > 0 ==> n <= |es[i - 1].key| && es[i - 1].key[..n] == es[i].key[..n]
    ensures i % interval == 0 ==> n == 0
  {
    if i % interval == 0 then
      0
    else
      assert i > 0;
      CommonPrefix(es[i - 1].key, es[i].key)
  }

  function Header(shared: nat, unshared: nat, length: nat): Bytes {
    Varint(shared) + Varint(unshared) + Varint(length)
  }

  function EntryBytes(e: KeyValue, shared: nat): Bytes
    requires shared <= |e.key|
  {
    Header(shared, |e.key| - shared, |e.value|) + e.key[shared..] + e.value
  }

  /** The first n entries. */
  function Data(es: seq<KeyValue>, interval: nat, n: nat): Bytes
    requires interval > 0 && n <= |es|
  {
    if n == 0 then [] else Data(es, interval, n - 1) + EntryBytes(es[n - 1], SharedAt(es, interval, n - 1))
  }

  /** Where entry i starts. */
  function Offset(es: seq<KeyValue>, interval: nat, i: nat): nat
    requires interval > 0 && i <= |es|
  {
    |Data(es, interval, i)|
  }

  /** The entries that are restart points: the first, and then one in every interval. */
  function RestartEntries(n: nat, interval: nat): (r: seq<nat>)
    requires interval > 0
    ensures |r| > 0 && r[0] == 0
    ensures forall k :: 0 <= k < |r| ==> r[k] % interval == 0 && (r[k] == 0 || r[k] < n)
    ensures forall k, l :: 0 <= k < l < |r| ==> r[k] < r[l]
    decreases n
  {
    if n <= 1 then
      assert 0 % interval == 0;
      [0]
    else if (n - 1) % interval == 0 then RestartEntries(n - 1, interval) + [n - 1]
    else RestartEntries(n - 1, interval)
  }

  function Restarts(es: seq<KeyValue>, interval: nat, n: nat): (r: seq<nat>)
    requires interval > 0 && n <= |es|
    ensures |r| == |RestartEntries(n, interval)|
  {
    var entries := RestartEntries(n, interval);
    seq(|entries|, k requires 0 <= k < |entries| => Offset(es, interval, entries[k]))
  }

  function Fixed(offsets: seq<nat>): (s: Bytes)
    requires forall i :: 0 <= i < |offsets| ==> offsets[i] < TWO_32
    ensures |s| == 4 * |offsets|
  {
    if offsets == [] then []
    else Fixed(offsets[..|offsets| - 1]) + EncodeFixed32(offsets[|offsets| - 1])
  }

  /** Offsets and lengths fit in 32 bits. */
  ghost predicate Small(es: seq<KeyValue>, interval: nat)
    requires interval > 0
  {
    |Data(es, interval, |es|)| + 4 * |Restarts(es, interval, |es|)| + 4 < TWO_32
  }

  ghost predicate IsBlock(block: Bytes, es: seq<KeyValue>, interval: nat)
    requires interval > 0
  {
    var restarts := Restarts(es, interval, |es|);
    && Small(es, interval)
    && (forall i :: 0 <= i < |restarts| ==> restarts[i] < TWO_32)
    && block == Data(es, interval, |es|) + Fixed(restarts) + EncodeFixed32(|restarts|)
  }

  // ----- Where things are -----

  lemma {:induction false} DataPrefix(es: seq<KeyValue>, interval: nat, i: nat, n: nat)
    requires interval > 0 && i <= n <= |es|
    ensures Data(es, interval, i) <= Data(es, interval, n)
    decreases n
  {
    hide EntryBytes;
    if i < n { DataPrefix(es, interval, i, n - 1); }
  }

  /** The entry's own bytes sit between its offset and the next. */
  lemma EntryAt(es: seq<KeyValue>, interval: nat, i: nat, n: nat)
    requires interval > 0 && i < n <= |es|
    ensures Offset(es, interval, i) < Offset(es, interval, i + 1) <= Offset(es, interval, n)
    ensures Data(es, interval, n)[Offset(es, interval, i)..Offset(es, interval, i + 1)]
         == EntryBytes(es[i], SharedAt(es, interval, i))
  {
    EntryNotEmpty(es[i], SharedAt(es, interval, i));
    hide EntryBytes;
    DataPrefix(es, interval, i + 1, n);
  }

  lemma EntryNotEmpty(e: KeyValue, shared: nat)
    requires shared <= |e.key|
    ensures |EntryBytes(e, shared)| >= 3
  {
    assert |Varint(shared)| > 0 && |Varint(|e.key| - shared)| > 0 && |Varint(|e.value|)| > 0;
  }

  lemma {:induction false} OffsetsIncrease(es: seq<KeyValue>, interval: nat, i: nat, j: nat)
    requires interval > 0 && i < j <= |es|
    ensures Offset(es, interval, i) < Offset(es, interval, j)
    decreases j
  {
    hide Data;
    EntryAt(es, interval, j - 1, j);
    if i < j - 1 { OffsetsIncrease(es, interval, i, j - 1); }
  }

  // ----- The builder -----

  lemma {:induction false} DataOfMore(es: seq<KeyValue>, e: KeyValue, interval: nat, n: nat)
    requires interval > 0 && n <= |es|
    ensures Data(es + [e], interval, n) == Data(es, interval, n)
    decreases n
  {
    hide EntryBytes, CommonPrefix;
    if n > 0 {
      DataOfMore(es, e, interval, n - 1);
      assert (es + [e])[n - 1] == es[n - 1];
      if n > 1 { assert (es + [e])[n - 2] == es[n - 2]; }
    }
  }

  lemma RestartsOfMore(es: seq<KeyValue>, e: KeyValue, interval: nat)
    requires interval > 0
    ensures var n := |es|;
            Restarts(es + [e], interval, n + 1) ==
              if n > 0 && n % interval == 0 then Restarts(es, interval, n) + [Offset(es, interval, n)]
              else Restarts(es, interval, n)
  {
    hide Data;
    var n := |es|;
    forall k: nat | k <= n ensures Offset(es + [e], interval, k) == Offset(es, interval, k) {
      DataOfMore(es, e, interval, k);
    }
  }

  lemma RemainderIs(x: nat, m: nat, q: nat, r: nat)
    requires r < m && x == m * q + r
    ensures x % m == r
  {
    var k := x / m - q;
    assert x == m * (x / m) + x % m;
    assert m * (q + k) == m * q + m * k;
    SmallMultiple(m, k);
  }

  lemma SmallMultiple(m: int, k: int)
    requires -m < m * k < m
    ensures k == 0
  {
  }

  /** Counting on keeps remainders equal. */
  lemma RemainderNext(a: nat, b: nat, m: nat)
    requires m > 0 && a % m == b % m
    ensures (a + 1) % m == (b + 1) % m
  {
    var p, q, r := a / m, b / m, a % m;
    assert a == m * p + r && b == m * q + r;
    if r + 1 < m {
      RemainderIs(a + 1, m, p, r + 1);
      RemainderIs(b + 1, m, q, r + 1);
    } else {
      assert m * (p + 1) == m * p + m && m * (q + 1) == m * q + m;
      RemainderIs(a + 1, m, p + 1, 0);
      RemainderIs(b + 1, m, q + 1, 0);
    }
  }

  lemma SmallRemainder(a: nat, m: nat)
    requires a < m
    ensures a % m == a
  {
    RemainderIs(a, m, 0, a);
  }

  lemma WholeRemainder(m: nat)
    requires m > 0
    ensures m % m == 0 && 0 % m == 0
  {
    RemainderIs(m, m, 1, 0);
    RemainderIs(0, m, 0, 0);
  }

  /** The bytes that one more entry adds. */
  lemma DataNext(es: seq<KeyValue>, e: KeyValue, interval: nat, shared: nat)
    requires interval > 0
    requires shared == if |es| % interval == 0 then 0 else CommonPrefix(es[|es| - 1].key, e.key)
    ensures shared <= |e.key|
    ensures Data(es + [e], interval, |es| + 1) == Data(es, interval, |es|) + EntryBytes(e, shared)
  {
    hide EntryBytes, CommonPrefix;
    DataOfMore(es, e, interval, |es|);
    assert (es + [e])[|es|] == e;
    if |es| > 0 { assert (es + [e])[|es| - 1] == es[|es| - 1]; }
  }

  class BlockBuilder {
    const interval: nat
    var buffer: Bytes
    var restarts: seq<nat>
    var counter: nat
    var lastKey: Bytes

    ghost var entries: seq<KeyValue>

    ghost predicate Valid()
      reads this
    {
      && interval > 0
      && buffer == Data(entries, interval, |entries|)
      && restarts == Restarts(entries, interval, |entries|)
      && lastKey == (if entries == [] then [] else entries[|entries| - 1].key)
      && counter <= interval && (entries == [] <==> counter == 0)
      && counter % interval == |entries| % interval
    }

    constructor (interval: nat)
      requires interval > 0
      ensures Valid() && this.interval == interval && entries == []
    {
      this.interval := interval;
      buffer, restarts, counter, lastKey, entries := [], [0], 0, [], [];
      new;
      assert 0 % interval == 0;
    }

    /** How much of the last key the new one shares. */
    method FindShared(key: Bytes) returns (shared: nat)
      ensures shared == CommonPrefix(lastKey, key)
    {
      shared := 0;
      assert lastKey[0..] == lastKey && key[0..] == key;
      while shared < |lastKey| && shared < |key| && lastKey[shared] == key[shared]
        invariant shared <= |lastKey| && shared <= |key|
        invariant CommonPrefix(lastKey, key) == shared + CommonPrefix(lastKey[shared..], key[shared..])
      {
        assert lastKey[shared..][1..] == lastKey[shared + 1..] && key[shared..][1..] == key[shared + 1..];
        shared := shared + 1;
      }
    }

    /** Share with the last key, or start a new restart point. */
    method StartEntry(key: Bytes) returns (shared: nat)
      requires Valid()
      modifies `restarts, `counter
      ensures shared == if |entries| % interval == 0 then 0 else CommonPrefix(lastKey, key)
      ensures restarts == if entries != [] && |entries| % interval == 0 then old(restarts) + [|buffer|] else old(restarts)
      ensures counter < interval && (counter + 1) % interval == (|entries| + 1) % interval
    {
      hide Data, Restarts, CommonPrefix;
      RemainderNext(counter, |entries|, interval);
      WholeRemainder(interval);
      if counter < interval {
        SmallRemainder(counter, interval);
        shared := FindShared(key);
        if entries == [] { NothingShared(lastKey, key); }
      } else {
        shared := 0;
        restarts := restarts + [|buffer|];
        RemainderNext(0, |entries|, interval);
        counter := 0;
      }
    }

    method Add(key: Bytes, value: Bytes)
      requires Valid() && |key| < TWO_32 && |value| < TWO_32
      modifies this
      ensures Valid() && entries == old(entries) + [KeyValue(key, value)]
    {
      hide Data, Restarts, CommonPrefix, Varint, EncodeVarint32;
      ghost var es, e := entries, KeyValue(key, value);
      RestartsOfMore(es, e, interval);
      var shared := StartEntry(key);
      if es == [] { WholeRemainder(interval); }
      DataNext(es, e, interval, shared);
      var unshared := |key| - shared;
      EncodeVarint32IsVarint(shared);
      EncodeVarint32IsVarint(unshared);
      EncodeVarint32IsVarint(|value|);
      ghost var was := buffer;
      buffer := buffer + EncodeVarint32(shared) + EncodeVarint32(unshared) + EncodeVarint32(|value|);
      buffer := buffer + key[shared..] + value;
      assert buffer == was + EntryBytes(e, shared);
      lastKey := lastKey[..shared] + key[shared..];
      assert lastKey == key;
      counter := counter + 1;
      entries := entries + [e];
    }

    /** The finished block: the entries, the restart array and its length. */
    method Finish() returns (block: Bytes)
      requires Valid() && Small(entries, interval)
      ensures IsBlock(block, entries, interval)
    {
      hide Data;
      RestartsFit(entries, interval);
      block := buffer;
      for i := 0 to |restarts|
        invariant block == buffer + Fixed(restarts[..i])
      {
        assert restarts[..i + 1][..i] == restarts[..i];
        block := block + EncodeFixed32(restarts[i]);
      }
      assert restarts[..|restarts|] == restarts;
      block := block + EncodeFixed32(|restarts|);
    }
  }

  lemma RestartsFit(es: seq<KeyValue>, interval: nat)
    requires interval > 0 && Small(es, interval)
    ensures forall i :: 0 <= i < |Restarts(es, interval, |es|)| ==> Restarts(es, interval, |es|)[i] < TWO_32
  {
    var r := Restarts(es, interval, |es|);
    forall i | 0 <= i < |r| ensures r[i] < TWO_32 {
      DataPrefix(es, interval, RestartEntries(|es|, interval)[i], |es|);
    }
  }

  lemma NothingShared(a: Bytes, b: Bytes)
    requires a == []
    ensures CommonPrefix(a, b) == 0
  {
  }
}
