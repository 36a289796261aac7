/** Iterating over a finished block: Block::Iter. */
module BlockIterators {
  import opened Wrappers
  import opened Coding
  import opened Blocks

  // ----- Decoding one entry -----

  /** The three lengths of an entry, and where its key bytes start. */
  datatype Decoded = Decoded(shared: nat, unshared: nat, length: nat, at: nat)

  function DecodeLengths(data: Bytes, p: nat, limit: nat): (r: Option<Decoded>)
    requires p <= limit <= |data|
    ensures r.Some? ==> p <= r.value.at <= limit
  {
    var a := GetVarint32(data[p..limit], 0);
    if a.None? then None
    else
      var p1 := p + a.value.1;
      var b := GetVarint32(data[p1..limit], 0);
      if b.None? then None
      else
        var p2 := p1 + b.value.1;
        var c := GetVarint32(data[p2..limit], 0);
        if c.None? then None else Some(Decoded(a.value.0, b.value.0, c.value.0, p2 + c.value.1))
  }

  /** DecodeEntry, with its fast path for three one-byte lengths and its 32-bit sum. */
  function DecodeEntry(data: Bytes, p: nat, limit: nat): (r: Option<Decoded>)
    requires p <= limit <= |data|
    ensures r.Some? ==> p <= r.value.at <= limit
  {
    if limit - p < 3 then None
    else
      var d := if data[p] < 128 && data[p + 1] < 128 && data[p + 2] < 128
               then Some(Decoded(data[p], data[p + 1], data[p + 2], p + 3))
               else DecodeLengths(data, p, limit);
      if d.None? || limit - d.value.at < (d.value.unshared + d.value.length) % TWO_32 then None else d
  }

  lemma ShortVarint(s: Bytes)
    requires s != [] && s[0] < 128
    ensures GetVarint32(s, 0) == Some((s[0] as nat, 1))
  {
    assert Pow128(0) == 1;
  }

  /** The fast path computes what the general one does. */
  lemma FastPathAgrees(data: Bytes, p: nat, limit: nat)
    requires p + 3 <= limit <= |data| && data[p] < 128 && data[p + 1] < 128 && data[p + 2] < 128
    ensures DecodeLengths(data, p, limit) == Some(Decoded(data[p], data[p + 1], data[p + 2], p + 3))
  {
    hide GetVarint32;
    ShortVarint(data[p..limit]);
    ShortVarint(data[p + 1..limit]);
    ShortVarint(data[p + 2..limit]);
  }

  lemma VarintAt(data: Bytes, p: nat, limit: nat, v: nat, rest: Bytes)
    requires p <= limit <= |data| && v < TWO_32 && data[p..limit] == Varint(v) + rest
    ensures GetVarint32(data[p..limit], 0) == Some((v, |Varint(v)|))
    ensures p + |Varint(v)| <= limit && data[p + |Varint(v)|..limit] == rest
  {
    hide GetVarint32, Varint;
    assert Pow128(0) == 1;
    ReadVarint(v, 0, rest);
    assert data[p..limit][|Varint(v)|..] == data[p + |Varint(v)|..limit];
  }

  lemma PiecesAt(data: Bytes, at: nat, limit: nat, k: Bytes, v: Bytes, rest: Bytes)
    requires at <= limit <= |data| && data[at..limit] == k + v + rest
    ensures at + |k| + |v| <= limit
    ensures data[at..at + |k|] == k && data[at + |k|..at + |k| + |v|] == v
  {
    SliceOfSlice(data, at, limit, 0, |k|);
    SliceOfSlice(data, at, limit, |k|, |k| + |v|);
  }

  /** Decoding at p reads entry e, of which `shared` key bytes are left out, up to `next`. */
  ghost predicate ReadsAs(data: Bytes, p: nat, limit: nat, e: KeyValue, shared: nat, next: nat)
    requires p <= limit <= |data|
  {
    var d := DecodeEntry(data, p, limit);
    && d.Some? && next <= limit && shared <= |e.key|
    && d.value.shared == shared && d.value.unshared == |e.key| - shared && d.value.length == |e.value|
    && d.value.at + d.value.unshared + d.value.length == next
    && data[d.value.at..d.value.at + d.value.unshared] == e.key[shared..]
    && data[d.value.at + d.value.unshared..next] == e.value
  }

  lemma LengthsWritten(data: Bytes, p: nat, limit: nat, a: nat, b: nat, c: nat, tail: Bytes)
    requires p <= limit <= |data| && a < TWO_32 && b < TWO_32 && c < TWO_32
    requires data[p..limit] == Header(a, b, c) + tail
    ensures var at := p + |Header(a, b, c)|;
            && DecodeLengths(data, p, limit) == Some(Decoded(a, b, c, at))
            && p + 3 <= at <= limit && data[at..limit] == tail
  {
    hide GetVarint32;
    assert |Varint(a)| > 0 && |Varint(b)| > 0 && |Varint(c)| > 0;
    hide Varint;
    assert data[p..limit] == Varint(a) + (Varint(b) + (Varint(c) + tail));
    VarintAt(data, p, limit, a, Varint(b) + (Varint(c) + tail));
    var p1 := p + |Varint(a)|;
    VarintAt(data, p1, limit, b, Varint(c) + tail);
    VarintAt(data, p1 + |Varint(b)|, limit, c, tail);
  }

  /** Decoding at the start of an entry gives the lengths it was written with. */
  lemma DecodeWritten(data: Bytes, p: nat, limit: nat, e: KeyValue, shared: nat, rest: Bytes)
    requires p <= limit <= |data| && shared <= |e.key| && |e.key| + |e.value| < TWO_32
    requires data[p..limit] == EntryBytes(e, shared) + rest
    ensures ReadsAs(data, p, limit, e, shared, p + |EntryBytes(e, shared)|)
  {
    hide DecodeLengths, Header;
    var u, n := |e.key| - shared, |e.value|;
    var tail := e.key[shared..] + e.value + rest;
    assert data[p..limit] == Header(shared, u, n) + tail;
    LengthsWritten(data, p, limit, shared, u, n, tail);
    if data[p] < 128 && data[p + 1] < 128 && data[p + 2] < 128 { FastPathAgrees(data, p, limit); }
    PiecesAt(data, p + |Header(shared, u, n)|, limit, e.key[shared..], e.value, rest);
  }

  // ----- The parts of a block -----

  lemma {:induction false} FixedAt(offsets: seq<nat>, k: nat)
    requires (forall i :: 0 <= i < |offsets| ==> offsets[i] < TWO_32) && k < |offsets|
    ensures LoadLE(Fixed(offsets)[4 * k..4 * k + 4]) == offsets[k]
  {
    hide EncodeFixed32;
    var n := |offsets| - 1;
    var front := Fixed(offsets[..n]);
    if k == n {
      assert Fixed(offsets)[4 * k..4 * k + 4] == EncodeFixed32(offsets[n]);
    } else {
      FixedAt(offsets[..n], k);
      assert Fixed(offsets)[4 * k..4 * k + 4] == front[4 * k..4 * k + 4];
    }
  }

  /** Where a block's restart array starts and how long it is. */
  ghost predicate BlockParts(block: Bytes, es: seq<KeyValue>, interval: nat, restarts: nat, count: nat)
    requires interval > 0
  {
    && IsBlock(block, es, interval)
    && restarts == Offset(es, interval, |es|) && count == |RestartEntries(|es|, interval)|
  }

  /** Block::Block: the restart count at the end of the block gives the rest. */
  method OpenBlock(block: Bytes, ghost es: seq<KeyValue>, ghost interval: nat) returns (restarts: nat, count: nat)
    requires interval > 0 && IsBlock(block, es, interval)
    ensures BlockParts(block, es, interval, restarts, count)
  {
    hide Data, Fixed, EncodeFixed32, LoadLE;
    ghost var r := Restarts(es, interval, |es|);
    assert block[|block| - 4..] == EncodeFixed32(|r|);
    count := LoadLE(block[|block| - 4..]);
    restarts := |block| - (1 + count) * 4;
  }

  lemma RestartPointIs(block: Bytes, es: seq<KeyValue>, interval: nat, restarts: nat, count: nat, k: nat)
    requires interval > 0 && BlockParts(block, es, interval, restarts, count) && k < count
    ensures restarts + 4 * k + 4 <= |block|
    ensures RestartEntries(|es|, interval)[k] <= |es|
    ensures LoadLE(block[restarts + 4 * k..restarts + 4 * k + 4]) == Offset(es, interval, RestartEntries(|es|, interval)[k])
  {
    hide Data, Fixed, EncodeFixed32, LoadLE;
    var r := Restarts(es, interval, |es|);
    FixedAt(r, k);
    assert block[restarts + 4 * k..restarts + 4 * k + 4] == Fixed(r)[4 * k..4 * k + 4];
  }

  /** A key is never longer than the block up to its end, however much of it is shared. */
  lemma {:induction false} KeyFits(es: seq<KeyValue>, interval: nat, i: nat)
    requires interval > 0 && i < |es|
    ensures |es[i].key| + |es[i].value| <= Offset(es, interval, i + 1)
  {
    EntrySize(es[i], SharedAt(es, interval, i));
    EntryAt(es, interval, i, i + 1);
    hide Data, EntryBytes, SharedAt;
    if i > 0 { KeyFits(es, interval, i - 1); } else { FirstSharesNothing(es, interval); }
  }

  lemma FirstSharesNothing(es: seq<KeyValue>, interval: nat)
    requires interval > 0 && es != []
    ensures SharedAt(es, interval, 0) == 0
  {
    WholeRemainder(interval);
  }

  /** Entry i, decoded at its offset. */
  lemma EntryDecodes(block: Bytes, es: seq<KeyValue>, interval: nat, restarts: nat, count: nat, i: nat)
    requires interval > 0 && BlockParts(block, es, interval, restarts, count) && i < |es|
    ensures Offset(es, interval, i) < Offset(es, interval, i + 1) <= restarts <= |block|
    ensures ReadsAs(block, Offset(es, interval, i), restarts, es[i], SharedAt(es, interval, i), Offset(es, interval, i + 1))
  {
    hide Data, EntryBytes, ReadsAs, SharedAt, BlockParts, DecodeEntry;
    var p, shared, next := Offset(es, interval, i), SharedAt(es, interval, i), Offset(es, interval, i + 1);
    var all := Data(es, interval, |es|);
    EntryAt(es, interval, i, |es|);
    KeyFits(es, interval, i);
    FrontIsData(block, es, interval, restarts, count);
    PartsOffset(block, es, interval, restarts, count);
    assert block[p..restarts] == block[..restarts][p..];
    assert all[p..] == all[p..next] + all[next..];
    DecodeWritten(block, p, restarts, es[i], shared, all[next..]);
  }

  lemma FrontIsData(block: Bytes, es: seq<KeyValue>, interval: nat, restarts: nat, count: nat)
    requires interval > 0 && BlockParts(block, es, interval, restarts, count)
    ensures restarts <= |block| && restarts < TWO_32 && block[..restarts] == Data(es, interval, |es|)
  {
    hide Data, Fixed, EncodeFixed32;
  }

  lemma EntrySize(e: KeyValue, shared: nat)
    requires shared <= |e.key|
    ensures |EntryBytes(e, shared)| == |Header(shared, |e.key| - shared, |e.value|)| + |e.key| - shared + |e.value|
  {
  }

  // ----- The iterator -----

  /** The restart point whose region holds entry i, or the one before if i is a restart point. */
  ghost predicate InRegion(es: seq<KeyValue>, interval: nat, r: nat, i: nat)
    requires interval > 0
  {
    var entries := RestartEntries(|es|, interval);
    r < |entries| && entries[r] <= i && (r + 1 < |entries| ==> i <= entries[r + 1])
  }

  /** The key bytes at hand are those that entry i leaves out. */
  ghost predicate HasShared(es: seq<KeyValue>, interval: nat, i: nat, key: Bytes)
    requires interval > 0
  {
    i < |es| ==> SharedAt(es, interval, i) <= |key| && key[..SharedAt(es, interval, i)] == es[i].key[..SharedAt(es, interval, i)]
  }

  lemma OffsetOrder(es: seq<KeyValue>, interval: nat, a: nat, b: nat)
    requires interval > 0 && a <= |es| && b <= |es|
    ensures Offset(es, interval, a) < Offset(es, interval, b) <==> a < b
  {
    hide Data;
    if a < b { OffsetsIncrease(es, interval, a, b); } else if b < a { OffsetsIncrease(es, interval, b, a); }
  }

  class Iter {
    const data: Bytes
    const restarts: nat
    const numRestarts: nat
    var current: nat
    var restartIndex: nat
    var key: Bytes
    var valueOffset: nat
    var valueLength: nat

    ghost const es: seq<KeyValue>
    ghost const interval: nat

    /** The index of the current entry; their number when the iterator is not valid. */
    ghost var at: nat

    ghost predicate Opened() {
      interval > 0 && BlockParts(data, es, interval, restarts, numRestarts)
    }

    ghost predicate Valid()
      reads this
    {
      && Opened() && at <= |es|
      && (at == |es| ==> current == restarts && restartIndex == numRestarts)
      && (at < |es| ==>
           && current == Offset(es, interval, at) && current < restarts
           && key == es[at].key
           && valueOffset + valueLength == Offset(es, interval, at + 1) <= |data|
           && data[valueOffset..valueOffset + valueLength] == es[at].value
           && InRegion(es, interval, restartIndex, at))
    }

    /** The next entry to parse is i. */
    ghost predicate Before(i: nat)
      reads this
    {
      && Opened() && i <= |es|
      && valueOffset + valueLength == Offset(es, interval, i)
      && HasShared(es, interval, i, key)
      && restartIndex < numRestarts && RestartEntries(|es|, interval)[restartIndex] <= i
    }

    constructor (data: Bytes, ghost es: seq<KeyValue>, ghost interval: nat)
      requires interval > 0 && IsBlock(data, es, interval)
      ensures Valid() && this.data == data && this.es == es && this.interval == interval && at == |es|
    {
      var r, c := OpenBlock(data, es, interval);
      this.data, this.es, this.interval, restarts, numRestarts := data, es, interval, r, c;
      current, restartIndex, key, valueOffset, valueLength := r, c, [], 0, 0;
      at := |es|;
    }

    predicate IsValid()
      reads this
    {
      current < restarts
    }

    function Key(): (k: Bytes)
      requires Valid() && IsValid()
      reads this
      ensures at < |es| && k == es[at].key
    {
      key
    }

    function Value(): (v: Bytes)
      requires Valid() && IsValid()
      reads this
      ensures at < |es| && v == es[at].value
    {
      data[valueOffset..valueOffset + valueLength]
    }

    function GetRestartPoint(index: nat): (p: nat)
      requires Opened() && index < numRestarts
      ensures RestartEntries(|es|, interval)[index] <= |es|
      ensures p == Offset(es, interval, RestartEntries(|es|, interval)[index])
    {
      RestartPointIs(data, es, interval, restarts, numRestarts, index);
      LoadLE(data[restarts + 4 * index..restarts + 4 * index + 4])
    }

    method SeekToRestartPoint(index: nat)
      requires Opened() && index < numRestarts
      modifies this
      ensures Before(RestartEntries(|es|, interval)[index]) && restartIndex == index
    {
      hide Data, BlockParts;
      PartsOffset(data, es, interval, restarts, numRestarts);
      key := [];
      restartIndex := index;
      valueOffset, valueLength := GetRestartPoint(index), 0;
    }

    method ParseNextKey(ghost i: nat) returns (ok: bool)
      requires Before(i)
      modifies this
      ensures Valid() && at == i && ok == (i < |es|)
    {
      hide Data, BlockParts, SharedAt, DecodeEntry, RestartEntries;
      at := i;
      OffsetOrder(es, interval, i, |es|);
      assert restarts == Offset(es, interval, |es|) by { PartsOffset(data, es, interval, restarts, numRestarts); }
      current := valueOffset + valueLength;
      if current >= restarts {
        current := restarts;
        restartIndex := numRestarts;
        return false;
      }
      EntryDecodes(data, es, interval, restarts, numRestarts, i);
      var d := DecodeEntry(data, current, restarts).value;
      key := key[..d.shared] + data[d.at..d.at + d.unshared];
      assert key == es[i].key;
      valueOffset, valueLength := d.at + d.unshared, d.length;
      AdvanceRestart(i);
      ok := true;
    }

    /** Move the restart index up to the region of entry i. */
    method AdvanceRestart(ghost i: nat)
      requires Opened() && i < |es| && current == Offset(es, interval, i)
      requires restartIndex < numRestarts && RestartEntries(|es|, interval)[restartIndex] <= i
      modifies `restartIndex
      ensures InRegion(es, interval, restartIndex, i)
    {
      hide Data, RestartEntries;
      while restartIndex + 1 < numRestarts && GetRestartPoint(restartIndex + 1) < current
        invariant restartIndex < numRestarts && RestartEntries(|es|, interval)[restartIndex] <= i
        decreases numRestarts - restartIndex
      {
        OffsetOrder(es, interval, RestartEntries(|es|, interval)[restartIndex + 1], i);
        restartIndex := restartIndex + 1;
      }
      if restartIndex + 1 < numRestarts {
        ghost var p := GetRestartPoint(restartIndex + 1);
        OffsetOrder(es, interval, RestartEntries(|es|, interval)[restartIndex + 1], i);
      }
    }

    method SeekToFirst()
      requires Valid()
      modifies this
      ensures Valid() && at == 0
    {
      hide Data, BlockParts, Offset;
      assert 0 < numRestarts by { PartsOffset(data, es, interval, restarts, numRestarts); }
      SeekToRestartPoint(0);
      var _ := ParseNextKey(0);
    }

    method Next()
      requires Valid() && IsValid()
      modifies this
      ensures Valid() && at == old(at) + 1
    {
      hide Data, RestartEntries, BlockParts;
      NextShares(es, interval, at);
      PartsOffset(data, es, interval, restarts, numRestarts);
      var _ := ParseNextKey(at + 1);
    }

    method SeekToLast()
      requires Valid()
      modifies this
      ensures Valid() && at == if es == [] then 0 else |es| - 1
    {
      hide Data, BlockParts, RestartEntries, Offset;
      PartsOffset(data, es, interval, restarts, numRestarts);
      SeekToRestartPoint(numRestarts - 1);
      ghost var next := RestartEntries(|es|, interval)[numRestarts - 1];
      var ok := ParseNextKey(next);
      while ok && valueOffset + valueLength < restarts
        invariant Valid() && ok == (at < |es|) && (es == [] ==> at == 0) && (es != [] ==> at < |es|)
        decreases |es| - at
      {
        OffsetOrder(es, interval, at + 1, |es|);
        NextShares(es, interval, at);
        ok := ParseNextKey(at + 1);
      }
      if ok { OffsetOrder(es, interval, at + 1, |es|); }
    }

    /** Back to the last restart point before the current entry, if there is one. */
    method RestartBefore() returns (found: bool)
      requires Valid() && at < |es|
      modifies `restartIndex
      ensures found ==> restartIndex < numRestarts == |RestartEntries(|es|, interval)|
      ensures found ==> RestartEntries(|es|, interval)[restartIndex] < at
      ensures !found ==> at == 0
    {
      hide Data, BlockParts, RestartEntries, Offset;
      PartsOffset(data, es, interval, restarts, numRestarts);
      while GetRestartPoint(restartIndex) >= current
        invariant restartIndex < numRestarts
        decreases restartIndex
      {
        OffsetOrder(es, interval, RestartEntries(|es|, interval)[restartIndex], at);
        if restartIndex == 0 {
          return false;
        }
        restartIndex := restartIndex - 1;
      }
      OffsetOrder(es, interval, RestartEntries(|es|, interval)[restartIndex], at);
      found := true;
    }

    /** Back to a restart point, then forward to the entry before the current one. */
    method Prev()
      requires Valid() && IsValid()
      modifies this
      ensures Valid() && at == if old(at) == 0 then |es| else old(at) - 1
    {
      hide Data, BlockParts, RestartEntries, Offset;
      var original := current;
      ghost var i := at;
      var found := RestartBefore();
      if !found {
        current := restarts;
        restartIndex := numRestarts;
        at := |es|;
        return;
      }
      ghost var first := RestartEntries(|es|, interval)[restartIndex];
      SeekToRestartPoint(restartIndex);
      var ok := ParseNextKey(first);
      while ok && valueOffset + valueLength < original
        invariant Valid() && ok && at < i < |es| && original == Offset(es, interval, i)
        decreases i - at
      {
        OffsetOrder(es, interval, at + 1, i);
        NextShares(es, interval, at);
        ok := ParseNextKey(at + 1);
      }
      OffsetOrder(es, interval, at + 1, i);
    }

    ghost predicate RestartBelow(k: nat, target: Bytes, less: (Bytes, Bytes) -> bool)
      requires interval > 0
    {
      var entries := RestartEntries(|es|, interval);
      k < |entries| && entries[k] < |es| && less(es[entries[k]].key, target)
    }

    /** The last restart point whose key is below the target, or the first. */
    method FindRestart(target: Bytes, less: (Bytes, Bytes) -> bool) returns (left: nat)
      requires Opened()
      ensures left < numRestarts && left < |RestartEntries(|es|, interval)|
      ensures left > 0 ==> RestartBelow(left, target, less)
      ensures left + 1 < numRestarts ==> !RestartBelow(left + 1, target, less)
    {
      hide Data, BlockParts, RestartEntries, Offset, SharedAt, DecodeEntry;
      PartsOffset(data, es, interval, restarts, numRestarts);
      left := 0;
      var right := numRestarts - 1;
      while left < right
        invariant left <= right < numRestarts
        invariant left > 0 ==> RestartBelow(left, target, less)
        invariant right + 1 < numRestarts ==> !RestartBelow(right + 1, target, less)
        decreases right - left
      {
        var mid := (left + right + 1) / 2;
        var p := GetRestartPoint(mid);
        ghost var i := RestartEntries(|es|, interval)[mid];
        WholeKeyAt(mid);
        var d := DecodeEntry(data, p, restarts).value;
        var midKey := data[d.at..d.at + d.unshared];
        if less(midKey, target) {
          left := mid;
        } else {
          right := mid - 1;
        }
      }
    }

    /** A restart point other than the first stores its whole key. */
    lemma WholeKeyAt(k: nat)
      requires Opened() && 0 < k < numRestarts
      ensures k < |RestartEntries(|es|, interval)| && RestartEntries(|es|, interval)[k] < |es|
      ensures var i := RestartEntries(|es|, interval)[k];
              var p := Offset(es, interval, i);
              && p <= restarts <= |data|
              && var d := DecodeEntry(data, p, restarts);
              && d.Some? && d.value.shared == 0 && d.value.at + d.value.unshared <= restarts
              && data[d.value.at..d.value.at + d.value.unshared] == es[i].key
    {
      hide Data, BlockParts, DecodeEntry, CommonPrefix, Offset;
      PartsOffset(data, es, interval, restarts, numRestarts);
      var i := RestartEntries(|es|, interval)[k];
      assert RestartEntries(|es|, interval)[0] < i;
      EntryDecodes(data, es, interval, restarts, numRestarts, i);
      assert es[i].key[0..] == es[i].key;
    }

    lemma AllBelowRestart(k: nat, target: Bytes, less: (Bytes, Bytes) -> bool)
      requires interval > 0 && k < |RestartEntries(|es|, interval)| && (k > 0 ==> RestartBelow(k, target, less))
      requires forall a, b :: 0 <= a < b < |es| && less(es[b].key, target) ==> less(es[a].key, target)
      ensures RestartEntries(|es|, interval)[k] <= |es|
      ensures forall j :: 0 <= j < RestartEntries(|es|, interval)[k] ==> less(es[j].key, target)
    {
    }

    /** The first entry whose key is not below the target. */
    method Seek(target: Bytes, less: (Bytes, Bytes) -> bool)
      requires Valid()
      requires forall a, b :: 0 <= a < b < |es| && less(es[b].key, target) ==> less(es[a].key, target)
      modifies this
      ensures Valid()
      ensures forall j :: 0 <= j < at ==> less(es[j].key, target)
      ensures at < |es| ==> !less(es[at].key, target)
    {
      hide Data, BlockParts, RestartEntries, Offset, RestartBelow;
      PartsOffset(data, es, interval, restarts, numRestarts);
      var left := FindRestart(target, less);
      AllBelowRestart(left, target, less);
      SeekToRestartPoint(left);
      ghost var i := RestartEntries(|es|, interval)[left];
      var ok := ParseNextKey(i);
      while ok && less(key, target)
        invariant Valid() && ok == (at < |es|)
        invariant forall j :: 0 <= j < at ==> less(es[j].key, target)
        decreases |es| - at
      {
        NextShares(es, interval, at);
        ok := ParseNextKey(at + 1);
      }
    }
  }

  lemma PartsOffset(block: Bytes, es: seq<KeyValue>, interval: nat, restarts: nat, count: nat)
    requires interval > 0 && BlockParts(block, es, interval, restarts, count)
    ensures restarts == Offset(es, interval, |es|) && count == |RestartEntries(|es|, interval)| > 0
  {
  }

  /** The key just read supplies what the next entry leaves out. */
  lemma NextShares(es: seq<KeyValue>, interval: nat, i: nat)
    requires interval > 0 && i < |es|
    ensures HasShared(es, interval, i + 1, es[i].key)
  {
    hide CommonPrefix;
    if i + 1 < |es| { assert es[i + 1 - 1] == es[i]; }
  }
}
