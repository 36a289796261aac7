/** Tables as bytes: blocks of encoded internal keys, and the point lookup through them. */
module StoredTables {
  import opened Wrappers
  import opened Coding
  import opened Separators
  import opened BloomFilters
  import opened FilterBlocks
  import opened Blocks
  import opened BlockIterators
  import opened Tables

  // ----- Internal keys as bytes -----

  /** The n low bytes of v, low byte first. */
  function LowBytes(v: nat, n: nat): (s: Bytes)
    ensures |s| == n
  {
    if n == 0 then [] else [v % 256] + LowBytes(v / 256, n - 1)
  }

  lemma {:induction false} LoadLowBytes(v: nat, n: nat)
    requires v < Pow256(n)
    ensures LoadLE(LowBytes(v, n)) == v
  {
    if n > 0 { LoadLowBytes(v / 256, n - 1); }
  }

  /** AppendInternalKey: the user key, then sequence number and type in eight bytes. */
  function EncodeKey(k: InternalKey): (s: Bytes)
    ensures |s| == |k.user| + 8
  {
    k.user + LowBytes(k.tag, 8)
  }

  /** ParseInternalKey; keys in a table are never shorter than eight bytes. */
  function DecodeKey(s: Bytes): InternalKey {
    if |s| < 8 then InternalKey([], 0) else InternalKey(s[..|s| - 8], LoadLE(s[|s| - 8..]))
  }

  predicate Fits(k: InternalKey) {
    k.tag < Pow256(8)
  }

  lemma {:induction false} DecodeEncoded(k: InternalKey)
    requires Fits(k)
    ensures DecodeKey(EncodeKey(k)) == k
  {
    var s := EncodeKey(k);
    LoadLowBytes(k.tag, 8);
    assert s[..|s| - 8] == k.user && s[|s| - 8..] == LowBytes(k.tag, 8);
  }

  /** InternalKeyComparator on encoded keys. */
  predicate EncodedLess(a: Bytes, b: Bytes) {
    KeyLess(DecodeKey(a), DecodeKey(b))
  }

  // ----- Blocks of entries -----

  function Pair(e: Entry): KeyValue {
    KeyValue(EncodeKey(e.key), e.value)
  }

  function Pairs(es: seq<Entry>): (r: seq<KeyValue>)
    ensures |r| == |es| && forall i :: 0 <= i < |es| ==> r[i] == Pair(es[i])
  {
    seq(|es|, i requires 0 <= i < |es| => Pair(es[i]))
  }

  ghost predicate AllFit(es: seq<Entry>) {
    forall i :: 0 <= i < |es| ==> Fits(es[i].key)
  }

  lemma PairFits(es: seq<KeyValue>, interval: nat, i: nat)
    requires interval > 0 && i < |es| && Small(es, interval)
    ensures |es[i].key| < TWO_32 && |es[i].value| < TWO_32
  {
    hide Data;
    KeyFits(es, interval, i);
    DataPrefix(es, interval, i + 1, |es|);
  }

  /** A block, pair by pair through the block builder. */
  method StoreBlock(ps: seq<KeyValue>, interval: nat) returns (block: Bytes)
    requires interval > 0 && Small(ps, interval)
    ensures IsBlock(block, ps, interval)
  {
    hide BlockBuilder.Valid, IsBlock, Small;
    var builder := new BlockBuilder(interval);
    for i := 0 to |ps|
      invariant fresh(builder) && builder.Valid() && builder.interval == interval && builder.entries == ps[..i]
    {
      assert ps[..i + 1] == ps[..i] + [ps[i]];
      PairFits(ps, interval, i);
      builder.Add(ps[i].key, ps[i].value);
    }
    assert ps[..|ps|] == ps;
    block := builder.Finish();
  }

  /** Keys in ascending order are found in that order under the comparator on bytes. */
  lemma SeekableBlock(es: seq<Entry>, k: InternalKey)
    requires Ascending(es) && AllFit(es) && Fits(k)
    ensures forall a, b :: 0 <= a < b < |es| && EncodedLess(Pairs(es)[b].key, EncodeKey(k)) ==> EncodedLess(Pairs(es)[a].key, EncodeKey(k))
  {
    hide KeyLess, DecodeKey, EncodeKey;
    forall a, b | 0 <= a < b < |es| && EncodedLess(Pairs(es)[b].key, EncodeKey(k)) ensures EncodedLess(Pairs(es)[a].key, EncodeKey(k)) {
      DecodeEncoded(es[a].key);
      DecodeEncoded(es[b].key);
      DecodeEncoded(k);
      KeyTrans(es[a].key, es[b].key, k);
    }
  }

  /** Block::Iter::Seek in a data block: the first entry not below the key. */
  method SeekBlock(block: Bytes, k: InternalKey, ghost es: seq<Entry>, ghost interval: nat) returns (r: Option<Entry>, ghost j: nat)
    requires interval > 0 && IsBlock(block, Pairs(es), interval) && Ascending(es) && AllFit(es) && Fits(k)
    ensures r.None? ==> AllBelow(es, k)
    ensures r.Some? ==> IsFirst(es, j, k) && r.value == es[j]
  {
    hide KeyLess, DecodeKey, EncodeKey, Ascending, IsBlock, Iter.Opened;
    var iter := new Iter(block, Pairs(es), interval);
    SeekableBlock(es, k);
    iter.Seek(EncodeKey(k), (a, b) => EncodedLess(a, b));
    j := iter.at;
    DecodeEncoded(k);
    forall i | 0 <= i < |es| ensures DecodeKey(Pairs(es)[i].key) == es[i].key { DecodeEncoded(es[i].key); }
    if iter.IsValid() {
      r := Some(Entry(DecodeKey(iter.Key()), iter.Value()));
    } else {
      r := None;
    }
  }

  // ----- The index -----

  function IndexPairs(index: seq<IndexEntry>, handles: seq<Bytes>): (r: seq<KeyValue>)
    requires |index| == |handles|
    ensures |r| == |index| && forall i :: 0 <= i < |index| ==> r[i] == KeyValue(EncodeKey(index[i].key), handles[i])
  {
    seq(|index|, i requires 0 <= i < |index| => KeyValue(EncodeKey(index[i].key), handles[i]))
  }

  /** What a handle leads to: a block and where it starts in the file. */
  datatype Located = Located(offset: nat, contents: Bytes)

  /** The bytes of a table: its index block, its filter block, and what each handle leads to. */
  datatype StoredTable = StoredTable(indexBlock: Bytes, filter: Option<Bytes>)

  ghost predicate Stores(st: StoredTable, read: Bytes -> Located, t: Table, handles: seq<Bytes>, interval: nat) {
    && interval > 0 && |handles| == |t.index| == |t.blocks| && st.filter == t.filter
    && (forall i :: 0 <= i < |t.index| ==> Fits(t.index[i].key))
    && IsBlock(st.indexBlock, IndexPairs(t.index, handles), 1)
    && forall b :: 0 <= b < |t.blocks| ==> StoresBlock(read(handles[b]), t.blocks[b], interval)
  }

  ghost predicate StoresBlock(at: Located, block: DataBlock, interval: nat)
    requires interval > 0
  {
    at.offset == block.offset && AllFit(block.entries) && IsBlock(at.contents, Pairs(block.entries), interval)
  }

  /** Separators come in ascending order. */
  lemma IndexAscends(t: Table, a: nat, b: nat)
    requires BlocksInOrder(t.blocks) && |t.index| == |t.blocks| && IndexRight(t.index, t.blocks) && IndexReaches(t.index, t.blocks)
    requires a < b < |t.index|
    ensures KeyLess(t.index[a].key, t.index[b].key)
  {
    var key, last := t.index[a].key, LastKey(t.blocks[b].entries);
    assert Separates(key, t.blocks[a].entries, t.blocks[b].entries);
    assert Precedes(t.blocks[a].entries, t.blocks[b].entries);
    assert KeyLess(key, last);
    assert !KeyLess(t.index[b].key, last);
    KeyTotal(t.index[b].key, last);
    if t.index[b].key != last { KeyTrans(key, last, t.index[b].key); }
  }

  lemma SeekableIndex(t: Table, handles: seq<Bytes>, k: InternalKey)
    requires BlocksInOrder(t.blocks) && |t.index| == |t.blocks| && IndexRight(t.index, t.blocks) && IndexReaches(t.index, t.blocks)
    requires |handles| == |t.index| && (forall i :: 0 <= i < |t.index| ==> Fits(t.index[i].key)) && Fits(k)
    ensures var es := IndexPairs(t.index, handles);
            forall a, b :: 0 <= a < b < |es| && EncodedLess(es[b].key, EncodeKey(k)) ==> EncodedLess(es[a].key, EncodeKey(k))
  {
    hide KeyLess, DecodeKey, EncodeKey, IndexRight, IndexReaches, BlocksInOrder;
    var es := IndexPairs(t.index, handles);
    forall a, b | 0 <= a < b < |es| && EncodedLess(es[b].key, EncodeKey(k)) ensures EncodedLess(es[a].key, EncodeKey(k)) {
      DecodeEncoded(t.index[a].key);
      DecodeEncoded(t.index[b].key);
      DecodeEncoded(k);
      IndexAscends(t, a, b);
      KeyTrans(t.index[a].key, t.index[b].key, k);
    }
  }

  /** Separator i is the first one not below k. */
  ghost predicate FirstReaching(index: seq<IndexEntry>, k: InternalKey, i: nat) {
    i < |index| && !KeyLess(index[i].key, k) && forall j :: 0 <= j < i ==> KeyLess(index[j].key, k)
  }

  /** Seek in the index block: the handle that stands with the first separator not below the key. */
  method SeekIndex(st: StoredTable, k: InternalKey, ghost t: Table, ghost handles: seq<Bytes>)
    returns (handle: Option<Bytes>)
    requires BlocksInOrder(t.blocks) && |t.index| == |t.blocks| && IndexRight(t.index, t.blocks) && IndexReaches(t.index, t.blocks)
    requires |handles| == |t.index| && (forall i :: 0 <= i < |t.index| ==> Fits(t.index[i].key)) && Fits(k)
    requires IsBlock(st.indexBlock, IndexPairs(t.index, handles), 1)
    ensures handle.Some? ==> exists i: nat :: FirstReaching(t.index, k, i) && handle.value == handles[i]
    ensures handle.None? ==> forall j :: 0 <= j < |t.index| ==> KeyLess(t.index[j].key, k)
  {
    hide KeyLess, DecodeKey, EncodeKey, IndexRight, IndexReaches, BlocksInOrder, IsBlock, Iter.Opened;
    ghost var es := IndexPairs(t.index, handles);
    var iter := new Iter(st.indexBlock, es, 1);
    SeekableIndex(t, handles, k);
    iter.Seek(EncodeKey(k), (a, b) => EncodedLess(a, b));
    DecodeEncoded(k);
    forall x | 0 <= x < |es| ensures DecodeKey(es[x].key) == t.index[x].key { DecodeEncoded(t.index[x].key); }
    handle := if iter.IsValid() then Some(iter.Value()) else None;
    assert handle.Some? ==> FirstReaching(t.index, k, iter.at);
  }

  // ----- The lookup -----

  /** Table::InternalGet through the bytes of index, filter and one data block: the first entry not below
      the key, whenever that entry has the key's user key. */
  method InternalGet(st: StoredTable, read: Bytes -> Located, hash: Hash, k: InternalKey,
                     ghost t: Table, ghost filters: seq<seq<Bytes>>, ghost handles: seq<Bytes>, ghost interval: nat)
    returns (r: Option<Entry>)
    requires IsTable(t, hash, filters) && Stores(st, read, t, handles, interval) && Fits(k)
    ensures r.Some? ==> FirstAtLeast(Flatten(t.blocks), k, r.value)
    ensures forall e :: FirstAtLeast(Flatten(t.blocks), k, e) && e.key.user == k.user ==> r == Some(e)
  {
    hide FirstAtLeast, Flatten, IsFilterBlock, KeyLess, BlocksInOrder, IndexRight, IndexReaches, IsBlock, Fits;
    r := None;
    var handle := SeekIndex(st, k, t, handles);
    ghost var i: nat := |t.index|;
    if handle.Some? { i :| FirstReaching(t.index, k, i) && handle.value == handles[i]; }
    forall e | FirstAtLeast(Flatten(t.blocks), k, e) && e.key.user == k.user
      ensures i < |t.blocks| && exists j: nat :: IsFirst(t.blocks[i].entries, j, k) && t.blocks[i].entries[j] == e
    {
      BlockAnswers(t, k, i, e);
    }
    if handle.Some? {
      var block := read(handle.value);
      ghost var data := t.blocks[i];
      assert StoresBlock(block, data, interval);
      var may := true;
      if st.filter.Some? {
        may := KeyMayMatchAt(hash, st.filter.value, block.offset, k.user, filters);
        assert FilterCovers(filters, data);
      }
      if may {
        BlockAscends(t, i);
        ghost var j;
        r, j := SeekBlock(block.contents, k, data.entries, interval);
        if r.Some? {
          forall x: nat | IsFirst(data.entries, x, k) ensures x == j { FirstInBlock(data.entries, k, x, j); }
          forall c | 0 <= c < i ensures AllBelow(t.blocks[c].entries, k) { BlockBelow(t, k, c); }
          FirstInTable(t.blocks, k, i, j);
        }
      }
    }
  }

  lemma BlockAscends(t: Table, i: nat)
    requires BlocksInOrder(t.blocks) && i < |t.blocks|
    ensures Ascending(t.blocks[i].entries)
  {
  }
}
