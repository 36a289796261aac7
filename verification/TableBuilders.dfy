/** Building a table: TableBuilder. */
module TableBuilders {
  import opened Wrappers
  import opened Coding
  import opened Separators
  import opened BloomFilters
  import opened FilterBlocks
  import opened Tables

  // ----- What the builder keeps of the blocks and their index -----

  ghost predicate DataInOrder(blocks: seq<DataBlock>, data: seq<Entry>) {
    && BlocksInOrder(blocks) && Ascending(data)
    && forall b :: 0 <= b < |blocks| ==> Precedes(blocks[b].entries, data)
  }

  /** Index keys separate their blocks from the later ones, and from the block being filled. */
  ghost predicate IndexSoFar(index: seq<IndexEntry>, blocks: seq<DataBlock>, data: seq<Entry>)
    requires BlocksInOrder(blocks) && |index| <= |blocks|
  {
    && IndexRight(index, blocks) && IndexReaches(index, blocks)
    && forall i :: 0 <= i < |index| ==> Separates(index[i].key, blocks[i].entries, data)
  }

  /** All keys so far are below a new one that is above the last. */
  lemma {:induction false} AboveAll(blocks: seq<DataBlock>, data: seq<Entry>, last: InternalKey, key: InternalKey)
    requires DataInOrder(blocks, data) && KeyLess(last, key)
    requires data != [] ==> last == LastKey(data)
    requires data == [] && blocks != [] ==> last == LastKey(blocks[|blocks| - 1].entries)
    ensures AllBelow(data, key) && forall b :: 0 <= b < |blocks| ==> AllBelow(blocks[b].entries, key)
  {
    hide KeyLess;
    forall j | 0 <= j < |data| ensures KeyLess(data[j].key, key) {
      if j < |data| - 1 { KeyTrans(data[j].key, last, key); }
    }
    forall b, j | 0 <= b < |blocks| && 0 <= j < |blocks[b].entries| ensures KeyLess(blocks[b].entries[j].key, key) {
      var es := blocks[b].entries;
      if data != [] {
        assert Precedes(es, data);
        KeyTrans(es[j].key, last, key);
      } else {
        var n := |blocks| - 1;
        if b < n {
          assert Precedes(es, blocks[n].entries);
          KeyTrans(es[j].key, last, key);
        } else if j < |es| - 1 {
          KeyTrans(es[j].key, last, key);
        }
      }
    }
  }

  lemma AppendInOrder(blocks: seq<DataBlock>, data: seq<Entry>, e: Entry)
    requires DataInOrder(blocks, data) && AllBelow(data, e.key)
    requires forall b :: 0 <= b < |blocks| ==> AllBelow(blocks[b].entries, e.key)
    ensures DataInOrder(blocks, data + [e])
  {
    hide KeyLess;
    var more := data + [e];
    forall b | 0 <= b < |blocks| ensures Precedes(blocks[b].entries, more) {
      assert AllBelow(blocks[b].entries, e.key) && Precedes(blocks[b].entries, data);
    }
  }

  /** A key that separates a block from the one after it separates it from all later ones. */
  lemma SeparatesMore(key: InternalKey, b: seq<Entry>, data: seq<Entry>, e: Entry)
    requires b != [] && Separates(key, b, data) && AllBelow(data, e.key) && (data == [] ==> Separates(key, b, [e]))
    ensures Separates(key, b, data + [e])
  {
    if key != LastKey(b) {
      var more := data + [e];
      forall j | 0 <= j < |more| ensures Less(key.user, more[j].key.user) {
        if j == |data| {
          if data == [] {
            assert [e][0] == e;
          } else {
            assert KeyLess(data[0].key, e.key);
            if data[0].key.user != e.key.user { LessTrans(key.user, data[0].key.user, e.key.user); }
          }
        }
      }
    }
  }

  lemma IndexWithEntry(index: seq<IndexEntry>, blocks: seq<DataBlock>, data: seq<Entry>, e: Entry)
    requires BlocksInOrder(blocks) && |index| == |blocks| && IndexSoFar(index, blocks, data) && AllBelow(data, e.key)
    requires data == [] ==> forall i :: 0 <= i < |index| ==> Separates(index[i].key, blocks[i].entries, [e])
    ensures IndexSoFar(index, blocks, data + [e])
  {
    hide Separates, AllBelow, IndexRight, IndexReaches;
    forall i | 0 <= i < |index| ensures Separates(index[i].key, blocks[i].entries, data + [e]) {
      SeparatesMore(index[i].key, blocks[i].entries, data, e);
    }
  }

  /** The block being filled becomes the last block. */
  lemma FlushedInOrder(index: seq<IndexEntry>, blocks: seq<DataBlock>, data: seq<Entry>, offset: nat)
    requires DataInOrder(blocks, data) && data != [] && |index| == |blocks| && IndexSoFar(index, blocks, data)
    ensures DataInOrder(blocks + [DataBlock(offset, data)], [])
    ensures IndexSoFar(index, blocks + [DataBlock(offset, data)], [])
  {
    hide KeyLess, Less, Ascending;
    var more := blocks + [DataBlock(offset, data)];
    assert more[|blocks|].entries == data;
    assert forall b :: 0 <= b < |blocks| ==> more[b] == blocks[b];
    assert Ascending([]) by { NothingAscends(); }
  }

  lemma NothingAscends()
    ensures Ascending([])
  {
  }

  /** The index entry of the last block, once the key that follows it is known. */
  lemma IndexPending(index: seq<IndexEntry>, blocks: seq<DataBlock>, key: InternalKey)
    requires BlocksInOrder(blocks) && |index| + 1 == |blocks| && IndexSoFar(index, blocks, [])
    requires !KeyLess(key, LastKey(blocks[|index|].entries))
    ensures var more := index + [IndexEntry(key, |index|)];
            IndexRight(more, blocks) && IndexReaches(more, blocks)
  {
    hide KeyLess, Separates;
    var more := index + [IndexEntry(key, |index|)];
    assert forall i :: 0 <= i < |index| ==> more[i] == index[i];
  }

  // ----- What it keeps of the filter -----

  /** The block's user keys are in its filter, or among the keys that will go into it. */
  ghost predicate Covered(filters: seq<seq<Bytes>>, keys: seq<Bytes>, block: DataBlock) {
    var f := block.offset / BASE;
    && f <= |filters|
    && forall j :: 0 <= j < |block.entries| ==> block.entries[j].key.user in if f < |filters| then filters[f] else keys
  }

  ghost predicate AllCovered(filters: seq<seq<Bytes>>, keys: seq<Bytes>, blocks: seq<DataBlock>) {
    forall b :: 0 <= b < |blocks| ==> Covered(filters, keys, blocks[b])
  }

  lemma CoveredAfterStart(filters: seq<seq<Bytes>>, keys: seq<Bytes>, filters': seq<seq<Bytes>>, keys': seq<Bytes>,
                          blocks: seq<DataBlock>)
    requires AllCovered(filters, keys, blocks) && filters <= filters'
    requires |filters| == |filters'| ==> keys' == keys
    requires |filters| < |filters'| ==> filters'[|filters|] == keys
    ensures AllCovered(filters', keys', blocks)
  {
    forall b | 0 <= b < |blocks| ensures Covered(filters', keys', blocks[b]) {
      assert Covered(filters, keys, blocks[b]);
    }
  }

  lemma CoveredWithKey(filters: seq<seq<Bytes>>, keys: seq<Bytes>, blocks: seq<DataBlock>, key: Bytes)
    requires AllCovered(filters, keys, blocks)
    ensures AllCovered(filters, keys + [key], blocks)
  {
    forall b | 0 <= b < |blocks| ensures Covered(filters, keys + [key], blocks[b]) {
      assert Covered(filters, keys, blocks[b]);
    }
  }

  class TableBuilder {
    const hash: Hash
    const filter: FilterBlockBuilder?

    /** Whether a block with these entries is full, and the bytes it takes in the file. */
    const full: seq<Entry> -> bool
    const written: seq<Entry> -> nat

    var blocks: seq<DataBlock>
    var index: seq<IndexEntry>
    var dataBlock: seq<Entry>
    var offset: nat
    var lastKey: InternalKey
    var pendingIndexEntry: bool

    ghost var entries: seq<Entry>

    ghost predicate Valid()
      reads this, filter
    {
      && DataInOrder(blocks, dataBlock)
      && |index| + (if pendingIndexEntry then 1 else 0) == |blocks|
      && IndexSoFar(index, blocks, dataBlock)
      && (pendingIndexEntry ==> dataBlock == [])
      && (dataBlock == [] && blocks != [] ==> pendingIndexEntry)
      && entries == Flatten(blocks) + dataBlock
      && (dataBlock != [] ==> lastKey == LastKey(dataBlock))
      && (dataBlock == [] && blocks != [] ==> lastKey == LastKey(blocks[|blocks| - 1].entries))
      && HashFits(hash)
      && (filter != null ==>
           && filter.Valid() && filter.hash == hash && |filter.filters| == offset / BASE
           && AllCovered(filter.filters, filter.keys, blocks)
           && Covered(filter.filters, filter.keys, DataBlock(offset, dataBlock)))
    }

    constructor (hash: Hash, filter: FilterBlockBuilder?, full: seq<Entry> -> bool, written: seq<Entry> -> nat)
      requires HashFits(hash)
      requires filter != null ==> filter.Valid() && filter.hash == hash && filter.filters == [] && filter.keys == []
      ensures Valid() && entries == [] && this.filter == filter
    {
      this.hash, this.filter, this.full, this.written := hash, filter, full, written;
      blocks, index, dataBlock, offset, pendingIndexEntry, entries := [], [], [], 0, false, [];
      lastKey := InternalKey([], 0);
    }

    /** Write the index entry of the last block, now that the next entry is known. */
    method AddPending(e: Entry)
      requires Valid() && pendingIndexEntry && KeyLess(lastKey, e.key)
      modifies `index, `pendingIndexEntry
      ensures |index| == |blocks| && IndexSoFar(index, blocks, []) && !pendingIndexEntry
      ensures forall i :: 0 <= i < |index| ==> Separates(index[i].key, blocks[i].entries, [e])
    {
      hide IndexSoFar, DataInOrder, Covered, AllCovered, Flatten, KeyLess, Separates, FilterBlockBuilder.Valid;
      var separator := SeparateInternal(lastKey, e.key);
      AboveAll(blocks, dataBlock, lastKey, e.key);
      PendingSeparates(index, blocks, e, separator);
      index := index + [IndexEntry(separator, |blocks| - 1)];
      pendingIndexEntry := false;
    }

    method Add(key: InternalKey, value: Bytes)
      requires Valid() && (entries != [] ==> KeyLess(LastKey(entries), key))
      modifies this, filter
      ensures Valid() && entries == old(entries) + [Entry(key, value)]
    {
      hide IndexSoFar, DataInOrder, BlocksInOrder, AllBelow, Covered, AllCovered, Flatten, KeyLess, Separates, FilterBlockBuilder.Valid;
      var e := Entry(key, value);
      NewKeyAbove(blocks, dataBlock, lastKey, key);
      if pendingIndexEntry {
        AddPending(e);
      }
      IndexWithEntry(index, blocks, dataBlock, e);
      AppendInOrder(blocks, dataBlock, e);
      if filter != null {
        CoveredWithKey(filter.filters, filter.keys, blocks, key.user);
        CoveredWithEntry(filter.filters, filter.keys, offset, dataBlock, e);
        filter.AddKey(key.user);
      }
      lastKey := key;
      assert (Flatten(blocks) + dataBlock) + [e] == Flatten(blocks) + (dataBlock + [e]);
      dataBlock := dataBlock + [e];
      entries := entries + [e];
      if full(dataBlock) {
        Flush();
      }
    }

    /** Write the block being filled, and start the filter of the next. */
    method Flush()
      requires Valid()
      modifies this, filter
      ensures Valid() && entries == old(entries) && dataBlock == []
      ensures filter != null ==> |filter.result| + filter.NextSize() == old(|filter.result| + filter.NextSize())
    {
      hide IndexSoFar, DataInOrder, Covered, AllCovered, KeyLess, Separates, FilterBlockBuilder.Valid;
      if dataBlock == [] {
        return;
      }
      FlushedInOrder(index, blocks, dataBlock, offset);
      var block := DataBlock(offset, dataBlock);
      if filter != null { CoveredWithBlock(filter.filters, filter.keys, blocks, block); }
      blocks := blocks + [block];
      assert blocks[..|blocks| - 1] == old(blocks);
      dataBlock := [];
      pendingIndexEntry := true;
      DivideMonotone(offset, offset + written(block.entries));
      offset := offset + written(block.entries);
      if filter != null {
        ghost var filters, keys := filter.filters, filter.keys;
        filter.StartBlock(offset);
        CoveredAfterStart(filters, keys, filter.filters, filter.keys, blocks);
        NothingToCover(filter.filters, filter.keys, offset);
      }
    }

    /** The finished table: it holds the entries, and lookups in it may rely on index and filter. */
    method Finish() returns (t: Table, ghost filters: seq<seq<Bytes>>)
      requires Valid()
      requires filter != null ==> |filter.result| + filter.NextSize() < TWO_32
      modifies this, filter
      ensures IsTable(t, hash, filters) && Flatten(t.blocks) == entries == old(entries)
      ensures t.filter.Some? <==> filter != null
    {
      hide Covered, AllCovered, KeyLess, Separates, Flatten, IndexRight, IndexReaches, FilterBlockBuilder.Valid;
      Flush();
      assert Flatten(blocks) + [] == Flatten(blocks);
      var contents: Option<Bytes> := None;
      filters := [];
      if filter != null {
        ghost var made, keys := filter.filters, filter.keys;
        var block := filter.Finish();
        contents := Some(block);
        filters := filter.filters;
        AllInFilters(made, keys, blocks, filters);
      }
      if pendingIndexEntry {
        var successor := SuccessorInternal(lastKey);
        KeyTotal(lastKey, successor);
        IndexPending(index, blocks, successor);
        index := index + [IndexEntry(successor, |blocks| - 1)];
        pendingIndexEntry := false;
      }
      t := Table(blocks, index, contents);
    }
  }

  lemma AllInFilters(made: seq<seq<Bytes>>, keys: seq<Bytes>, blocks: seq<DataBlock>, filters: seq<seq<Bytes>>)
    requires AllCovered(made, keys, blocks) && filters == if keys == [] then made else made + [keys]
    requires forall b :: 0 <= b < |blocks| ==> blocks[b].entries != []
    ensures forall b :: 0 <= b < |blocks| ==> FilterCovers(filters, blocks[b])
  {
    forall b | 0 <= b < |blocks| ensures FilterCovers(filters, blocks[b]) {
      assert Covered(made, keys, blocks[b]);
      if blocks[b].offset / BASE == |made| { assert blocks[b].entries[0].key.user in keys; }
    }
  }

  /** A key above the last entry is above them all. */
  lemma NewKeyAbove(blocks: seq<DataBlock>, data: seq<Entry>, last: InternalKey, key: InternalKey)
    requires DataInOrder(blocks, data)
    requires data != [] ==> last == LastKey(data)
    requires data == [] && blocks != [] ==> last == LastKey(blocks[|blocks| - 1].entries)
    requires var all := Flatten(blocks) + data; all != [] ==> KeyLess(LastKey(all), key)
    ensures BlocksInOrder(blocks) && AllBelow(data, key)
    ensures forall b :: 0 <= b < |blocks| ==> AllBelow(blocks[b].entries, key)
    ensures blocks != [] || data != [] ==> KeyLess(last, key)
  {
    hide KeyLess, Flatten, BlocksInOrder;
    LastOfAll(blocks, data);
    if blocks != [] || data != [] { AboveAll(blocks, data, last, key); }
  }

  lemma {:induction false} LastOfAll(blocks: seq<DataBlock>, data: seq<Entry>)
    requires DataInOrder(blocks, data)
    ensures var all := Flatten(blocks) + data;
            && (data != [] ==> all != [] && LastKey(all) == LastKey(data))
            && (data == [] && blocks != [] ==> all != [] && LastKey(all) == LastKey(blocks[|blocks| - 1].entries))
  {
    if blocks != [] { assert blocks[|blocks| - 1].entries != []; }
  }

  lemma DivideMonotone(a: nat, b: nat)
    requires a <= b
    ensures a / BASE <= b / BASE
  {
  }

  lemma CoveredWithEntry(filters: seq<seq<Bytes>>, keys: seq<Bytes>, offset: nat, data: seq<Entry>, e: Entry)
    requires Covered(filters, keys, DataBlock(offset, data)) && |filters| == offset / BASE
    ensures Covered(filters, keys + [e.key.user], DataBlock(offset, data + [e]))
  {
  }

  lemma CoveredWithBlock(filters: seq<seq<Bytes>>, keys: seq<Bytes>, blocks: seq<DataBlock>, block: DataBlock)
    requires AllCovered(filters, keys, blocks) && Covered(filters, keys, block)
    ensures AllCovered(filters, keys, blocks + [block])
  {
  }

  lemma NothingToCover(filters: seq<seq<Bytes>>, keys: seq<Bytes>, offset: nat)
    requires |filters| == offset / BASE
    ensures Covered(filters, keys, DataBlock(offset, []))
  {
  }

  lemma {:induction false} PendingSeparates(index: seq<IndexEntry>, blocks: seq<DataBlock>, e: Entry, separator: InternalKey)
    requires DataInOrder(blocks, []) && |index| + 1 == |blocks| && IndexSoFar(index, blocks, [])
    requires forall b :: 0 <= b < |blocks| ==> AllBelow(blocks[b].entries, e.key)
    requires var last := LastKey(blocks[|index|].entries);
             separator == last || (Less(last.user, separator.user) && Less(separator.user, e.key.user))
    ensures var more := index + [IndexEntry(separator, |index|)];
            && IndexSoFar(more, blocks, [])
            && forall i :: 0 <= i < |more| ==> Separates(more[i].key, blocks[i].entries, [e])
  {
    var more := index + [IndexEntry(separator, |index|)];
    var n := |index|;
    NotBelowLast(separator, LastKey(blocks[n].entries));
    IndexPending(index, blocks, separator);
    forall i | 0 <= i < |more| ensures Separates(more[i].key, blocks[i].entries, [e]) {
      if i < n {
        assert Separates(index[i].key, blocks[i].entries, blocks[n].entries);
        SeparatesMore(index[i].key, blocks[i].entries, blocks[n].entries, e);
        assert (blocks[n].entries + [e])[|blocks[n].entries|] == e;
      }
    }
    forall i | 0 <= i < |more| ensures Separates(more[i].key, blocks[i].entries, []) {}
  }

  lemma NotBelowLast(separator: InternalKey, last: InternalKey)
    requires separator == last || Less(last.user, separator.user)
    ensures !KeyLess(separator, last)
  {
    LessTotal(last.user, separator.user);
    KeyTotal(last, separator);
  }
}
