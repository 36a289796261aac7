/** The filter block of a table: one Bloom filter for every 2 KB of block offsets. */
module FilterBlocks {
  import opened Coding
  import opened Blocks
  import opened BlockIterators
  import opened BloomFilters

  const BASE_LG: Byte := 11
  const BASE: nat := 2048

  /** Where filter i ends: where the next begins, or at the end of them all. */
  function FilterEnd(offsets: seq<nat>, i: nat, end: nat): nat
    requires i < |offsets|
  {
    if i + 1 < |offsets| then offsets[i + 1] else end
  }

  /** Filter i lies in `body` where the offsets say, and matches the keys it was made for. */
  ghost predicate HoldsFilter(hash: Hash, body: Bytes, offsets: seq<nat>, filters: seq<seq<Bytes>>, i: nat)
    requires HashFits(hash) && i < |offsets| == |filters|
  {
    && offsets[i] <= FilterEnd(offsets, i, |body|) <= |body|
    && forall key :: key in filters[i] ==> Matches(hash, key, body[offsets[i]..FilterEnd(offsets, i, |body|)])
  }

  ghost predicate HoldsFilters(hash: Hash, body: Bytes, offsets: seq<nat>, filters: seq<seq<Bytes>>)
    requires HashFits(hash)
  {
    && |offsets| == |filters|
    && forall i :: 0 <= i < |offsets| ==> HoldsFilter(hash, body, offsets, filters, i)
  }

  /** One more filter at the end leaves the others as they are. */
  lemma OneMoreFilter(hash: Hash, body: Bytes, offsets: seq<nat>, filters: seq<seq<Bytes>>, filter: Bytes, keys: seq<Bytes>)
    requires HashFits(hash) && HoldsFilters(hash, body, offsets, filters)
    requires forall key :: key in keys ==> Matches(hash, key, filter)
    ensures HoldsFilters(hash, body + filter, offsets + [|body|], filters + [keys])
  {
    hide Matches;
    var body', offsets', filters' := body + filter, offsets + [|body|], filters + [keys];
    forall i | 0 <= i < |offsets'| ensures HoldsFilter(hash, body', offsets', filters', i) {
      if i < |offsets| {
        assert HoldsFilter(hash, body, offsets, filters, i);
        var a, b := offsets[i], FilterEnd(offsets, i, |body|);
        assert FilterEnd(offsets', i, |body'|) == b;
        assert body'[a..b] == body[a..b];
      } else {
        assert body'[|body|..|body'|] == filter;
      }
    }
  }

  class FilterBlockBuilder {
    const hash: Hash
    const bitsPerKey: nat
    const probes: nat
    var keys: seq<Bytes>
    var result: Bytes
    var filterOffsets: seq<nat>

    /** The keys of each filter made so far. */
    ghost var filters: seq<seq<Bytes>>

    ghost predicate Valid()
      reads this
    {
      HashFits(hash) && 1 <= probes <= 30 && HoldsFilters(hash, result, filterOffsets, filters)
    }

    constructor (hash: Hash, bitsPerKey: nat, probes: nat)
      requires HashFits(hash) && 1 <= probes <= 30
      ensures Valid() && this.hash == hash && filters == [] && keys == []
    {
      this.hash, this.bitsPerKey, this.probes := hash, bitsPerKey, probes;
      keys, result, filterOffsets, filters := [], [], [], [];
    }

    method AddKey(key: Bytes)
      requires Valid()
      modifies `keys
      ensures Valid() && keys == old(keys) + [key]
    {
      keys := keys + [key];
    }

    /** The size of the filter for the keys at hand. */
    function NextSize(): nat
      reads this
    {
      if keys == [] then 0 else FilterSize(|keys|, bitsPerKey)
    }

    /** The keys at hand become the next filter; an empty one if there are none. */
    method GenerateFilter()
      requires Valid()
      modifies this
      ensures Valid() && filters == old(filters) + [old(keys)] && keys == []
      ensures |result| == old(|result| + NextSize())
    {
      hide HoldsFilters, Matches;
      if |keys| == 0 {
        OneMoreFilter(hash, result, filterOffsets, filters, [], []);
        assert result + [] == result;
        filterOffsets := filterOffsets + [|result|];
        filters := filters + [[]];
        return;
      }
      var filter := CreateFilter(hash, keys, bitsPerKey, probes);
      OneMoreFilter(hash, result, filterOffsets, filters, filter, keys);
      filterOffsets := filterOffsets + [|result|];
      result := result + filter;
      filters := filters + [keys];
      keys := [];
    }

    /** Before a block at this offset: filters up to its own, the first of them with the keys at hand. */
    method StartBlock(blockOffset: nat)
      requires Valid() && |filters| <= blockOffset / BASE
      modifies this
      ensures Valid() && |filters| == blockOffset / BASE && old(filters) <= filters
      ensures |old(filters)| == |filters| ==> keys == old(keys)
      ensures |old(filters)| < |filters| ==> keys == [] && filters[|old(filters)|] == old(keys)
      ensures |result| + NextSize() == old(|result| + NextSize())
    {
      hide HoldsFilters;
      var index := blockOffset / BASE;
      assert |filterOffsets| == |filters| by { SameCount(hash, result, filterOffsets, filters); }
      while index > |filterOffsets|
        invariant Valid() && |filterOffsets| == |filters| <= index && old(filters) <= filters
        invariant |old(filters)| == |filters| ==> keys == old(keys)
        invariant |old(filters)| < |filters| ==> keys == [] && filters[|old(filters)|] == old(keys)
        invariant |result| + NextSize() == old(|result| + NextSize())
        decreases index - |filterOffsets|
      {
        GenerateFilter();
        SameCount(hash, result, filterOffsets, filters);
      }
    }

    /** The finished block: the filters, their offsets, where those start, and the base. */
    method Finish() returns (block: Bytes)
      requires Valid() && |result| + NextSize() < TWO_32
      modifies this
      ensures Valid() && IsFilterBlock(hash, block, filters)
      ensures filters == if old(keys) == [] then old(filters) else old(filters) + [old(keys)]
    {
      hide HoldsFilters;
      if |keys| > 0 {
        GenerateFilter();
      }
      OffsetsFit(hash, result, filterOffsets, filters);
      block := result;
      for i := 0 to |filterOffsets|
        invariant block == result + Fixed(filterOffsets[..i])
      {
        assert filterOffsets[..i + 1][..i] == filterOffsets[..i];
        block := block + EncodeFixed32(filterOffsets[i]);
      }
      assert filterOffsets[..|filterOffsets|] == filterOffsets;
      block := block + EncodeFixed32(|result|);
      block := block + [BASE_LG];
      assert Laid(hash, block, filters, result, filterOffsets);
    }
  }

  lemma OffsetsFit(hash: Hash, body: Bytes, offsets: seq<nat>, filters: seq<seq<Bytes>>)
    requires HashFits(hash) && HoldsFilters(hash, body, offsets, filters) && |body| < TWO_32
    ensures forall i :: 0 <= i < |offsets| ==> offsets[i] < TWO_32
  {
    forall i | 0 <= i < |offsets| ensures offsets[i] < TWO_32 {
      assert HoldsFilter(hash, body, offsets, filters, i);
    }
  }

  lemma SameCount(hash: Hash, body: Bytes, offsets: seq<nat>, filters: seq<seq<Bytes>>)
    requires HashFits(hash) && HoldsFilters(hash, body, offsets, filters)
    ensures |offsets| == |filters|
  {
  }

  /** A filter block that says which filter a block's keys are in. */
  ghost predicate IsFilterBlock(hash: Hash, block: Bytes, filters: seq<seq<Bytes>>)
    requires HashFits(hash)
  {
    exists body: Bytes, offsets: seq<nat> :: Laid(hash, block, filters, body, offsets)
  }

  ghost predicate Laid(hash: Hash, block: Bytes, filters: seq<seq<Bytes>>, body: Bytes, offsets: seq<nat>)
    requires HashFits(hash)
  {
    && HoldsFilters(hash, body, offsets, filters) && |body| < TWO_32
    && (forall i :: 0 <= i < |offsets| ==> offsets[i] < TWO_32)
    && block == body + Fixed(offsets) + EncodeFixed32(|body|) + [BASE_LG]
  }

  // ----- Reading -----

  /** The words of a filter block, as the reader finds them. */
  lemma {:induction false} WordsOf(block: Bytes, body: Bytes, offsets: seq<nat>)
    requires (forall i :: 0 <= i < |offsets| ==> offsets[i] < TWO_32) && |body| < TWO_32
    requires block == body + Fixed(offsets) + EncodeFixed32(|body|) + [BASE_LG]
    ensures |block| == |body| + 4 * |offsets| + 5 && block[|block| - 1] == BASE_LG
    ensures LoadLE(block[|block| - 5..|block| - 1]) == |body|
  {
    hide LoadLE, Fixed, EncodeFixed32;
    assert block[|block| - 5..|block| - 1] == EncodeFixed32(|body|);
  }

  lemma SliceAfter(a: Bytes, b: Bytes, i: nat, j: nat)
    requires i <= j <= |b|
    ensures (a + b)[|a| + i..|a| + j] == b[i..j]
  {
  }

  lemma SliceBefore(a: Bytes, b: Bytes, i: nat, j: nat)
    requires i <= j <= |a|
    ensures (a + b)[i..j] == a[i..j]
  {
  }

  lemma {:induction false} WordAt(block: Bytes, body: Bytes, offsets: seq<nat>, i: nat)
    requires (forall i :: 0 <= i < |offsets| ==> offsets[i] < TWO_32) && |body| < TWO_32
    requires block == body + Fixed(offsets) + EncodeFixed32(|body|) + [BASE_LG] && i <= |offsets|
    ensures |body| + 4 * i + 4 <= |block|
    ensures LoadLE(block[|body| + 4 * i..|body| + 4 * i + 4]) == if i < |offsets| then offsets[i] else |body|
  {
    hide LoadLE, Fixed, EncodeFixed32;
    var words, last := Fixed(offsets), EncodeFixed32(|body|);
    var tail := last + [BASE_LG];
    assert block == body + (words + tail);
    SliceAfter(body, words + tail, 4 * i, 4 * i + 4);
    if i < |offsets| {
      FixedAt(offsets, i);
      SliceBefore(words, tail, 4 * i, 4 * i + 4);
    } else {
      SliceAfter(words, tail, 0, 4);
      SliceBefore(last, [BASE_LG], 0, 4);
      assert last[0..4] == last;
    }
  }

  /** FilterBlockReader::KeyMayMatch: a key of the filter for this offset always may match. */
  method KeyMayMatchAt(hash: Hash, contents: Bytes, blockOffset: nat, key: Bytes, ghost filters: seq<seq<Bytes>>)
      returns (may: bool)
    requires HashFits(hash) && IsFilterBlock(hash, contents, filters)
    ensures blockOffset / BASE < |filters| && key in filters[blockOffset / BASE] ==> may
    ensures exists body: Bytes, offsets: seq<nat> ::
              Laid(hash, contents, filters, body, offsets) && Says(hash, body, offsets, blockOffset / BASE, key, may)
  {
    hide HoldsFilters, Matches, LoadLE, Fixed, EncodeFixed32;
    ghost var body, offsets :| Laid(hash, contents, filters, body, offsets);
    SameCount(hash, body, offsets, filters);
    WordsOf(contents, body, offsets);
    var n := |contents|;
    var lastWord := LoadLE(contents[n - 5..n - 1]);
    var num := (n - 5 - lastWord) / 4;
    var index := blockOffset / BASE;
    may := true;
    if index < num {
      WordAt(contents, body, offsets, index);
      WordAt(contents, body, offsets, index + 1);
      var start := LoadLE(contents[lastWord + 4 * index..lastWord + 4 * index + 4]);
      var limit := LoadLE(contents[lastWord + 4 * index + 4..lastWord + 4 * index + 8]);
      FilterIs(hash, body, offsets, filters, index);
      if start <= limit && limit <= lastWord {
        assert contents[start..limit] == body[start..limit];
        may := KeyMayMatch(hash, key, contents[start..limit]);
      } else if start == limit {
        may := false;
      }
    }
  }

  /** The answer is that of the filter at this index, or yes if there is none. */
  ghost predicate Says(hash: Hash, body: Bytes, offsets: seq<nat>, index: nat, key: Bytes, may: bool)
    requires HashFits(hash)
  {
    if index >= |offsets| then may
    else
      && offsets[index] <= FilterEnd(offsets, index, |body|) <= |body|
      && (may <==> Matches(hash, key, body[offsets[index]..FilterEnd(offsets, index, |body|)]))
  }

  lemma FilterIs(hash: Hash, body: Bytes, offsets: seq<nat>, filters: seq<seq<Bytes>>, i: nat)
    requires HashFits(hash) && HoldsFilters(hash, body, offsets, filters) && i < |offsets|
    ensures |offsets| == |filters| && HoldsFilter(hash, body, offsets, filters, i)
  {
  }
}
