/** Tables: data blocks, an index of separators, and filters; and the point lookup over them. */
module Tables {
  import opened Wrappers
  import opened Coding
  import opened Separators
  import opened BloomFilters
  import opened FilterBlocks

  datatype Entry = Entry(key: InternalKey, value: Bytes)

  /** A block written at an offset of the file. */
  datatype DataBlock = DataBlock(offset: nat, entries: seq<Entry>)

  /** Which block to look in for keys up to this one. */
  datatype IndexEntry = IndexEntry(key: InternalKey, block: nat)

  // ----- Sorted entries, cut into blocks -----

  ghost predicate Ascending(es: seq<Entry>) {
    forall i, j :: 0 <= i < j < |es| ==> KeyLess(es[i].key, es[j].key)
  }

  function Flatten(blocks: seq<DataBlock>): seq<Entry> {
    if blocks == [] then [] else Flatten(blocks[..|blocks| - 1]) + blocks[|blocks| - 1].entries
  }

  /** Every key of b comes before every key of c. */
  ghost predicate Precedes(b: seq<Entry>, c: seq<Entry>) {
    forall i, j :: 0 <= i < |b| && 0 <= j < |c| ==> KeyLess(b[i].key, c[j].key)
  }

  ghost predicate BlocksInOrder(blocks: seq<DataBlock>) {
    && (forall b :: 0 <= b < |blocks| ==> blocks[b].entries != [] && Ascending(blocks[b].entries))
    && (forall b, c :: 0 <= b < c < |blocks| ==> Precedes(blocks[b].entries, blocks[c].entries))
  }

  function LastKey(es: seq<Entry>): InternalKey
    requires es != []
  {
    es[|es| - 1].key
  }

  /** An index key stands at the last key of its block, or between it and the user keys of the next. */
  ghost predicate Separates(key: InternalKey, b: seq<Entry>, c: seq<Entry>)
    requires b != []
  {
    || key == LastKey(b)
    || (Less(LastKey(b).user, key.user) && forall j :: 0 <= j < |c| ==> Less(key.user, c[j].key.user))
  }

  ghost predicate IndexRight(index: seq<IndexEntry>, blocks: seq<DataBlock>)
    requires BlocksInOrder(blocks) && |index| <= |blocks|
  {
    forall i :: 0 <= i < |index| ==>
      && index[i].block == i
      && forall c :: i < c < |blocks| ==> Separates(index[i].key, blocks[i].entries, blocks[c].entries)
  }

  /** The last block has no next one: its index key need only not be below its last key. */
  ghost predicate IndexReaches(index: seq<IndexEntry>, blocks: seq<DataBlock>)
    requires BlocksInOrder(blocks) && |index| <= |blocks|
  {
    forall i :: 0 <= i < |index| ==> !KeyLess(index[i].key, LastKey(blocks[i].entries))
  }

  // ----- The lookup -----

  datatype Table = Table(blocks: seq<DataBlock>, index: seq<IndexEntry>, filter: Option<Bytes>)

  /** The user keys of a block are in the filter for its offset. */
  ghost predicate FilterCovers(filters: seq<seq<Bytes>>, block: DataBlock) {
    && block.offset / BASE < |filters|
    && forall j :: 0 <= j < |block.entries| ==> block.entries[j].key.user in filters[block.offset / BASE]
  }

  ghost predicate IsTable(t: Table, hash: Hash, filters: seq<seq<Bytes>>) {
    && BlocksInOrder(t.blocks) && |t.index| == |t.blocks|
    && IndexRight(t.index, t.blocks) && IndexReaches(t.index, t.blocks)
    && HashFits(hash)
    && (t.filter.Some? ==>
         && IsFilterBlock(hash, t.filter.value, filters)
         && forall b :: 0 <= b < |t.blocks| ==> FilterCovers(filters, t.blocks[b]))
  }

  /** Entry e of es is the first not below k. */
  ghost predicate FirstAtLeast(es: seq<Entry>, k: InternalKey, e: Entry) {
    exists i :: 0 <= i < |es| && es[i] == e && !KeyLess(e.key, k) && forall j :: 0 <= j < i ==> KeyLess(es[j].key, k)
  }

  // ----- Entries of the whole table -----

  ghost predicate AllBelow(es: seq<Entry>, k: InternalKey) {
    forall j :: 0 <= j < |es| ==> KeyLess(es[j].key, k)
  }

  lemma {:induction false} FirstInTable(blocks: seq<DataBlock>, k: InternalKey, b: nat, j: nat)
    requires b < |blocks| && j < |blocks[b].entries|
    requires forall c :: 0 <= c < b ==> AllBelow(blocks[c].entries, k)
    requires !KeyLess(blocks[b].entries[j].key, k) && AllBelow(blocks[b].entries[..j], k)
    ensures FirstAtLeast(Flatten(blocks), k, blocks[b].entries[j])
    decreases |blocks|
  {
    hide KeyLess;
    var n := |blocks| - 1;
    var front, last := Flatten(blocks[..n]), blocks[n].entries;
    var e := blocks[b].entries[j];
    if b == n {
      AllBelowFlat(blocks[..n], k);
      var all := front + last;
      assert all[|front| + j] == e;
      forall x | 0 <= x < |front| + j ensures KeyLess(all[x].key, k) {
        if x >= |front| { assert all[x] == last[..j][x - |front|]; }
      }
    } else {
      FirstInTable(blocks[..n], k, b, j);
      var i :| 0 <= i < |front| && front[i] == e && forall x :: 0 <= x < i ==> KeyLess(front[x].key, k);
      assert (front + last)[i] == e;
    }
  }

  lemma {:induction false} AllBelowFlat(blocks: seq<DataBlock>, k: InternalKey)
    requires forall b :: 0 <= b < |blocks| ==> AllBelow(blocks[b].entries, k)
    ensures AllBelow(Flatten(blocks), k)
  {
    hide KeyLess;
    if blocks != [] { AllBelowFlat(blocks[..|blocks| - 1], k); }
  }

  lemma {:induction false} InSomeBlock(blocks: seq<DataBlock>, e: Entry) returns (b: nat, j: nat)
    requires e in Flatten(blocks)
    ensures b < |blocks| && j < |blocks[b].entries| && blocks[b].entries[j] == e
  {
    var n := |blocks| - 1;
    if e in blocks[n].entries {
      b := n;
      j :| 0 <= j < |blocks[n].entries| && blocks[n].entries[j] == e;
    } else {
      b, j := InSomeBlock(blocks[..n], e);
    }
  }

  lemma FirstIsOne(es: seq<Entry>, k: InternalKey, d: Entry, e: Entry)
    requires FirstAtLeast(es, k, d) && FirstAtLeast(es, k, e)
    ensures d == e
  {
  }

  // ----- What the index says -----

  lemma KeyAtMost(a: InternalKey, b: InternalKey, c: InternalKey)
    requires !KeyLess(b, a) && KeyLess(b, c)
    ensures KeyLess(a, c)
  {
    KeyTotal(a, b);
    if a != b { KeyTrans(a, b, c); }
  }

  /** Blocks whose separator is below the key hold only smaller keys. */
  lemma BlockBelow(t: Table, k: InternalKey, b: nat)
    requires BlocksInOrder(t.blocks) && |t.index| == |t.blocks| && IndexReaches(t.index, t.blocks)
    requires b < |t.index| && KeyLess(t.index[b].key, k)
    ensures AllBelow(t.blocks[b].entries, k)
  {
    var es := t.blocks[b].entries;
    KeyAtMost(LastKey(es), t.index[b].key, k);
    hide KeyLess;
    forall j | 0 <= j < |es| ensures KeyLess(es[j].key, k) {
      if j < |es| - 1 { KeyTrans(es[j].key, LastKey(es), k); }
    }
  }

  /** A key that the index sends to a block without an entry for it is in no later block either. */
  lemma NotInLaterBlocks(t: Table, k: InternalKey, i: nat, c: nat, j: nat)
    requires BlocksInOrder(t.blocks) && |t.index| == |t.blocks| && IndexRight(t.index, t.blocks)
    requires i < c < |t.blocks| && j < |t.blocks[c].entries|
    requires !KeyLess(t.index[i].key, k) && AllBelow(t.blocks[i].entries, k)
    ensures t.blocks[c].entries[j].key.user != k.user
  {
    var b, sep, e := t.blocks[i].entries, t.index[i].key, t.blocks[c].entries[j];
    assert Separates(sep, b, t.blocks[c].entries);
    assert KeyLess(LastKey(b), k);
    assert Less(sep.user, e.key.user);
    LessTotal(sep.user, e.key.user);
    if e.key.user == k.user { assert KeyLess(sep, k); }
  }

  /** The lookup in block i answers for the whole table. */
  lemma BlockAnswers(t: Table, k: InternalKey, i: nat, e: Entry)
    requires BlocksInOrder(t.blocks) && |t.index| == |t.blocks|
    requires IndexRight(t.index, t.blocks) && IndexReaches(t.index, t.blocks)
    requires i <= |t.index| && (forall b :: 0 <= b < i ==> KeyLess(t.index[b].key, k))
    requires i < |t.index| ==> !KeyLess(t.index[i].key, k)
    requires FirstAtLeast(Flatten(t.blocks), k, e) && e.key.user == k.user
    ensures i < |t.blocks| && exists j: nat :: IsFirst(t.blocks[i].entries, j, k) && t.blocks[i].entries[j] == e
  {
    hide KeyLess, Flatten, IndexRight, IndexReaches;
    var b, j := InSomeBlock(t.blocks, e);
    forall c | 0 <= c < i ensures AllBelow(t.blocks[c].entries, k) { BlockBelow(t, k, c); }
    assert !KeyLess(e.key, k);
    assert b >= i;
    var es := t.blocks[i].entries;
    if x: nat :| IsFirst(es, x, k) {
      FirstInTable(t.blocks, k, i, x);
      FirstIsOne(Flatten(t.blocks), k, e, es[x]);
    } else {
      NoneIsFirst(es, k);
      if b > i { NotInLaterBlocks(t, k, i, b, j); }
    }
  }

  ghost predicate IsFirst(es: seq<Entry>, j: nat, k: InternalKey) {
    j < |es| && !KeyLess(es[j].key, k) && AllBelow(es[..j], k)
  }

  lemma {:induction false} NoneIsFirst(es: seq<Entry>, k: InternalKey)
    requires forall j: nat :: !IsFirst(es, j, k)
    ensures AllBelow(es, k)
  {
    hide KeyLess;
    var n := 0;
    while n < |es|
      invariant n <= |es| && AllBelow(es[..n], k)
    {
      assert !IsFirst(es, n, k);
      assert es[..n + 1] == es[..n] + [es[n]];
      n := n + 1;
    }
    assert es[..n] == es;
  }

  lemma FirstInBlock(es: seq<Entry>, k: InternalKey, i: nat, j: nat)
    requires IsFirst(es, i, k) && IsFirst(es, j, k)
    ensures i == j
  {
  }
}
