/** The hash table of the cache: chains of handles, grown as entries come. */
module HandleTables {
  import opened Wrappers

  type Key = string

  /** A handle in a chain, with the key and hash it never changes. */
  datatype Slot = Slot(id: nat, key: Key, hash: nat)

  type Chains = seq<seq<Slot>>

  ghost predicate In(list: Chains, x: Slot) {
    exists b :: 0 <= b < |list| && x in list[b]
  }

  /** Every slot is in the bucket of its hash, which is the hash of its key. */
  ghost predicate Placed(list: Chains, hashOf: Key -> nat) {
    && |list| > 0
    && forall b, i :: 0 <= b < |list| && 0 <= i < |list[b]| ==>
         list[b][i].hash == hashOf(list[b][i].key) && list[b][i].hash % |list| == b
  }

  /** No key occurs twice in a chain. */
  ghost predicate KeysOnce(list: Chains) {
    forall b :: 0 <= b < |list| ==> ChainOnce(list[b])
  }

  ghost predicate ChainOnce(chain: seq<Slot>) {
    forall i, j :: 0 <= i < j < |chain| ==> chain[i].key != chain[j].key
  }

  function Total(list: Chains): nat {
    if list == [] then 0 else Total(list[..|list| - 1]) + |list[|list| - 1]|
  }

  lemma {:induction false} TotalUpdate(list: Chains, b: nat, chain: seq<Slot>)
    requires b < |list|
    ensures Total(list[b := chain]) + |list[b]| == Total(list) + |chain|
  {
    var n := |list| - 1;
    if b < n {
      TotalUpdate(list[..n], b, chain);
      assert list[b := chain][..n] == list[..n][b := chain];
    } else {
      assert list[b := chain][..n] == list[..n];
    }
  }

  /** A key is nowhere but in its own bucket. */
  lemma OnlyInBucket(list: Chains, hashOf: Key -> nat, x: Slot)
    requires Placed(list, hashOf) && In(list, x)
    ensures x.hash == hashOf(x.key) && x in list[x.hash % |list|]
  {
    var b :| 0 <= b < |list| && x in list[b];
    var i :| 0 <= i < |list[b]| && list[b][i] == x;
  }

  lemma InAfterUpdate(list: Chains, b: nat, chain: seq<Slot>, x: Slot)
    requires b < |list|
    ensures In(list[b := chain], x) <==> x in chain || exists c :: 0 <= c < |list| && c != b && x in list[c]
  {
    var list' := list[b := chain];
    if x in chain { assert x in list'[b]; }
    if c :| 0 <= c < |list| && c != b && x in list[c] { assert x in list'[c]; }
    if In(list', x) {
      var c :| 0 <= c < |list'| && x in list'[c];
      if c != b { assert x in list[c]; }
    }
  }

  function Empty(n: nat): (list: Chains)
    ensures |list| == n && forall b :: 0 <= b < n ==> list[b] == []
  {
    seq(n, b => [])
  }

  lemma {:induction false} EmptyTotal(n: nat)
    ensures Total(Empty(n)) == 0
  {
    if n > 0 {
      EmptyTotal(n - 1);
      assert Empty(n)[..n - 1] == Empty(n - 1);
    }
  }

  /** Another slot in the place of the one with its key. */
  lemma ReplaceInChain(chain: seq<Slot>, i: nat, h: Slot)
    requires ChainOnce(chain) && i < |chain| && chain[i].key == h.key
    ensures ChainOnce(chain[i := h])
    ensures forall x :: x in chain[i := h] <==> x == h || (x in chain && x.key != h.key)
  {
    var chain' := chain[i := h];
    forall x | x in chain && x.key != h.key ensures x in chain' {
      var j :| 0 <= j < |chain| && chain[j] == x;
      assert chain'[j] == x;
    }
    assert chain'[i] == h;
  }

  lemma AppendToChain(chain: seq<Slot>, h: Slot)
    requires ChainOnce(chain) && forall x :: x in chain ==> x.key != h.key
    ensures ChainOnce(chain + [h])
    ensures forall x :: x in chain + [h] <==> x == h || x in chain
  {
    var chain' := chain + [h];
    forall i, j | 0 <= i < j < |chain'| ensures chain'[i].key != chain'[j].key {
      if j == |chain| { assert chain[i] in chain; }
    }
  }

  lemma PrependToChain(chain: seq<Slot>, h: Slot)
    requires ChainOnce(chain) && forall x :: x in chain ==> x.key != h.key
    ensures ChainOnce([h] + chain)
    ensures forall x :: x in [h] + chain <==> x == h || x in chain
  {
    var chain' := [h] + chain;
    forall i, j | 0 <= i < j < |chain'| ensures chain'[i].key != chain'[j].key {
      if i == 0 { assert chain[j - 1] in chain; }
    }
  }

  lemma RemoveFromChain(chain: seq<Slot>, i: nat)
    requires ChainOnce(chain) && i < |chain|
    ensures ChainOnce(chain[..i] + chain[i + 1..])
    ensures forall x :: x in chain[..i] + chain[i + 1..] <==> x in chain && x.key != chain[i].key
  {
    var chain' := chain[..i] + chain[i + 1..];
    assert ChainOnce(chain');
    forall x ensures x in chain' <==> x in chain && x.key != chain[i].key {
      if x in chain && x.key != chain[i].key { StillInChain(chain, i, x); }
      if x in chain' { WasInChain(chain, i, x); }
    }
  }

  lemma StillInChain(chain: seq<Slot>, i: nat, x: Slot)
    requires i < |chain| && x in chain && x != chain[i]
    ensures x in chain[..i] + chain[i + 1..]
  {
    var j :| 0 <= j < |chain| && chain[j] == x;
    assert (chain[..i] + chain[i + 1..])[if j < i then j else j - 1] == x;
  }

  lemma WasInChain(chain: seq<Slot>, i: nat, x: Slot)
    requires ChainOnce(chain) && i < |chain| && x in chain[..i] + chain[i + 1..]
    ensures x in chain && x.key != chain[i].key
  {
    if x in chain[..i] {
      var j :| 0 <= j < i && chain[..i][j] == x;
    } else {
      var j :| 0 <= j < |chain| - i - 1 && chain[i + 1..][j] == x;
      assert chain[i + 1 + j] == x;
    }
  }

  /** A table with one chain changed, when all its slots belong there. */
  lemma ChangeChain(list: Chains, hashOf: Key -> nat, b: nat, chain: seq<Slot>)
    requires Placed(list, hashOf) && KeysOnce(list) && b < |list| && ChainOnce(chain)
    requires forall x :: x in chain ==> x.hash == hashOf(x.key) && x.hash % |list| == b
    ensures Placed(list[b := chain], hashOf) && KeysOnce(list[b := chain])
  {
    var list': Chains := list[b := chain];
    forall c, i | 0 <= c < |list'| && 0 <= i < |list'[c]|
      ensures list'[c][i].hash == hashOf(list'[c][i].key) && list'[c][i].hash % |list'| == c
    {
      if c == b { assert chain[i] in chain; }
    }
  }

  lemma ChainPlaced(list: Chains, hashOf: Key -> nat, b: nat)
    requires Placed(list, hashOf) && b < |list|
    ensures forall x :: x in list[b] ==> x.hash == hashOf(x.key) && x.hash % |list| == b
  {
    forall x | x in list[b] ensures x.hash == hashOf(x.key) && x.hash % |list| == b {
      var i :| 0 <= i < |list[b]| && list[b][i] == x;
    }
  }

  /** What is in the table after a change to the chain that one key belongs to. */
  lemma OneKeyChanged(list: Chains, hashOf: Key -> nat, chain: seq<Slot>, key: Key, x: Slot)
    requires Placed(list, hashOf)
    requires forall y: Slot :: y.key != key ==> (y in chain <==> y in list[hashOf(key) % |list|])
    ensures var b := hashOf(key) % |list|;
            In(list[b := chain], x) <==> if x.key == key then x in chain else In(list, x)
  {
    var b := hashOf(key) % |list|;
    InAfterUpdate(list, b, chain, x);
    if c :| 0 <= c < |list| && x in list[c] { ChainPlaced(list, hashOf, c); }
  }

  // ----- Moving the entries to a new table -----

  /** Chains before i, and j slots of chain i, have been moved. */
  ghost predicate Moved(list: Chains, more: Chains, hashOf: Key -> nat, i: nat, j: nat)
    requires i <= |list| && (i < |list| ==> j <= |list[i]|) && (i == |list| ==> j == 0)
  {
    && Placed(more, hashOf) && KeysOnce(more)
    && Total(more) == Total(list[..i]) + j
    && forall x :: In(more, x) <==> In(list[..i], x) || (i < |list| && x in list[i][..j])
  }

  lemma MovedNothing(list: Chains, more: Chains, hashOf: Key -> nat)
    requires more == Empty(|more|) && |more| > 0 && |list| > 0
    ensures Moved(list, more, hashOf, 0, 0)
  {
    EmptyTotal(|more|);
    assert list[..0] == [] && list[0][..0] == [];
  }

  /** The next slot's key is not in the new table yet. */
  lemma NotYetMoved(list: Chains, more: Chains, hashOf: Key -> nat, i: nat, j: nat, x: Slot)
    requires Placed(list, hashOf) && KeysOnce(list) && i < |list| && j < |list[i]|
    requires Moved(list, more, hashOf, i, j) && In(more, x)
    ensures x.key != list[i][j].key
  {
    hide Total;
    ChainPlaced(list, hashOf, i);
    assert list[i][j] in list[i];
    if x in list[i][..j] {
      var a :| 0 <= a < j && list[i][..j][a] == x;
      assert ChainOnce(list[i]);
    } else {
      var c :| 0 <= c < i && x in list[..i][c];
      ChainPlaced(list, hashOf, c);
    }
  }

  lemma MoveOne(list: Chains, more: Chains, hashOf: Key -> nat, i: nat, j: nat)
    requires Placed(list, hashOf) && KeysOnce(list) && i < |list| && j < |list[i]| && |more| > 0
    requires Moved(list, more, hashOf, i, j)
    ensures var h := list[i][j];
            Moved(list, more[h.hash % |more| := [h] + more[h.hash % |more|]], hashOf, i, j + 1)
  {
    hide Total;
    var h := list[i][j];
    var b := h.hash % |more|;
    ChainPlaced(list, hashOf, i);
    assert h in list[i];
    assert ChainOnce(more[b]);
    forall x | x in more[b] ensures x.key != h.key {
      assert In(more, x);
      NotYetMoved(list, more, hashOf, i, j, x);
    }
    PrependToChain(more[b], h);
    ChainPlaced(more, hashOf, b);
    ChangeChain(more, hashOf, b, [h] + more[b]);
    TotalUpdate(more, b, [h] + more[b]);
    assert list[i][..j + 1] == list[i][..j] + [h];
    var more' := more[b := [h] + more[b]];
    forall x ensures In(more', x) <==> In(list[..i], x) || x in list[i][..j + 1] {
      OneKeyChanged(more, hashOf, [h] + more[b], h.key, x);
      if In(more, x) { NotYetMoved(list, more, hashOf, i, j, x); }
    }
    assert Placed(more', hashOf);
    assert KeysOnce(more');
    assert Total(more') == Total(list[..i]) + (j + 1);
  }

  lemma MoveChain(list: Chains, more: Chains, hashOf: Key -> nat, i: nat)
    requires i < |list| && Moved(list, more, hashOf, i, |list[i]|)
    ensures Moved(list, more, hashOf, i + 1, 0)
  {
    var some := list[..i + 1];
    assert some[..i] == list[..i] && list[i][..|list[i]|] == list[i];
    assert some == list[..i] + [list[i]];
    forall x ensures In(some, x) <==> In(list[..i], x) || x in list[i] {
      if In(some, x) {
        var c :| 0 <= c < |some| && x in some[c];
        if c < i { assert x in list[..i][c]; }
      }
      if In(list[..i], x) {
        var c :| 0 <= c < i && x in list[..i][c];
        assert x in some[c];
      }
      if x in list[i] { assert x in some[i]; }
    }
    if i + 1 < |list| { assert list[i + 1][..0] == []; }
  }

  lemma MovedAll(list: Chains, more: Chains, hashOf: Key -> nat)
    requires Moved(list, more, hashOf, |list|, 0)
    ensures Placed(more, hashOf) && KeysOnce(more) && Total(more) == Total(list)
    ensures forall x :: In(more, x) <==> In(list, x)
  {
    assert list[..|list|] == list;
  }

  /** A number of buckets for which masking a hash with it less one is taking the remainder. */
  predicate PowerOfTwo(n: nat) {
    n == 1 || (n > 0 && n % 2 == 0 && PowerOfTwo(n / 2))
  }

  class HandleTable {
    const hashOf: Key -> nat
    var elems: nat
    var list: Chains

    ghost predicate Valid()
      reads this
    {
      Placed(list, hashOf) && KeysOnce(list) && elems == Total(list) && PowerOfTwo(|list|)
    }

    constructor (hashOf: Key -> nat)
      ensures Valid() && this.hashOf == hashOf && forall x :: !In(list, x)
    {
      this.hashOf := hashOf;
      elems := 0;
      list := Empty(4);
      EmptyTotal(4);
    }

    /** The slot with this key, or the end of the chain it would be in. */
    method FindPointer(key: Key, hash: nat) returns (b: nat, i: nat)
      requires Valid() && hash == hashOf(key)
      ensures b == hash % |list| && i <= |list[b]|
      ensures i < |list[b]| ==> list[b][i].key == key
      ensures i == |list[b]| ==> forall x :: In(list, x) ==> x.key != key
    {
      b := hash % |list|;
      i := 0;
      while i < |list[b]| && (list[b][i].hash != hash || list[b][i].key != key)
        invariant i <= |list[b]| && forall j :: 0 <= j < i ==> list[b][j].key != key
      {
        i := i + 1;
      }
      if i == |list[b]| {
        forall x | In(list, x) ensures x.key != key {
          OnlyInBucket(list, hashOf, x);
        }
      }
    }

    method Lookup(key: Key, hash: nat) returns (r: Option<Slot>)
      requires Valid() && hash == hashOf(key)
      ensures r.Some? ==> In(list, r.value) && r.value.key == key
      ensures r.None? ==> forall x :: In(list, x) ==> x.key != key
    {
      var b, i := FindPointer(key, hash);
      r := if i < |list[b]| then Some(list[b][i]) else None;
    }

    /** Put a handle in the table, in the place of one with the same key. */
    method Insert(h: Slot) returns (old_: Option<Slot>)
      requires Valid() && h.hash == hashOf(h.key)
      modifies this
      ensures Valid()
      ensures old_.Some? ==> old(In(list, old_.value)) && old_.value.key == h.key
      ensures old_.None? ==> forall x :: old(In(list, x)) ==> x.key != h.key
      ensures forall x :: In(list, x) <==> x == h || (old(In(list, x)) && x.key != h.key)
    {
      hide Total;
      var b, i := FindPointer(h.key, h.hash);
      ghost var was := list;
      var chain := list[b];
      assert ChainOnce(chain);
      assert forall x :: x in chain ==> In(was, x);
      ChainPlaced(was, hashOf, b);
      if i < |chain| {
        old_ := Some(chain[i]);
        ReplaceInChain(chain, i, h);
        ChangeChain(was, hashOf, b, chain[i := h]);
        TotalUpdate(was, b, chain[i := h]);
        list := list[b := chain[i := h]];
        forall x ensures In(list, x) <==> if x.key == h.key then x in list[b] else In(was, x) {
          OneKeyChanged(was, hashOf, list[b], h.key, x);
        }
      } else {
        old_ := None;
        AppendToChain(chain, h);
        ChangeChain(was, hashOf, b, chain + [h]);
        TotalUpdate(was, b, chain + [h]);
        list := list[b := chain + [h]];
        forall x ensures In(list, x) <==> if x.key == h.key then x in list[b] else In(was, x) {
          OneKeyChanged(was, hashOf, list[b], h.key, x);
        }
        elems := elems + 1;
        if elems > |list| {
          Resize();
        }
      }
    }

    method Remove(key: Key, hash: nat) returns (r: Option<Slot>)
      requires Valid() && hash == hashOf(key)
      modifies this
      ensures Valid()
      ensures r.Some? ==> old(In(list, r.value)) && r.value.key == key
      ensures r.None? ==> forall x :: old(In(list, x)) ==> x.key != key
      ensures forall x :: In(list, x) <==> old(In(list, x)) && x.key != key
    {
      hide Total;
      var b, i := FindPointer(key, hash);
      r := None;
      if i < |list[b]| {
        ghost var was := list;
        var chain := list[b];
        assert ChainOnce(chain);
        r := Some(chain[i]);
        RemoveFromChain(chain, i);
        ChainPlaced(was, hashOf, b);
        ChangeChain(was, hashOf, b, chain[..i] + chain[i + 1..]);
        TotalUpdate(was, b, chain[..i] + chain[i + 1..]);
        list := list[b := chain[..i] + chain[i + 1..]];
        forall x ensures In(list, x) <==> if x.key == key then x in list[b] else In(was, x) {
          OneKeyChanged(was, hashOf, list[b], key, x);
        }
        elems := elems - 1;
      }
    }

    /** A table large enough for its entries, each moved to the front of its new chain. */
    method Resize()
      requires Valid()
      modifies this
      ensures Valid() && elems == old(elems) && |list| >= elems && (|list| == 4 || |list| < 2 * elems)
      ensures forall x :: In(list, x) <==> old(In(list, x))
    {
      assert PowerOfTwo(2);
      var newLength := 4;
      while newLength < elems
        invariant newLength > 0 && PowerOfTwo(newLength) && (newLength == 4 || newLength < 2 * elems)
        decreases elems - newLength
      {
        newLength := newLength * 2;
      }
      ghost var was := list;
      var newList := Empty(newLength);
      EmptyTotal(newLength);
      hide Total, Placed, KeysOnce;
      MovedNothing(was, newList, hashOf);
      for i := 0 to |list|
        invariant list == was && elems == old(elems) && |newList| == newLength
        invariant Moved(was, newList, hashOf, i, 0)
      {
        for j := 0 to |list[i]|
          invariant list == was && elems == old(elems) && |newList| == newLength
          invariant Moved(was, newList, hashOf, i, j)
        {
          var h := list[i][j];
          var b := h.hash % newLength;
          MoveOne(was, newList, hashOf, i, j);
          newList := newList[b := [h] + newList[b]];
        }
        MoveChain(was, newList, hashOf, i);
      }
      MovedAll(was, newList, hashOf);
      list := newList;
    }
  }
}
