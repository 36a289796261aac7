/** One shard of the cache: entries on a list from least to most recently used, and a table of them. */
module LruCaches {
  import opened Wrappers
  import opened HandleTables

  /** An entry in memory; handles are entry numbers, never used twice. */
  datatype Entry = Entry(key: Key, hash: nat, value: string, charge: nat, refs: nat)

  type Memory = map<nat, Entry>

  // ----- Total charge -----

  ghost function Charges(m: Memory): map<nat, nat> {
    map id | id in m :: m[id].charge
  }

  ghost function Sum(c: map<nat, nat>): nat {
    if c == map[] then 0
    else
      var id :| id in c;
      c[id] + Sum(c - {id})
  }

  lemma {:induction false} SumWithout(c: map<nat, nat>, id: nat)
    requires id in c
    ensures Sum(c) == c[id] + Sum(c - {id})
    decreases |c|
  {
    var x :| x in c && Sum(c) == c[x] + Sum(c - {x});
    if x != id {
      SumWithout(c - {x}, id);
      SumWithout(c - {id}, x);
      assert (c - {x}) - {id} == (c - {id}) - {x};
    }
  }

  lemma SumWith(c: map<nat, nat>, id: nat, v: nat)
    requires id !in c
    ensures Sum(c[id := v]) == Sum(c) + v
  {
    SumWithout(c[id := v], id);
    assert c[id := v] - {id} == c;
  }

  // ----- The list -----

  ghost predicate Distinct(s: seq<nat>) {
    forall i, j :: 0 <= i < j < |s| ==> s[i] != s[j]
  }

  function Without(s: seq<nat>, x: nat): seq<nat> {
    if s == [] then [] else (if s[0] == x then [] else [s[0]]) + Without(s[1..], x)
  }

  lemma PrependDistinct(x: nat, s: seq<nat>)
    requires Distinct(s) && x !in s
    ensures Distinct([x] + s)
  {
    forall i, j | 0 <= i < j < |[x] + s| ensures ([x] + s)[i] != ([x] + s)[j] {
      if i == 0 { assert s[j - 1] in s; }
    }
  }

  lemma AppendDistinct(s: seq<nat>, x: nat)
    requires Distinct(s) && x !in s
    ensures Distinct(s + [x])
  {
    forall i, j | 0 <= i < j < |s + [x]| ensures (s + [x])[i] != (s + [x])[j] {
      if j == |s| { assert s[i] in s; }
    }
  }

  lemma {:induction false} WithoutMeans(s: seq<nat>, x: nat)
    ensures forall y :: y in Without(s, x) <==> y in s && y != x
    ensures Distinct(s) ==> Distinct(Without(s, x))
    ensures Distinct(s) && x in s ==> |Without(s, x)| + 1 == |s|
    ensures x !in s ==> Without(s, x) == s
  {
    if s != [] {
      WithoutMeans(s[1..], x);
      assert s == [s[0]] + s[1..];
      if Distinct(s) && s[0] != x { PrependDistinct(s[0], Without(s[1..], x)); }
    }
  }

  // ----- What the cache keeps -----

  /** References: one for the list, one for each handle a client holds, and one yet to be dropped. */
  ghost predicate RefsRight(m: Memory, lru: seq<nat>, held: map<nat, nat>, loose: Option<nat>) {
    && (forall id :: id in held ==> held[id] > 0 && id in m)
    && forall id :: id in m ==>
         && m[id].refs > 0
         && m[id].refs == (if id in lru then 1 else 0) + (if id in held then held[id] else 0)
                          + (if loose == Some(id) then 1 else 0)
  }

  function SlotOf(m: Memory, id: nat): Slot
    requires id in m
  {
    Slot(id, m[id].key, m[id].hash)
  }

  ghost predicate HashesRight(m: Memory, hashOf: Key -> nat) {
    forall id :: id in m ==> m[id].hash == hashOf(m[id].key)
  }

  /** The table has exactly the entries on the list. */
  ghost predicate TableRight(list: Chains, m: Memory, lru: seq<nat>) {
    && (forall id :: id in lru ==> id in m)
    && forall x :: In(list, x) <==> x.id in lru && x == SlotOf(m, x.id)
  }

  /** Every entry ever made is in memory or has been deleted, once. */
  ghost predicate DeletedOnce(m: Memory, deleted: seq<nat>, made: nat) {
    && Distinct(deleted)
    && (forall id :: id in deleted ==> id < made && id !in m)
    && (forall id :: 0 <= id < made ==> id in m || id in deleted)
    && forall id :: id in m ==> id < made
  }

  // ----- Changes to the memory that keep all that -----

  /** One reference less, with others left. */
  lemma DropReference(list: Chains, m: Memory, lru: seq<nat>, held: map<nat, nat>, deleted: seq<nat>, made: nat, id: nat)
    requires id in m && m[id].refs > 1 && RefsRight(m, lru, held, Some(id))
    requires TableRight(list, m, lru) && DeletedOnce(m, deleted, made)
    ensures var m' := m[id := m[id].(refs := m[id].refs - 1)];
            && RefsRight(m', lru, held, None) && TableRight(list, m', lru) && DeletedOnce(m', deleted, made)
            && Charges(m') == Charges(m)
  {
    var m' := m[id := m[id].(refs := m[id].refs - 1)];
    forall x ensures In(list, x) <==> x.id in lru && x == SlotOf(m', x.id) {
      if x.id in lru { assert SlotOf(m', x.id) == SlotOf(m, x.id); }
    }
  }

  /** The last reference: the entry goes. */
  lemma DropEntry(list: Chains, m: Memory, lru: seq<nat>, held: map<nat, nat>, deleted: seq<nat>, made: nat, id: nat)
    requires id in m && m[id].refs == 1 && RefsRight(m, lru, held, Some(id))
    requires TableRight(list, m, lru) && DeletedOnce(m, deleted, made)
    ensures id !in lru && id !in held
    ensures RefsRight(m - {id}, lru, held, None) && TableRight(list, m - {id}, lru)
    ensures DeletedOnce(m - {id}, deleted + [id], made)
    ensures Sum(Charges(m)) == m[id].charge + Sum(Charges(m - {id}))
  {
    var m' := m - {id};
    forall x ensures In(list, x) <==> x.id in lru && x == SlotOf(m', x.id) {
      if x.id in lru { assert SlotOf(m', x.id) == SlotOf(m, x.id); }
    }
    AppendDistinct(deleted, id);
    SumWithout(Charges(m), id);
    assert Charges(m') == Charges(m) - {id};
  }

  /** What is left is as it was, but for references. */
  ghost predicate SameEntries(m: Memory, m': Memory) {
    forall id :: id in m' ==> id in m && m'[id].(refs := 0) == m[id].(refs := 0)
  }

  class LRUCache {
    const table: HandleTable
    const capacity: nat
    var usage: nat
    var lru: seq<nat>
    var memory: Memory
    var made: nat

    /** The entries whose deleter has run, in order. */
    var deleted: seq<nat>

    /** The handles that clients hold. */
    ghost var held: map<nat, nat>

    ghost predicate Valid()
      reads this, table
    {
      Consistent(None)
    }

    ghost predicate Consistent(loose: Option<nat>)
      reads this, table
    {
      && table.Valid() && Distinct(lru)
      && HashesRight(memory, table.hashOf)
      && TableRight(table.list, memory, lru)
      && RefsRight(memory, lru, held, loose)
      && usage == Sum(Charges(memory))
      && DeletedOnce(memory, deleted, made)
    }

    constructor (capacity: nat, hashOf: Key -> nat)
      ensures Valid() && fresh(table) && this.capacity == capacity && lru == [] && memory == map[] && deleted == []
      ensures table.hashOf == hashOf && held == map[]
    {
      table := new HandleTable(hashOf);
      this.capacity := capacity;
      usage, lru, memory, made, deleted, held := 0, [], map[], 0, [], map[];
    }

    /** Drop a reference that nobody counts on; the last one deletes the entry. */
    method Unref(id: nat)
      requires Consistent(Some(id)) && id in memory
      modifies `memory, `usage, `deleted
      ensures Valid()
      ensures if id in held || id in lru then deleted == old(deleted) && id in memory
              else deleted == old(deleted) + [id] && id !in memory
      ensures SameEntries(old(memory), memory)
      ensures usage == old(usage) - if id in memory then 0 else old(memory)[id].charge
    {
      hide TableRight, DeletedOnce, Distinct, Sum, Charges, HandleTable.Valid;
      var e := memory[id];
      if e.refs == 1 {
        DropEntry(table.list, memory, lru, held, deleted, made, id);
        usage := usage - e.charge;
        deleted := deleted + [id];
        memory := memory - {id};
      } else {
        DropReference(table.list, memory, lru, held, deleted, made, id);
        memory := memory[id := e.(refs := e.refs - 1)];
      }
    }

    /** A client gives a handle back. */
    method Release(id: nat)
      requires Valid() && id in held
      modifies this
      ensures Valid() && lru == old(lru)
      ensures held == if old(held)[id] == 1 then old(held) - {id} else old(held)[id := old(held)[id] - 1]
      ensures deleted == if id in held || id in lru then old(deleted) else old(deleted) + [id]
    {
      hide TableRight, DeletedOnce, Distinct, Sum, Charges, HandleTable.Valid;
      GiveBack(memory, lru, held, id);
      held := if held[id] == 1 then held - {id} else held[id := held[id] - 1];
      Unref(id);
    }

    /** The entry for a key, now the most recently used, with a handle for the caller. */
    method Lookup(key: Key, hash: nat) returns (r: Option<nat>)
      requires Valid() && hash == table.hashOf(key)
      modifies this
      ensures Valid() && deleted == old(deleted) && usage == old(usage)
      ensures r.None? ==> lru == old(lru) && held == old(held)
      ensures r.None? ==> forall id :: id in lru ==> id in memory && memory[id].key != key
      ensures r.Some? ==> r.value in old(lru) && r.value in memory && memory[r.value].key == key
      ensures r.Some? ==> lru == Without(old(lru), r.value) + [r.value]
      ensures r.Some? ==> held == TakeHandle(old(held), r.value)
    {
      hide DeletedOnce, Distinct, Sum, Charges, HandleTable.Valid, RefsRight;
      var slot := table.Lookup(key, hash);
      if slot.None? {
        r := None;
        NotOnList(table.list, memory, lru, key);
        return;
      }
      var id := slot.value.id;
      TakeReference(table.list, memory, lru, held, deleted, made, id);
      var e := memory[id];
      memory := memory[id := e.(refs := e.refs + 1)];
      held := TakeHandle(held, id);
      MoveToEnd(table.list, memory, lru, held, id);
      lru := Without(lru, id) + [id];
      r := Some(id);
    }

    /** Take an entry out of the table; what its handles keep stays in memory. */
    method Erase(key: Key, hash: nat)
      requires Valid() && hash == table.hashOf(key)
      modifies this, table
      ensures Valid() && held == old(held) && SameEntries(old(memory), memory)
      ensures Erased(old(lru), old(memory), held, old(deleted), key, lru, deleted)
    {
      hide DeletedOnce, Distinct, Sum, Charges, HandleTable.Valid, RefsRight, TableRight;
      ghost var list := table.list;
      TableUnique(table);
      var slot := table.Remove(key, hash);
      if slot.Some? {
        var id := slot.value.id;
        OffList(list, table.list, memory, lru, held, slot.value);
        lru := Without(lru, id);
        WithoutMeans(old(lru), id);
        Unref(id);
      } else {
        NotOnList(list, memory, lru, key);
        SameTable(list, table.list, memory, lru);
        SameItself(memory);
      }
    }

    /** Drop the least recently used entry from list and table. */
    method EvictOldest()
      requires Valid() && lru != []
      modifies this, table
      ensures Valid() && held == old(held) && lru == old(lru)[1..] && SameEntries(old(memory), memory)
      ensures old(lru)[0] in old(memory) && old(usage) <= usage + old(memory)[old(lru)[0]].charge
      ensures deleted == if old(lru)[0] in held then old(deleted) else old(deleted) + [old(lru)[0]]
    {
      hide DeletedOnce, Distinct, Sum, Charges, HandleTable.Valid, RefsRight, TableRight;
      var oldest := lru[0];
      ghost var list := table.list;
      TableUnique(table);
      OnList(table.list, memory, lru, oldest);
      var e := memory[oldest];
      var slot := table.Remove(e.key, e.hash);
      OffList(list, table.list, memory, lru, held, SlotOf(memory, oldest));
      WithoutFirst(lru);
      WithoutMeans(lru, oldest);
      lru := lru[1..];
      Unref(oldest);
    }

    /** A new entry at the end of the list, in the place of any other with its key. */
    method Place(key: Key, hash: nat, value: string, charge: nat)
      requires Valid() && hash == table.hashOf(key)
      modifies this, table
      ensures Valid() && made == old(made) + 1 && held == old(held)[old(made) := 1]
      ensures PlacedList(old(lru), old(memory), key, old(made), lru)
      ensures SameEntries(old(memory)[old(made) := Entry(key, hash, value, charge, 2)], memory)
    {
      hide DeletedOnce, Distinct, Sum, Charges, HandleTable.Valid, RefsRight, TableRight, SameEntries, HashesRight, UniqueKeys, PlacedList, In, Without;
      var id := made;
      var e := Entry(key, hash, value, charge, 2);
      NewEntry(table.list, memory, lru, held, deleted, made, e, table.hashOf);
      TableUnique(table);
      ghost var list, was := table.list, memory;
      memory := memory[id := e];
      lru := lru + [id];
      usage := usage + charge;
      made := made + 1;
      held := held[id := 1];
      var old_ := table.Insert(SlotOf(memory, id));
      if old_.Some? {
        Replaces(list, table.list, was, id, e, old(lru), held, old_.value);
        lru := Without(lru, old_.value.id);
        Unref(old_.value.id);
      } else {
        ReplacesNothing(list, table.list, was, id, e, old(lru));
        SameItself(memory);
      }
    }

    /** Insert, then evict until the rest fits. */
    method Insert(key: Key, hash: nat, value: string, charge: nat) returns (id: nat)
      requires Valid() && hash == table.hashOf(key)
      modifies this, table
      ensures Valid() && id == old(made) && held == old(held)[id := 1]
      ensures usage <= capacity || lru == []
      ensures id in memory && memory[id].key == key && memory[id].value == value && memory[id].charge == charge
      ensures EvictedFrom(old(lru), old(memory), id, Entry(key, hash, value, charge, 2), lru, usage, capacity)
    {
      hide DeletedOnce, Distinct, Sum, Charges, HandleTable.Valid, TableRight, PlacedList;
      id := made;
      Place(key, hash, value, charge);
      ghost var all := lru;
      ghost var k := 0;
      ghost var m := old(memory)[id := Entry(key, hash, value, charge, 2)];
      while usage > capacity && lru != []
        invariant Valid() && held == old(held)[id := 1]
        invariant EvictedOnlyOver(m, all, k, lru, usage, capacity)
        invariant SameEntries(m, memory)
        decreases |lru|
      {
        EvictOldest();
        k := k + 1;
      }
    }
  }

  /** The list after entry e was placed as number id and as many of the oldest evicted as need be. */
  ghost predicate EvictedFrom(lru: seq<nat>, m: Memory, id: nat, e: Entry, lru': seq<nat>, usage: nat, capacity: nat) {
    var m' := m[id := e];
    exists all, k: nat :: PlacedList(lru, m, e.key, id, all) && EvictedOnlyOver(m', all, k, lru', usage, capacity)
  }

  /** The k oldest of the list were evicted, the last of them while the charge was still too high. */
  ghost predicate EvictedOnlyOver(m: Memory, all: seq<nat>, k: nat, lru: seq<nat>, usage: nat, capacity: nat) {
    && k <= |all| && lru == all[k..]
    && (k > 0 ==> all[k - 1] in m && usage + m[all[k - 1]].charge > capacity)
  }

  /** The new entry at the end of the list without the one it replaces. */
  ghost predicate PlacedList(lru: seq<nat>, m: Memory, key: Key, id: nat, all: seq<nat>) {
    all != [] && all[|all| - 1] == id && ListAfter(lru, m, key, all[..|all| - 1])
  }

  /** The entry with this key is off the list, and deleted unless a client holds it; or there is none. */
  ghost predicate Erased(lru: seq<nat>, m: Memory, held: map<nat, nat>, deleted: seq<nat>, key: Key,
                         lru': seq<nat>, deleted': seq<nat>) {
    if exists o :: o in lru && o in m && m[o].key == key
    then exists o :: o in lru && o in m && m[o].key == key && lru' == Without(lru, o)
                     && deleted' == if o in held then deleted else deleted + [o]
    else lru' == lru && deleted' == deleted
  }

  /** The list without the entry that has this key, if there is one. */
  ghost predicate ListAfter(lru: seq<nat>, m: Memory, key: Key, rest: seq<nat>) {
    if exists o :: o in lru && o in m && m[o].key == key
    then exists o :: o in lru && o in m && m[o].key == key && rest == Without(lru, o)
    else rest == lru
  }

  lemma SameItself(m: Memory)
    ensures SameEntries(m, m)
  {
  }

  // ----- The table and the list together -----

  /** Two slots with one key are one slot. */
  ghost predicate UniqueKeys(list: Chains) {
    forall x, y :: In(list, x) && In(list, y) && x.key == y.key ==> x == y
  }

  lemma TableUnique(table: HandleTable)
    requires table.Valid()
    ensures UniqueKeys(table.list)
  {
    forall x, y | In(table.list, x) && In(table.list, y) && x.key == y.key ensures x == y {
      OnlyInBucket(table.list, table.hashOf, x);
      OnlyInBucket(table.list, table.hashOf, y);
      var chain := table.list[x.hash % |table.list|];
      assert ChainOnce(chain);
      var i :| 0 <= i < |chain| && chain[i] == x;
      var j :| 0 <= j < |chain| && chain[j] == y;
    }
  }

  lemma OnList(list: Chains, m: Memory, lru: seq<nat>, id: nat)
    requires TableRight(list, m, lru) && id in lru
    ensures id in m && In(list, SlotOf(m, id))
  {
    assert SlotOf(m, id).id == id;
  }

  lemma WithoutFirst(s: seq<nat>)
    requires Distinct(s) && s != []
    ensures Without(s, s[0]) == s[1..]
  {
    assert s[0] !in s[1..];
    WithoutMeans(s[1..], s[0]);
  }

  lemma SameTable(list: Chains, list': Chains, m: Memory, lru: seq<nat>)
    requires TableRight(list, m, lru) && forall x :: In(list', x) <==> In(list, x)
    ensures TableRight(list', m, lru)
  {
  }

  /** A slot taken out of the table, and its entry off the list. */
  lemma OffList(list: Chains, list': Chains, m: Memory, lru: seq<nat>, held: map<nat, nat>, slot: Slot)
    requires TableRight(list, m, lru) && RefsRight(m, lru, held, None) && UniqueKeys(list) && Distinct(lru) && In(list, slot)
    requires forall x :: In(list', x) <==> In(list, x) && x.key != slot.key
    ensures slot.id in m && slot.id in lru && slot == SlotOf(m, slot.id)
    ensures Distinct(Without(lru, slot.id))
    ensures TableRight(list', m, Without(lru, slot.id)) && RefsRight(m, Without(lru, slot.id), held, Some(slot.id))
    ensures forall id :: id in Without(lru, slot.id) <==> id in lru && id in m && m[id].key != slot.key
  {
    WithoutMeans(lru, slot.id);
    forall id | id in lru && id != slot.id ensures m[id].key != slot.key { OnList(list, m, lru, id); }
  }

  lemma NewRefs(m: Memory, lru: seq<nat>, held: map<nat, nat>, id: nat, e: Entry)
    requires RefsRight(m, lru, held, None) && id !in m && id !in lru && e.refs == 2
    ensures id !in held && RefsRight(m[id := e], lru + [id], held[id := 1], None)
  {
  }

  lemma NewDeleted(m: Memory, deleted: seq<nat>, made: nat, e: Entry)
    requires DeletedOnce(m, deleted, made)
    ensures made !in m && DeletedOnce(m[made := e], deleted, made + 1)
  {
  }

  lemma NewCharge(m: Memory, id: nat, e: Entry)
    requires id !in m
    ensures Sum(Charges(m[id := e])) == Sum(Charges(m)) + e.charge
  {
    SumWith(Charges(m), id, e.charge);
    assert Charges(m[id := e]) == Charges(m)[id := e.charge];
  }

  lemma NewEntry(list: Chains, m: Memory, lru: seq<nat>, held: map<nat, nat>, deleted: seq<nat>, made: nat, e: Entry,
                 hashOf: Key -> nat)
    requires TableRight(list, m, lru) && RefsRight(m, lru, held, None) && DeletedOnce(m, deleted, made) && Distinct(lru)
    requires HashesRight(m, hashOf) && e.refs == 2 && e.hash == hashOf(e.key)
    ensures made !in m && made !in lru && made !in held
    ensures RefsRight(m[made := e], lru + [made], held[made := 1], None) && Distinct(lru + [made])
    ensures DeletedOnce(m[made := e], deleted, made + 1)
    ensures Sum(Charges(m[made := e])) == Sum(Charges(m)) + e.charge
    ensures HashesRight(m[made := e], hashOf)
  {
    NewDeleted(m, deleted, made, e);
    assert made !in lru;
    assert HashesRight(m[made := e], hashOf);
    hide RefsRight, DeletedOnce, Distinct, TableRight, Sum, Charges, HashesRight;
    AppendDistinct(lru, made);
    NewRefs(m, lru, held, made, e);
    NewCharge(m, made, e);
  }

  /** The new slot took the place of an old one. */
  lemma {:induction false} ReplacedTable(list: Chains, list': Chains, m: Memory, id: nat, e: Entry, lru: seq<nat>, lru': seq<nat>,
                                         old_: Slot)
    requires TableRight(list, m, lru) && UniqueKeys(list) && id !in m && id !in lru && In(list, old_) && old_.key == e.key
    requires forall x :: In(list', x) <==> x == Slot(id, e.key, e.hash) || (In(list, x) && x.key != e.key)
    requires forall x :: x in lru' <==> x == id || (x in lru && x != old_.id)
    ensures TableRight(list', m[id := e], lru')
  {
    var m' := m[id := e];
    forall o | o in lru && o != old_.id ensures o in m && m[o].key != e.key { OnList(list, m, lru, o); }
    forall x ensures In(list', x) <==> x.id in lru' && x == SlotOf(m', x.id) {
      if x.id in lru { assert SlotOf(m', x.id) == SlotOf(m, x.id); }
    }
  }

  lemma {:induction false} Replaces(list: Chains, list': Chains, m: Memory, id: nat, e: Entry, lru: seq<nat>,
                                    held: map<nat, nat>, old_: Slot)
    requires TableRight(list, m, lru) && UniqueKeys(list) && Distinct(lru + [id]) && id !in m && id !in lru
    requires In(list, old_) && old_.key == e.key
    requires forall x :: In(list', x) <==> x == Slot(id, e.key, e.hash) || (In(list, x) && x.key != e.key)
    requires RefsRight(m[id := e], lru + [id], held, None)
    ensures old_.id in m && old_.id in lru && old_.id != id
    ensures var lru' := Without(lru + [id], old_.id);
            && Distinct(lru') && PlacedList(lru, m, e.key, id, lru')
            && TableRight(list', m[id := e], lru') && RefsRight(m[id := e], lru', held, Some(old_.id))
  {
    assert old_.id in lru && old_.id in m && m[old_.id].key == e.key;
    hide TableRight, UniqueKeys, Distinct;
    WithoutAppend(lru, id, old_.id);
    WithoutMeans(lru + [id], old_.id);
    var lru' := Without(lru + [id], old_.id);
    assert lru'[..|lru'| - 1] == Without(lru, old_.id);
    ReplacedTable(list, list', m, id, e, lru, lru', old_);
  }

  lemma {:induction false} WithoutAppend(s: seq<nat>, y: nat, x: nat)
    requires y != x
    ensures Without(s + [y], x) == Without(s, x) + [y]
  {
    if s != [] {
      assert (s + [y])[1..] == s[1..] + [y];
      WithoutAppend(s[1..], y, x);
    }
  }

  lemma ReplacesNothing(list: Chains, list': Chains, m: Memory, id: nat, e: Entry, lru: seq<nat>)
    requires TableRight(list, m, lru) && id !in m && id !in lru
    requires forall x :: In(list, x) ==> x.key != e.key
    requires forall x :: In(list', x) <==> x == Slot(id, e.key, e.hash) || (In(list, x) && x.key != e.key)
    ensures TableRight(list', m[id := e], lru + [id]) && PlacedList(lru, m, e.key, id, lru + [id])
  {
    NotOnList(list, m, lru, e.key);
    assert (lru + [id])[..|lru|] == lru;
    var m' := m[id := e];
    forall x ensures In(list', x) <==> x.id in lru + [id] && x == SlotOf(m', x.id) {
      if x.id in lru { assert SlotOf(m', x.id) == SlotOf(m, x.id); }
    }
  }

  ghost function TakeHandle(held: map<nat, nat>, id: nat): map<nat, nat> {
    held[id := 1 + if id in held then held[id] else 0]
  }

  lemma GiveBack(m: Memory, lru: seq<nat>, held: map<nat, nat>, id: nat)
    requires RefsRight(m, lru, held, None) && id in held
    ensures RefsRight(m, lru, if held[id] == 1 then held - {id} else held[id := held[id] - 1], Some(id))
  {
  }

  lemma TakeReference(list: Chains, m: Memory, lru: seq<nat>, held: map<nat, nat>, deleted: seq<nat>, made: nat, id: nat)
    requires id in m && RefsRight(m, lru, held, None) && TableRight(list, m, lru) && DeletedOnce(m, deleted, made)
    ensures var m' := m[id := m[id].(refs := m[id].refs + 1)];
            && RefsRight(m', lru, TakeHandle(held, id), None) && TableRight(list, m', lru) && DeletedOnce(m', deleted, made)
            && Charges(m') == Charges(m)
  {
    var m' := m[id := m[id].(refs := m[id].refs + 1)];
    forall x ensures In(list, x) <==> x.id in lru && x == SlotOf(m', x.id) {
      if x.id in lru { assert SlotOf(m', x.id) == SlotOf(m, x.id); }
    }
  }

  lemma MoveToEnd(list: Chains, m: Memory, lru: seq<nat>, held: map<nat, nat>, id: nat)
    requires id in lru && Distinct(lru) && RefsRight(m, lru, held, None) && TableRight(list, m, lru)
    ensures var lru' := Without(lru, id) + [id];
            Distinct(lru') && RefsRight(m, lru', held, None) && TableRight(list, m, lru')
  {
    WithoutMeans(lru, id);
    AppendDistinct(Without(lru, id), id);
    var lru' := Without(lru, id) + [id];
    assert forall x :: x in lru' <==> x in lru;
  }

  lemma NotOnList(list: Chains, m: Memory, lru: seq<nat>, key: Key)
    requires TableRight(list, m, lru) && forall x :: In(list, x) ==> x.key != key
    ensures forall id :: id in lru ==> id in m && m[id].key != key
  {
    forall id | id in lru ensures id in m && m[id].key != key {
      assert In(list, SlotOf(m, id));
    }
  }
}
