/**
 * Common-input clustering: addresses spent together in one transaction belong to one entity.
 *
 * The two database tables are a map and a multiset; an SQL statement is one update of them.
 */
module EntityClusters {
  import opened Coding

  type Address = string

  /** The addressinfo table: 0 is an address that has no entity yet. */
  type AddressInfo = map<Address, nat>

  const COINBASE: Address := "00000000000000000000"

  // ----- Connection by common-input transactions -----

  /** Some transaction spends both addresses. */
  ghost predicate Linked(spent: seq<set<Address>>, a: Address, b: Address) {
    exists k :: 0 <= k < |spent| && a in spent[k] && b in spent[k]
  }

  ghost predicate Chain(spent: seq<set<Address>>, p: seq<Address>) {
    p != [] && forall i :: 0 <= i < |p| - 1 ==> Linked(spent, p[i], p[i + 1])
  }

  ghost predicate ChainFrom(spent: seq<set<Address>>, p: seq<Address>, a: Address, b: Address) {
    Chain(spent, p) && p[0] == a && p[|p| - 1] == b
  }

  /** A chain of common-input transactions leads from a to b. */
  ghost predicate Connected(spent: seq<set<Address>>, a: Address, b: Address) {
    exists p :: ChainFrom(spent, p, a, b)
  }

  lemma ConnectedSelf(spent: seq<set<Address>>, a: Address)
    ensures Connected(spent, a, a)
  {
    assert ChainFrom(spent, [a], a, a);
  }

  lemma ConnectedTrans(spent: seq<set<Address>>, a: Address, b: Address, c: Address)
    requires Connected(spent, a, b) && Connected(spent, b, c)
    ensures Connected(spent, a, c)
  {
    var p :| ChainFrom(spent, p, a, b);
    var q :| ChainFrom(spent, q, b, c);
    var r := p + q[1..];
    forall i | 0 <= i < |r| - 1 ensures Linked(spent, r[i], r[i + 1]) {
      if i < |p| - 1 {
        assert Linked(spent, p[i], p[i + 1]);
      } else {
        assert Linked(spent, q[i - |p| + 1], q[i - |p| + 1 + 1]);
      }
    }
    assert ChainFrom(spent, r, a, c);
  }

  lemma {:induction false} ChainBack(spent: seq<set<Address>>, p: seq<Address>, a: Address, b: Address)
    requires ChainFrom(spent, p, a, b)
    ensures Connected(spent, b, a)
    decreases |p|
  {
    if |p| == 1 {
      ConnectedSelf(spent, a);
    } else {
      assert Linked(spent, p[0], p[0 + 1]);
      assert ChainFrom(spent, p[1..], p[1], b) by {
        forall i | 0 <= i < |p[1..]| - 1 ensures Linked(spent, p[1..][i], p[1..][i + 1]) {
          assert Linked(spent, p[i + 1], p[i + 1 + 1]);
        }
      }
      ChainBack(spent, p[1..], p[1], b);
      assert ChainFrom(spent, [p[1], a], p[1], a);
      ConnectedTrans(spent, b, p[1], a);
    }
  }

  lemma ConnectedSym(spent: seq<set<Address>>, a: Address, b: Address)
    requires Connected(spent, a, b)
    ensures Connected(spent, b, a)
  {
    var p :| ChainFrom(spent, p, a, b);
    ChainBack(spent, p, a, b);
  }

  lemma ConnectedMore(spent: seq<set<Address>>, inputs: set<Address>, a: Address, b: Address)
    requires Connected(spent, a, b)
    ensures Connected(spent + [inputs], a, b)
  {
    var p :| ChainFrom(spent, p, a, b);
    forall i | 0 <= i < |p| - 1 ensures Linked(spent + [inputs], p[i], p[i + 1]) {
      assert Linked(spent, p[i], p[i + 1]);
      var k :| 0 <= k < |spent| && p[i] in spent[k] && p[i + 1] in spent[k];
      assert (spent + [inputs])[k] == spent[k];
    }
    assert ChainFrom(spent + [inputs], p, a, b);
  }

  /** a and b were connected before, or each was connected to an input of the new transaction. */
  ghost predicate ConnectedVia(spent: seq<set<Address>>, inputs: set<Address>, a: Address, b: Address) {
    || Connected(spent, a, b)
    || exists s, t :: s in inputs && t in inputs && Connected(spent, a, s) && Connected(spent, t, b)
  }

  lemma {:induction false} ChainVia(spent: seq<set<Address>>, inputs: set<Address>, p: seq<Address>, a: Address, b: Address)
    requires ChainFrom(spent + [inputs], p, a, b)
    ensures ConnectedVia(spent, inputs, a, b)
    decreases |p|
  {
    if |p| == 1 {
      ConnectedSelf(spent, a);
    } else {
      var x := p[1];
      assert ChainFrom(spent + [inputs], p[1..], x, b) by {
        forall i | 0 <= i < |p[1..]| - 1 ensures Linked(spent + [inputs], p[1..][i], p[1..][i + 1]) {
          assert Linked(spent + [inputs], p[i + 1], p[i + 1 + 1]);
        }
      }
      ChainVia(spent, inputs, p[1..], x, b);
      assert Linked(spent + [inputs], p[0], p[0 + 1]);
      FirstLink(spent, inputs, a, x, b);
    }
  }

  lemma FirstLink(spent: seq<set<Address>>, inputs: set<Address>, a: Address, x: Address, b: Address)
    requires Linked(spent + [inputs], a, x) && ConnectedVia(spent, inputs, x, b)
    ensures ConnectedVia(spent, inputs, a, b)
  {
    hide Connected;
    var k :| 0 <= k < |spent| + 1 && a in (spent + [inputs])[k] && x in (spent + [inputs])[k];
    if k < |spent| {
      LinkConnects(spent, k, a, x);
      if Connected(spent, x, b) {
        ConnectedTrans(spent, a, x, b);
      } else {
        var s, t :| s in inputs && t in inputs && Connected(spent, x, s) && Connected(spent, t, b);
        ConnectedTrans(spent, a, x, s);
      }
    } else {
      ConnectedSelf(spent, a);
      if Connected(spent, x, b) {
        assert a in inputs && x in inputs;
      } else {
        var s, t :| s in inputs && t in inputs && Connected(spent, x, s) && Connected(spent, t, b);
      }
    }
  }

  lemma LinkConnects(spent: seq<set<Address>>, k: nat, a: Address, b: Address)
    requires k < |spent| && a in spent[k] && b in spent[k]
    ensures Connected(spent, a, b)
  {
    assert ChainFrom(spent, [a, b], a, b);
  }

  /** What one more transaction connects. */
  lemma ConnectedAfter(spent: seq<set<Address>>, inputs: set<Address>, a: Address, b: Address)
    ensures Connected(spent + [inputs], a, b) <==> ConnectedVia(spent, inputs, a, b)
  {
    if Connected(spent + [inputs], a, b) {
      var p :| ChainFrom(spent + [inputs], p, a, b);
      ChainVia(spent, inputs, p, a, b);
    }
    if ConnectedVia(spent, inputs, a, b) {
      if Connected(spent, a, b) {
        ConnectedMore(spent, inputs, a, b);
      } else {
        var s, t :| s in inputs && t in inputs && Connected(spent, a, s) && Connected(spent, t, b);
        ConnectedMore(spent, inputs, a, s);
        ConnectedMore(spent, inputs, t, b);
        LinkConnects(spent + [inputs], |spent|, s, t);
        ConnectedTrans(spent + [inputs], a, s, t);
        ConnectedTrans(spent + [inputs], a, t, b);
      }
    }
  }

  // ----- What the tables mean -----

  ghost predicate Known(t: AddressInfo, a: Address) {
    a in t && t[a] != 0
  }

  ghost predicate AllKnown(t: AddressInfo, inputs: set<Address>) {
    forall a :: a in inputs ==> Known(t, a)
  }

  /** Only addresses with an entity have been spent. */
  ghost predicate SpentKnown(t: AddressInfo, spent: seq<set<Address>>) {
    forall k :: 0 <= k < |spent| ==> AllKnown(t, spent[k])
  }

  /** Two addresses share an entity exactly when a chain of transactions connects them. */
  ghost predicate SharesIffConnected(t: AddressInfo, spent: seq<set<Address>>) {
    forall a, b :: Known(t, a) && Known(t, b) ==> (t[a] == t[b] <==> Connected(spent, a, b))
  }

  /** `birth` is the entity an address was given when it first received an output. */
  ghost predicate BirthsDistinct(t: AddressInfo, birth: map<Address, nat>, counter: nat) {
    && (forall a :: a in birth <==> Known(t, a))
    && (forall a :: a in birth ==> 0 < birth[a] <= counter)
    && (forall a, b :: a in birth && b in birth && birth[a] == birth[b] ==> a == b)
  }

  ghost predicate NoSmallerBirth(e: nat, spent: seq<set<Address>>, birth: map<Address, nat>, a: Address) {
    forall c :: c in birth && Connected(spent, a, c) ==> e <= birth[c]
  }

  ghost predicate BornHere(e: nat, spent: seq<set<Address>>, birth: map<Address, nat>, a: Address) {
    exists c :: c in birth && Connected(spent, a, c) && birth[c] == e
  }

  /** The entity of a class is the smallest its members were born with. */
  ghost predicate SmallestKept(t: AddressInfo, spent: seq<set<Address>>, birth: map<Address, nat>) {
    forall a :: Known(t, a) ==> NoSmallerBirth(t[a], spent, birth, a) && BornHere(t[a], spent, birth, a)
  }

  ghost predicate InUse(t: AddressInfo, e: nat) {
    exists a :: Known(t, a) && t[a] == e
  }

  /** entityinfo has one row for each entity in use and no others. */
  ghost predicate RowsInUse(t: AddressInfo, rows: multiset<nat>) {
    forall e :: rows[e] == if InUse(t, e) then 1 else 0
  }

  ghost predicate Inv(t: AddressInfo, rows: multiset<nat>, counter: nat, spent: seq<set<Address>>, birth: map<Address, nat>) {
    && SpentKnown(t, spent) && SharesIffConnected(t, spent) && BirthsDistinct(t, birth, counter)
    && SmallestKept(t, spent, birth) && RowsInUse(t, rows)
  }

  // ----- SQL statements -----

  /** UPDATE addressinfo SET entity = to WHERE entity = from */
  function UpdateEntity(t: AddressInfo, from: nat, to: nat): AddressInfo {
    map a | a in t :: if t[a] == from then to else t[a]
  }

  /** DELETE FROM entityinfo WHERE entity = e */
  function DeleteRow(rows: multiset<nat>, e: nat): multiset<nat> {
    rows[e := 0]
  }

  /** The addresses of all these entities moved to one of them. */
  function MoveEntities(t: AddressInfo, from: set<nat>, to: nat): AddressInfo {
    map a | a in t :: if t[a] in from then to else t[a]
  }

  // ----- Spending -----

  ghost function EntitiesOf(t: AddressInfo, inputs: set<Address>): set<nat>
    requires AllKnown(t, inputs)
  {
    set a | a in inputs :: t[a]
  }

  ghost predicate IsLeast(ids: set<nat>, m: nat) {
    m in ids && forall e :: e in ids ==> m <= e
  }

  /** An address is among the moved ones exactly when it was connected to an input. */
  lemma MovedIffConnected(t: AddressInfo, spent: seq<set<Address>>, inputs: set<Address>, a: Address)
    requires SharesIffConnected(t, spent) && AllKnown(t, inputs) && Known(t, a)
    ensures t[a] in EntitiesOf(t, inputs) <==> exists s :: s in inputs && Connected(spent, a, s)
  {
    hide Connected;
    if t[a] in EntitiesOf(t, inputs) {
      var s :| s in inputs && t[s] == t[a];
      assert Known(t, s);
    }
    if s :| s in inputs && Connected(spent, a, s) {
      assert Known(t, s) && t[s] == t[a];
    }
  }

  lemma SpendShares(t: AddressInfo, spent: seq<set<Address>>, inputs: set<Address>, m: nat, a: Address, b: Address)
    requires SharesIffConnected(t, spent) && AllKnown(t, inputs) && Known(t, a) && Known(t, b)
    requires IsLeast(EntitiesOf(t, inputs), m)
    ensures var t' := MoveEntities(t, EntitiesOf(t, inputs), m);
            t'[a] == t'[b] <==> Connected(spent + [inputs], a, b)
  {
    hide Connected;
    ConnectedAfter(spent, inputs, a, b);
    MovedIffConnected(t, spent, inputs, a);
    MovedIffConnected(t, spent, inputs, b);
    if x :| x in inputs && Connected(spent, x, b) { ConnectedSym(spent, x, b); }
    if x :| x in inputs && Connected(spent, b, x) { ConnectedSym(spent, b, x); }
  }

  lemma SpendNoSmaller(t: AddressInfo, spent: seq<set<Address>>, birth: map<Address, nat>,
                       inputs: set<Address>, m: nat, a: Address)
    requires SharesIffConnected(t, spent) && SmallestKept(t, spent, birth)
    requires AllKnown(t, inputs) && Known(t, a) && IsLeast(EntitiesOf(t, inputs), m)
    ensures NoSmallerBirth(MoveEntities(t, EntitiesOf(t, inputs), m)[a], spent + [inputs], birth, a)
  {
    hide Connected, SharesIffConnected, BornHere;
    var ids := EntitiesOf(t, inputs);
    MovedIffConnected(t, spent, inputs, a);
    assert NoSmallerBirth(t[a], spent, birth, a);
    forall c | c in birth && Connected(spent + [inputs], a, c)
      ensures (if t[a] in ids then m else t[a]) <= birth[c]
    {
      ConnectedAfter(spent, inputs, a, c);
      if !Connected(spent, a, c) {
        var x, y :| x in inputs && y in inputs && Connected(spent, a, x) && Connected(spent, y, c);
        assert Known(t, y) && NoSmallerBirth(t[y], spent, birth, y);
        assert t[y] in ids;
      }
    }
  }

  lemma SpendBorn(t: AddressInfo, spent: seq<set<Address>>, birth: map<Address, nat>,
                  inputs: set<Address>, m: nat, a: Address)
    requires SharesIffConnected(t, spent) && SmallestKept(t, spent, birth)
    requires AllKnown(t, inputs) && Known(t, a) && IsLeast(EntitiesOf(t, inputs), m)
    ensures BornHere(MoveEntities(t, EntitiesOf(t, inputs), m)[a], spent + [inputs], birth, a)
  {
    hide Connected, SharesIffConnected, NoSmallerBirth, SmallestKept;
    var ids := EntitiesOf(t, inputs);
    MovedIffConnected(t, spent, inputs, a);
    var s: Address := a;
    if t[a] in ids {
      s :| s in inputs && t[s] == m;
    }
    assert Known(t, s);
    BornOf(t, spent, birth, s);
    var c :| c in birth && Connected(spent, s, c) && birth[c] == t[s];
    ConnectedAfter(spent, inputs, a, c);
  }

  lemma BornOf(t: AddressInfo, spent: seq<set<Address>>, birth: map<Address, nat>, a: Address)
    requires SmallestKept(t, spent, birth) && Known(t, a)
    ensures NoSmallerBirth(t[a], spent, birth, a) && BornHere(t[a], spent, birth, a)
  {
  }

  lemma SpendRows(t: AddressInfo, rows: multiset<nat>, inputs: set<Address>, m: nat, rows': multiset<nat>)
    requires RowsInUse(t, rows) && AllKnown(t, inputs) && IsLeast(EntitiesOf(t, inputs), m)
    requires forall e :: rows'[e] == if e in EntitiesOf(t, inputs) && e != m then 0 else rows[e]
    ensures RowsInUse(MoveEntities(t, EntitiesOf(t, inputs), m), rows')
  {
    var ids := EntitiesOf(t, inputs);
    var t' := MoveEntities(t, ids, m);
    assert m != 0;
    forall e ensures InUse(t', e) <==> InUse(t, e) && (e !in ids || e == m) {
      if InUse(t', e) {
        var a :| Known(t', a) && t'[a] == e;
        assert Known(t, a);
        if t[a] in ids {
          var s :| s in inputs && t[s] == m;
          assert Known(t, s);
        }
      }
      if InUse(t, e) && (e !in ids || e == m) {
        var a :| Known(t, a) && t[a] == e;
        assert Known(t', a) && t'[a] == e;
      }
    }
  }

  /** A transaction that spends these addresses together. */
  lemma SpendInv(t: AddressInfo, rows: multiset<nat>, counter: nat, spent: seq<set<Address>>, birth: map<Address, nat>,
                 inputs: set<Address>, m: nat, rows': multiset<nat>)
    requires Inv(t, rows, counter, spent, birth) && AllKnown(t, inputs) && IsLeast(EntitiesOf(t, inputs), m)
    requires forall e :: rows'[e] == if e in EntitiesOf(t, inputs) && e != m then 0 else rows[e]
    ensures Inv(MoveEntities(t, EntitiesOf(t, inputs), m), rows', counter, spent + [inputs], birth)
  {
    hide Connected, NoSmallerBirth, BornHere;
    var t' := MoveEntities(t, EntitiesOf(t, inputs), m);
    assert m != 0;
    assert forall a :: Known(t', a) <==> Known(t, a);
    forall a, b | Known(t', a) && Known(t', b) ensures t'[a] == t'[b] <==> Connected(spent + [inputs], a, b) {
      SpendShares(t, spent, inputs, m, a, b);
    }
    forall a | Known(t', a)
      ensures NoSmallerBirth(t'[a], spent + [inputs], birth, a) && BornHere(t'[a], spent + [inputs], birth, a)
    {
      SpendNoSmaller(t, spent, birth, inputs, m, a);
      SpendBorn(t, spent, birth, inputs, m, a);
    }
    SpendRows(t, rows, inputs, m, rows');
  }

  // ----- Receiving -----

  lemma LinkedKnown(t: AddressInfo, spent: seq<set<Address>>, a: Address, b: Address)
    requires SpentKnown(t, spent) && Linked(spent, a, b)
    ensures Known(t, a)
  {
    var k :| 0 <= k < |spent| && a in spent[k] && b in spent[k];
    assert AllKnown(t, spent[k]);
  }

  /** An address that has not been spent is connected to nothing else. */
  lemma AloneUntilSpent(t: AddressInfo, spent: seq<set<Address>>, x: Address, c: Address)
    requires SpentKnown(t, spent) && !Known(t, x) && Connected(spent, x, c)
    ensures c == x
  {
    hide SpentKnown, Linked, Known;
    var p :| ChainFrom(spent, p, x, c);
    assert |p| > 1 ==> Linked(spent, p[0], p[0 + 1]);
    if |p| > 1 { LinkedKnown(t, spent, p[0], p[0 + 1]); }
  }

  lemma KnownBelowCounter(t: AddressInfo, counter: nat, spent: seq<set<Address>>, birth: map<Address, nat>, a: Address)
    requires BirthsDistinct(t, birth, counter) && SmallestKept(t, spent, birth) && Known(t, a)
    ensures t[a] <= counter
  {
    hide Connected, NoSmallerBirth;
    assert BornHere(t[a], spent, birth, a);
  }

  lemma ReceiveShares(t: AddressInfo, counter: nat, spent: seq<set<Address>>, x: Address, a: Address, b: Address)
    requires SpentKnown(t, spent) && SharesIffConnected(t, spent) && x in t && t[x] == 0
    requires (Known(t, a) || a == x) && (Known(t, b) || b == x)
    requires (Known(t, a) ==> t[a] <= counter) && (Known(t, b) ==> t[b] <= counter)
    ensures var t' := t[x := counter + 1]; t'[a] == t'[b] <==> Connected(spent, a, b)
  {
    hide Connected;
    if a == b {
      ConnectedSelf(spent, a);
    } else if a == x {
      if Connected(spent, x, b) { AloneUntilSpent(t, spent, x, b); }
    } else if b == x {
      if Connected(spent, a, x) { ConnectedSym(spent, a, x); AloneUntilSpent(t, spent, x, a); }
    }
  }

  lemma ReceiveSmallest(t: AddressInfo, counter: nat, spent: seq<set<Address>>, birth: map<Address, nat>,
                        x: Address, a: Address)
    requires SpentKnown(t, spent) && SmallestKept(t, spent, birth) && x in t && t[x] == 0 && x !in birth
    requires Known(t, a) || a == x
    requires Known(t, a) ==> t[a] <= counter
    ensures var e, birth' := t[x := counter + 1][a], birth[x := counter + 1];
            NoSmallerBirth(e, spent, birth', a) && BornHere(e, spent, birth', a)
  {
    hide Connected, SmallestKept;
    var birth' := birth[x := counter + 1];
    if a == x {
      ConnectedSelf(spent, x);
      assert x in birth' && birth'[x] == counter + 1;
      forall c | c in birth' && Connected(spent, x, c) ensures counter + 1 <= birth'[c] {
        AloneUntilSpent(t, spent, x, c);
      }
    } else {
      BornOf(t, spent, birth, a);
      var c :| c in birth && Connected(spent, a, c) && birth[c] == t[a];
      assert c in birth' && birth'[c] == t[a];
    }
  }

  /** A first output: the next entity, of this address alone. */
  lemma ReceiveInv(t: AddressInfo, rows: multiset<nat>, counter: nat, spent: seq<set<Address>>, birth: map<Address, nat>,
                   x: Address)
    requires Inv(t, rows, counter, spent, birth) && x in t && t[x] == 0
    ensures Inv(t[x := counter + 1], rows + multiset{counter + 1}, counter + 1, spent, birth[x := counter + 1])
  {
    hide Connected, NoSmallerBirth, BornHere, RowsInUse;
    var t', birth' := t[x := counter + 1], birth[x := counter + 1];
    assert forall a :: Known(t', a) <==> Known(t, a) || a == x;
    forall a | Known(t, a) ensures t[a] <= counter { KnownBelowCounter(t, counter, spent, birth, a); }
    forall a, b | Known(t', a) && Known(t', b) ensures t'[a] == t'[b] <==> Connected(spent, a, b) {
      ReceiveShares(t, counter, spent, x, a, b);
    }
    forall a | Known(t', a) ensures NoSmallerBirth(t'[a], spent, birth', a) && BornHere(t'[a], spent, birth', a) {
      ReceiveSmallest(t, counter, spent, birth, x, a);
    }
    ReceiveRows(t, rows, counter, x);
  }

  lemma ReceiveRows(t: AddressInfo, rows: multiset<nat>, counter: nat, x: Address)
    requires RowsInUse(t, rows) && x in t && t[x] == 0 && forall a :: Known(t, a) ==> t[a] <= counter
    ensures RowsInUse(t[x := counter + 1], rows + multiset{counter + 1})
  {
    var t' := t[x := counter + 1];
    forall e ensures InUse(t', e) <==> InUse(t, e) || e == counter + 1 {
      if InUse(t, e) {
        var a :| Known(t, a) && t[a] == e;
        assert Known(t', a) && t'[a] == e;
      }
      if e == counter + 1 { assert Known(t', x) && t'[x] == e; }
    }
  }

  // ----- The numbers that addresses are born with -----

  /** The entity an address is given when it first receives an output: one more than the number of
      addresses that received before it. */
  function Births(received: seq<Address>): (m: map<Address, nat>)
    ensures forall a :: a in m <==> a in received
  {
    if received == [] then map[]
    else
      var n := |received| - 1;
      var before := Births(received[..n]);
      assert received == received[..n] + [received[n]];
      if received[n] in before then before else before[received[n] := |before| + 1]
  }

  lemma BirthsNext(received: seq<Address>, a: Address)
    ensures var before := Births(received);
            Births(received + [a]) == if a in before then before else before[a := |before| + 1]
  {
    assert (received + [a])[..|received|] == received;
  }

  lemma {:induction false} BirthsAtMost(received: seq<Address>)
    ensures |Births(received)| <= |received|
  {
    if received != [] { BirthsAtMost(received[..|received| - 1]); }
  }

  // ----- The procedures -----

  function Ids(v: seq<nat>): set<nat> {
    set e | e in v
  }

  predicate Ascending(v: seq<nat>) {
    forall i, j :: 0 <= i < j < |v| ==> v[i] <= v[j]
  }

  function InsertId(v: seq<nat>, e: nat): (r: seq<nat>)
    requires Ascending(v)
    ensures Ascending(r) && |r| == |v| + 1 && forall x :: x in r <==> x == e || x in v
  {
    if v == [] || e <= v[0] then
      [e] + v
    else
      var rest := InsertId(v[1..], e);
      assert forall x :: x in v[1..] ==> v[0] <= x;
      assert forall x :: x in rest ==> v[0] <= x;
      assert forall i :: 0 <= i < |rest| ==> rest[i] in rest;
      [v[0]] + rest
  }

  function SortIds(v: seq<nat>): (r: seq<nat>)
    ensures Ascending(r) && |r| == |v| && forall x :: x in r <==> x in v
  {
    if v == [] then [] else InsertId(SortIds(v[1..]), v[0])
  }

  class Tables {
    var addressinfo: AddressInfo
    var entityinfo: multiset<nat>
    var entitycnt: nat
    ghost var spent: seq<set<Address>>
    ghost var received: seq<Address>

    /** The tables after spending and receiving this much. */
    ghost predicate Valid()
      reads this
    {
      Inv(addressinfo, entityinfo, entitycnt, spent, Births(received)) && entitycnt == |Births(received)|
    }

    constructor ()
      ensures Valid() && addressinfo == map[] && spent == [] && received == []
    {
      addressinfo, entityinfo, entitycnt, spent, received := map[], multiset{}, 0, [], [];
    }

    /** The row of an address is there, with no entity, before its first output is processed. */
    method InsertAddress(a: Address)
      requires Valid()
      modifies this`addressinfo
      ensures Valid() && addressinfo == if a in old(addressinfo) then old(addressinfo) else old(addressinfo)[a := 0]
    {
      if a !in addressinfo {
        ghost var was := addressinfo;
        addressinfo := addressinfo[a := 0];
        RowWithoutEntity(was, entityinfo, entitycnt, spent, Births(received), a);
      }
    }

    method InputEntity(addresses: seq<Address>)
      requires Valid() && addresses != []
      requires addresses == [COINBASE] || forall i :: 0 <= i < |addresses| ==> Known(addressinfo, addresses[i])
      modifies this
      ensures Valid() && addressinfo.Keys == old(addressinfo).Keys
      ensures received == old(received)
      ensures forall a :: Known(addressinfo, a) <==> old(Known(addressinfo, a))
      ensures spent == old(spent) + if addresses == [COINBASE] then [] else [set a | a in addresses]
    {
      hide Inv, Ascending;
      ghost var birth := Births(received);
      if addresses == [COINBASE] {
        return;
      }
      KnownIffBorn(addressinfo, entityinfo, entitycnt, spent, birth);
      ghost var inputs := set a | a in addresses;
      ghost var before, rows := addressinfo, entityinfo;
      if |addresses| == 1 {
        assert inputs == {addresses[0]};
        OneInput(before, addresses[0]);
        SpendInv(before, rows, entitycnt, spent, birth, inputs, before[addresses[0]], entityinfo);
      } else {
        var entities := ReadEntities(addresses);
        var v := SortIds(entities);
        IdsOfInputs(before, addresses, entities, v);
        MergeEntities(v);
        SpendInv(before, rows, entitycnt, spent, birth, inputs, v[0], entityinfo);
      }
      spent := spent + [inputs];
      KnownIffBorn(addressinfo, entityinfo, entitycnt, spent, birth);
    }

    /** All addresses of these entities move to the first, and the other rows go. */
    method MergeEntities(v: seq<nat>)
      requires v != [] && Ascending(v)
      modifies `addressinfo, `entityinfo
      ensures addressinfo == MoveEntities(old(addressinfo), Ids(v), v[0])
      ensures forall e :: entityinfo[e] == if e in Ids(v) && e != v[0] then 0 else old(entityinfo)[e]
    {
      var unequal := Unequal(v);
      if unequal {
        hide MoveEntities, UpdateEntity, Ascending;
        assert v[..1] == [v[0]] && Ids(v[..1]) == {v[0]};
        MoveToItself(addressinfo, v[0]);
        for i := 1 to |v|
          invariant addressinfo == MoveEntities(old(addressinfo), Ids(v[..i]), v[0])
          invariant forall e :: entityinfo[e] == if e in Ids(v[..i]) && e != v[0] then 0 else old(entityinfo)[e]
        {
          assert v[..i + 1] == v[..i] + [v[i]];
          if v[i - 1] != v[i] {
            MoveOneMore(old(addressinfo), v, i);
            addressinfo := UpdateEntity(addressinfo, v[i], v[0]);
            entityinfo := DeleteRow(entityinfo, v[i]);
          } else {
            assert Ids(v[..i + 1]) == Ids(v[..i]);
          }
        }
        assert v[..|v|] == v;
      } else {
        MoveToItself(addressinfo, v[0]);
        assert Ids(v) == {v[0]};
      }
    }

    /** One SELECT for each address. */
    method ReadEntities(addresses: seq<Address>) returns (v: seq<nat>)
      requires forall i :: 0 <= i < |addresses| ==> addresses[i] in addressinfo
      ensures |v| == |addresses| && forall i :: 0 <= i < |v| ==> v[i] == addressinfo[addresses[i]]
    {
      v := [];
      for i := 0 to |addresses|
        invariant |v| == i && forall k :: 0 <= k < i ==> v[k] == addressinfo[addresses[k]]
      {
        v := v + [addressinfo[addresses[i]]];
      }
    }

    /** A new entity for an address that has none. */
    method GiveEntity(a: Address)
      requires Valid() && a in addressinfo && addressinfo[a] == 0 && entitycnt + 1 < TWO_32
      modifies this
      ensures Valid() && entitycnt == old(entitycnt) + 1 && spent == old(spent) && received == old(received) + [a]
      ensures addressinfo == old(addressinfo)[a := entitycnt]
    {
      hide Inv, Births;
      ghost var birth := Births(received);
      KnownIffBorn(addressinfo, entityinfo, entitycnt, spent, birth);
      BirthsNext(received, a);
      ReceiveInv(addressinfo, entityinfo, entitycnt, spent, birth, a);
      entitycnt := (entitycnt + 1) % TWO_32;
      addressinfo := addressinfo[a := entitycnt];
      entityinfo := entityinfo + multiset{entitycnt};
      received := received + [a];
    }

    method OutputEntity(addresses: seq<Address>)
      requires Valid() && forall i :: 0 <= i < |addresses| ==> addresses[i] in addressinfo
      requires entitycnt + |addresses| < TWO_32
      modifies this
      ensures Valid() && spent == old(spent) && received == old(received) + addresses
      ensures addressinfo == Received(old(addressinfo), addresses, received)
    {
      hide Inv, Births;
      assert addresses[..0] == [] && received + [] == received;
      ReceivedNothing(addressinfo, received);
      for i := 0 to |addresses|
        invariant Valid() && spent == old(spent) && received == old(received) + addresses[..i]
        invariant entitycnt <= old(entitycnt) + i
        invariant addressinfo == Received(old(addressinfo), addresses[..i], received)
      {
        var a := addresses[i];
        assert addresses[..i + 1] == addresses[..i] + [a];
        assert old(received) + addresses[..i + 1] == received + [a];
        KnownIffBorn(addressinfo, entityinfo, entitycnt, spent, Births(received));
        BirthsNext(received, a);
        ReceivedMore(old(addressinfo), addresses[..i], received, a);
        if addressinfo[a] == 0 {
          GiveEntity(a);
        } else {
          received := received + [a];
        }
      }
      assert addresses[..|addresses|] == addresses;
    }

    /** One transaction: its inputs, then the rows of its outputs, then the outputs. */
    method ProcessTransaction(tx: Tx)
      requires Valid() && Spendable(addressinfo, tx) && entitycnt + |tx.outputs| < TWO_32
      modifies this
      ensures Valid() && spent == old(spent) + Spending(tx) && received == old(received) + tx.outputs
      ensures forall a :: a in addressinfo <==> a in old(addressinfo) || a in tx.outputs
    {
      hide Inv, Births;
      InputEntity(tx.inputs);
      label spentNow:
      for i := 0 to |tx.outputs|
        invariant Valid() && spent == old@spentNow(spent) && received == old(received)
        invariant forall a :: a in addressinfo <==> a in old(addressinfo) || a in tx.outputs[..i]
      {
        assert tx.outputs[..i + 1] == tx.outputs[..i] + [tx.outputs[i]];
        InsertAddress(tx.outputs[i]);
      }
      assert tx.outputs[..|tx.outputs|] == tx.outputs;
      OutputEntity(tx.outputs);
    }
  }

  lemma KnownIffBorn(t: AddressInfo, rows: multiset<nat>, counter: nat, spent: seq<set<Address>>, birth: map<Address, nat>)
    requires Inv(t, rows, counter, spent, birth)
    ensures forall a :: Known(t, a) <==> a in birth
    ensures forall a :: a in birth ==> birth[a] != 0
  {
  }

  /** A transaction: the addresses it spends from, in order, and those it pays to. */
  datatype Tx = Tx(inputs: seq<Address>, outputs: seq<Address>)

  /** Either the single marker of a mining reward, or addresses that have received outputs. */
  ghost predicate Spendable(t: AddressInfo, tx: Tx) {
    && tx.inputs != []
    && (tx.inputs == [COINBASE] || forall i :: 0 <= i < |tx.inputs| ==> Known(t, tx.inputs[i]))
  }

  function Spending(tx: Tx): seq<set<Address>> {
    if tx.inputs == [COINBASE] then [] else [set a | a in tx.inputs]
  }

  /** Each of these addresses that had no entity now has the one it is born with; nothing else changes. */
  ghost function Received(t: AddressInfo, addresses: seq<Address>, received: seq<Address>): AddressInfo
    requires forall a :: a in addresses ==> a in received
  {
    map a | a in t :: if t[a] == 0 && a in addresses then Births(received)[a] else t[a]
  }

  lemma ReceivedNothing(t: AddressInfo, received: seq<Address>)
    ensures Received(t, [], received) == t
  {
  }

  lemma ReceivedMore(t: AddressInfo, addresses: seq<Address>, received: seq<Address>, a: Address)
    requires (forall b :: b in addresses ==> b in received) && a in t
    requires forall b :: b in Births(received) ==> Births(received)[b] != 0
    ensures var t', e := Received(t, addresses, received), Births(received + [a])[a];
            Received(t, addresses + [a], received + [a]) == if t'[a] == 0 then t'[a := e] else t'
  {
    hide Births;
    BirthsNext(received, a);
  }

  lemma OneInput(t: AddressInfo, a: Address)
    requires Known(t, a)
    ensures EntitiesOf(t, {a}) == {t[a]} && MoveEntities(t, {t[a]}, t[a]) == t
  {
  }

  /** Whether the inputs belong to more than one entity. */
  method Unequal(v: seq<nat>) returns (unequal: bool)
    requires v != []
    ensures unequal <==> exists k :: 0 <= k < |v| && v[k] != v[0]
  {
    unequal := false;
    for i := 1 to |v|
      invariant !unequal && forall k :: 0 <= k < i ==> v[k] == v[0]
    {
      if v[0] != v[i] {
        return true;
      }
    }
  }

  lemma MoveToItself(t: AddressInfo, e: nat)
    ensures MoveEntities(t, {e}, e) == t
  {
  }

  lemma IdsOfInputs(t: AddressInfo, addresses: seq<Address>, entities: seq<nat>, v: seq<nat>)
    requires addresses != [] && |entities| == |addresses| == |v|
    requires forall i :: 0 <= i < |addresses| ==> Known(t, addresses[i]) && entities[i] == t[addresses[i]]
    requires Ascending(v) && forall x :: x in v <==> x in entities
    ensures AllKnown(t, set a | a in addresses)
    ensures EntitiesOf(t, set a | a in addresses) == Ids(v) && IsLeast(Ids(v), v[0])
  {
    var inputs := set a | a in addresses;
    forall e | e in Ids(v) ensures e in EntitiesOf(t, inputs) {
      var i :| 0 <= i < |entities| && entities[i] == e;
      assert addresses[i] in inputs;
    }
    forall e | e in EntitiesOf(t, inputs) ensures e in Ids(v) {
      var a :| a in inputs && t[a] == e;
      var i :| 0 <= i < |addresses| && addresses[i] == a;
      assert entities[i] in entities;
    }
  }

  /** One more UPDATE in the merge. */
  lemma MoveOneMore(t: AddressInfo, v: seq<nat>, i: nat)
    requires Ascending(v) && 0 < i < |v| && v[i - 1] != v[i]
    ensures UpdateEntity(MoveEntities(t, Ids(v[..i]), v[0]), v[i], v[0])
         == MoveEntities(t, Ids(v[..i + 1]), v[0])
    ensures v[i] !in v[..i] && v[i] != v[0]
  {
    assert v[..i + 1] == v[..i] + [v[i]];
  }

  lemma RowWithoutEntity(t: AddressInfo, rows: multiset<nat>, counter: nat, spent: seq<set<Address>>,
                         birth: map<Address, nat>, a: Address)
    requires Inv(t, rows, counter, spent, birth) && a !in t
    ensures Inv(t[a := 0], rows, counter, spent, birth)
  {
    hide Connected, NoSmallerBirth, BornHere;
    var t' := t[a := 0];
    assert forall b :: Known(t', b) <==> Known(t, b);
    forall e ensures InUse(t', e) <==> InUse(t, e) {
      if InUse(t, e) {
        var b :| Known(t, b) && t[b] == e;
        assert Known(t', b) && t'[b] == e;
      }
    }
  }

  // ----- Every run of transactions -----

  function Outputs(txs: seq<Tx>): seq<Address> {
    if txs == [] then [] else Outputs(txs[..|txs| - 1]) + txs[|txs| - 1].outputs
  }

  function Spendings(txs: seq<Tx>): seq<set<Address>> {
    if txs == [] then [] else Spendings(txs[..|txs| - 1]) + Spending(txs[|txs| - 1])
  }

  /** Every input is a mining reward or was an output of an earlier transaction. */
  ghost predicate InputsWereOutputs(txs: seq<Tx>) {
    forall i :: 0 <= i < |txs| ==>
      && txs[i].inputs != []
      && (txs[i].inputs == [COINBASE] || forall a :: a in txs[i].inputs ==> a in Outputs(txs[..i]))
  }

  /** The tables that a run of transactions leads to. */
  ghost predicate Clustered(txs: seq<Tx>, t: AddressInfo, rows: multiset<nat>) {
    && (forall a :: a in t <==> a in Outputs(txs)) && (forall a :: a in t ==> t[a] != 0)
    && SharesIffConnected(t, Spendings(txs))
    && SmallestKept(t, Spendings(txs), Births(Outputs(txs)))
    && RowsInUse(t, rows)
  }

  /** There is only one such pair of tables: a program that numbers differently, or keeps another
      number of a cluster than the smallest, does not reach it. */
  lemma {:induction false} OneClustering(txs: seq<Tx>, t: AddressInfo, rows: multiset<nat>, t': AddressInfo, rows': multiset<nat>)
    requires Clustered(txs, t, rows) && Clustered(txs, t', rows')
    ensures t' == t && rows' == rows
  {
    hide RowsInUse, SharesIffConnected, SmallestKept, Births, Outputs, Spendings;
    forall a | a in t ensures a in t' && t'[a] == t[a] {
      OneNumber(t, t', Spendings(txs), Births(Outputs(txs)), a);
    }
    assert t' == t;
    SameRows(t, rows, rows');
  }

  lemma OneNumber(t: AddressInfo, t': AddressInfo, spent: seq<set<Address>>, birth: map<Address, nat>, a: Address)
    requires SmallestKept(t, spent, birth) && SmallestKept(t', spent, birth) && Known(t, a) && Known(t', a)
    ensures t'[a] == t[a]
  {
    hide Connected;
    BornOf(t, spent, birth, a);
    BornOf(t', spent, birth, a);
  }

  lemma SameRows(t: AddressInfo, rows: multiset<nat>, rows': multiset<nat>)
    requires RowsInUse(t, rows) && RowsInUse(t, rows')
    ensures rows' == rows
  {
    assert forall e :: rows'[e] == rows[e];
  }

  /** From empty tables, over any run of transactions. */
  method ProcessAll(txs: seq<Tx>) returns (t: AddressInfo, rows: multiset<nat>)
    requires InputsWereOutputs(txs) && |Outputs(txs)| < TWO_32
    ensures Clustered(txs, t, rows)
  {
    hide Inv, Births, SharesIffConnected, SmallestKept, RowsInUse, Spendable, InputsWereOutputs, Known;
    var tables := new Tables();
    assert txs[..0] == [];
    for i := 0 to |txs|
      invariant tables.Valid() && fresh(tables) && tables.spent == Spendings(txs[..i])
      invariant tables.received == Outputs(txs[..i])
      invariant forall a :: a in tables.addressinfo <==> a in Outputs(txs[..i])
    {
      assert txs[..i + 1][..i] == txs[..i];
      OutputsGrow(txs, i + 1);
      BirthsAtMost(tables.received);
      KnownIffBorn(tables.addressinfo, tables.entityinfo, tables.entitycnt, tables.spent, Births(tables.received));
      NextSpendable(txs, i, tables.addressinfo);
      tables.ProcessTransaction(txs[i]);
    }
    assert txs[..|txs|] == txs;
    t, rows := tables.addressinfo, tables.entityinfo;
    AllParts(t, rows, tables.entitycnt, tables.spent, Births(tables.received));
  }

  lemma NextSpendable(txs: seq<Tx>, i: nat, t: AddressInfo)
    requires InputsWereOutputs(txs) && i < |txs| && forall a :: a in Outputs(txs[..i]) ==> Known(t, a)
    ensures Spendable(t, txs[i])
  {
    hide Outputs;
    forall k | 0 <= k < |txs[i].inputs| && txs[i].inputs != [COINBASE] ensures Known(t, txs[i].inputs[k]) {
      assert txs[i].inputs[k] in txs[i].inputs;
    }
  }

  lemma AllParts(t: AddressInfo, rows: multiset<nat>, counter: nat, spent: seq<set<Address>>, birth: map<Address, nat>)
    requires Inv(t, rows, counter, spent, birth) && forall a :: a in t ==> a in birth
    ensures SharesIffConnected(t, spent) && SmallestKept(t, spent, birth) && RowsInUse(t, rows)
    ensures forall a :: a in t ==> t[a] != 0
  {
    assert forall a :: a in birth ==> Known(t, a);
  }

  lemma {:induction false} OutputsGrow(txs: seq<Tx>, i: nat)
    requires i <= |txs|
    ensures |Outputs(txs[..i])| <= |Outputs(txs)|
  {
    if i < |txs| {
      var n := |txs| - 1;
      assert txs[..n][..i] == txs[..i];
      OutputsGrow(txs[..n], i);
    } else {
      assert txs[..i] == txs;
    }
  }
}
