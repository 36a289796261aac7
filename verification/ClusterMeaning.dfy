/** What the entity tables say, in terms of the transactions themselves. */
module ClusterMeaning {
  import opened EntityClusters

  /** A transaction that is not a mining reward spends from both. */
  predicate OneSpends(tx: Tx, a: Address, b: Address) {
    tx.inputs != [COINBASE] && a in tx.inputs && b in tx.inputs
  }

  ghost predicate SpendsBoth(txs: seq<Tx>, a: Address, b: Address) {
    exists i :: 0 <= i < |txs| && OneSpends(txs[i], a, b)
  }

  ghost predicate Path(txs: seq<Tx>, p: seq<Address>, a: Address, b: Address) {
    && p != [] && p[0] == a && p[|p| - 1] == b
    && forall i :: 0 <= i < |p| - 1 ==> SpendsBoth(txs, p[i], p[i + 1])
  }

  ghost predicate Leads(txs: seq<Tx>, a: Address, b: Address) {
    exists p :: Path(txs, p, a, b)
  }

  ghost predicate Receives(txs: seq<Tx>, a: Address) {
    exists i :: 0 <= i < |txs| && a in txs[i].outputs
  }

  /** a was the n-th new address to receive an output: n - 1 others had received before it first did. */
  ghost predicate BornAs(received: seq<Address>, a: Address, n: nat) {
    exists i :: 0 <= i < |received| && received[i] == a && a !in received[..i] && n == |Distinct(received[..i])| + 1
  }

  function Distinct(s: seq<Address>): set<Address> {
    set a | a in s
  }

  lemma LinkedInTwo(x: seq<set<Address>>, y: seq<set<Address>>, a: Address, b: Address)
    ensures Linked(x + y, a, b) <==> Linked(x, a, b) || Linked(y, a, b)
  {
    if k :| 0 <= k < |x| && a in x[k] && b in x[k] { assert (x + y)[k] == x[k]; }
    if k :| 0 <= k < |y| && a in y[k] && b in y[k] { assert (x + y)[|x| + k] == y[k]; }
  }

  lemma LinkedByOne(tx: Tx, a: Address, b: Address)
    ensures Linked(Spending(tx), a, b) <==> OneSpends(tx, a, b)
  {
    var inputs := set c | c in tx.inputs;
    if OneSpends(tx, a, b) {
      var spent := Spending(tx);
      assert spent == [inputs];
      assert a in spent[0] && b in spent[0];
    }
  }

  lemma {:induction false} LinkedIff(txs: seq<Tx>, a: Address, b: Address)
    ensures Linked(Spendings(txs), a, b) <==> SpendsBoth(txs, a, b)
  {
    hide Linked, Spending, OneSpends;
    if txs == [] {
      LinkedByNone(a, b);
    } else {
      var n := |txs| - 1;
      LinkedIff(txs[..n], a, b);
      LinkedInTwo(Spendings(txs[..n]), Spending(txs[n]), a, b);
      LinkedByOne(txs[n], a, b);
      if SpendsBoth(txs[..n], a, b) {
        var i :| 0 <= i < n && OneSpends(txs[..n][i], a, b);
        assert OneSpends(txs[i], a, b);
      }
      if i :| 0 <= i < n && OneSpends(txs[i], a, b) {
        assert OneSpends(txs[..n][i], a, b);
      }
    }
  }

  lemma LinkedByNone(a: Address, b: Address)
    ensures !Linked([], a, b)
  {
  }

  lemma ConnectedIff(txs: seq<Tx>, a: Address, b: Address)
    ensures Connected(Spendings(txs), a, b) <==> Leads(txs, a, b)
  {
    hide Linked, SpendsBoth, Spendings;
    forall c, d ensures Linked(Spendings(txs), c, d) <==> SpendsBoth(txs, c, d) { LinkedIff(txs, c, d); }
    if Connected(Spendings(txs), a, b) {
      var p :| ChainFrom(Spendings(txs), p, a, b);
      assert Path(txs, p, a, b);
    }
    if Leads(txs, a, b) {
      var p :| Path(txs, p, a, b);
      assert ChainFrom(Spendings(txs), p, a, b);
    }
  }

  lemma {:induction false} OutputsIff(txs: seq<Tx>, a: Address)
    ensures a in Outputs(txs) <==> Receives(txs, a)
  {
    if txs != [] {
      var n := |txs| - 1;
      OutputsIff(txs[..n], a);
      if i :| 0 <= i < |txs| && a in txs[i].outputs {
        if i < n { assert txs[..n][i] == txs[i]; }
      }
      if Receives(txs[..n], a) {
        var i :| 0 <= i < n && a in txs[..n][i].outputs;
        assert a in txs[i].outputs;
      }
    }
  }

  lemma {:induction false} BirthsCount(received: seq<Address>)
    ensures |Births(received)| == |Distinct(received)|
  {
    assert Births(received).Keys == Distinct(received);
  }

  lemma {:induction false} BirthIs(received: seq<Address>, a: Address)
    requires a in received
    ensures BornAs(received, a, Births(received)[a])
  {
    hide Births, Distinct;
    var n := |received| - 1;
    var front := received[..n];
    assert received == front + [received[n]];
    BirthsNext(front, received[n]);
    if a in front {
      BirthIs(front, a);
      var i :| 0 <= i < |front| && front[i] == a && a !in front[..i] && Births(front)[a] == |Distinct(front[..i])| + 1;
      assert front[..i] == received[..i] && received[i] == a;
    } else {
      BirthsCount(front);
      assert received[n] == a;
    }
  }

  /** Nobody is born twice. */
  lemma OneBirth(received: seq<Address>, a: Address, m: nat, n: nat)
    requires BornAs(received, a, m) && BornAs(received, a, n)
    ensures m == n
  {
    var i :| 0 <= i < |received| && received[i] == a && a !in received[..i] && m == |Distinct(received[..i])| + 1;
    var j :| 0 <= j < |received| && received[j] == a && a !in received[..j] && n == |Distinct(received[..j])| + 1;
    assert forall k :: 0 <= k < j ==> received[..j][k] == received[k];
    assert forall k :: 0 <= k < i ==> received[..i][k] == received[k];
  }

  /** The number of an entity: one of its members was born with it. */
  lemma NumberIsBorn(txs: seq<Tx>, t: AddressInfo, a: Address) returns (c: Address)
    requires SmallestKept(t, Spendings(txs), Births(Outputs(txs))) && Known(t, a)
    ensures Leads(txs, a, c) && BornAs(Outputs(txs), c, t[a])
  {
    hide Leads, Connected, Births, Outputs, BornAs, Spendings;
    assert BornHere(t[a], Spendings(txs), Births(Outputs(txs)), a);
    c :| c in Births(Outputs(txs)) && Connected(Spendings(txs), a, c) && Births(Outputs(txs))[c] == t[a];
    ConnectedIff(txs, a, c);
    BirthIs(Outputs(txs), c);
  }

  /** And none with a smaller one. */
  lemma NoneIsSmaller(txs: seq<Tx>, t: AddressInfo, a: Address, c: Address, n: nat)
    requires SmallestKept(t, Spendings(txs), Births(Outputs(txs))) && Known(t, a)
    requires Leads(txs, a, c) && BornAs(Outputs(txs), c, n)
    ensures t[a] <= n
  {
    hide Leads, Connected, Births, Outputs, BornAs, Spendings;
    var received := Outputs(txs);
    BornReceived(received, c, n);
    BirthIs(received, c);
    OneBirth(received, c, n, Births(received)[c]);
    ConnectedIff(txs, a, c);
    assert NoSmallerBirth(t[a], Spendings(txs), Births(received), a);
  }

  lemma SharesMeans(txs: seq<Tx>, t: AddressInfo, a: Address, b: Address)
    requires SharesIffConnected(t, Spendings(txs)) && Known(t, a) && Known(t, b)
    ensures t[a] == t[b] <==> Leads(txs, a, b)
  {
    hide Leads, Connected, Spendings;
    ConnectedIff(txs, a, b);
  }

  lemma RowsMean(t: AddressInfo, rows: multiset<nat>, e: nat)
    requires RowsInUse(t, rows) && forall a :: a in t ==> t[a] != 0
    ensures rows[e] == if e in t.Values then 1 else 0
  {
    if e in t.Values {
      var a :| a in t && t[a] == e;
      assert Known(t, a);
    }
  }

  /** The tables after any run of transactions, said of the transactions. */
  lemma ClusteredMeans(txs: seq<Tx>, t: AddressInfo, rows: multiset<nat>)
    requires Clustered(txs, t, rows)
    ensures forall a :: a in t <==> Receives(txs, a)
    ensures forall a, b :: a in t && b in t ==> (t[a] == t[b] <==> Leads(txs, a, b))
    ensures forall a :: a in t ==> exists c :: Leads(txs, a, c) && BornAs(Outputs(txs), c, t[a])
    ensures forall a, c, n: nat :: a in t && Leads(txs, a, c) && BornAs(Outputs(txs), c, n) ==> t[a] <= n
    ensures forall e :: rows[e] == if e in t.Values then 1 else 0
  {
    hide Leads, Receives, Births, Outputs, BornAs, Spendings, SharesIffConnected, SmallestKept, RowsInUse;
    forall a ensures a in t <==> Receives(txs, a) { OutputsIff(txs, a); }
    forall a, b | a in t && b in t ensures t[a] == t[b] <==> Leads(txs, a, b) { SharesMeans(txs, t, a, b); }
    forall a | a in t ensures exists c :: Leads(txs, a, c) && BornAs(Outputs(txs), c, t[a]) {
      var c := NumberIsBorn(txs, t, a);
    }
    forall a, c, n: nat | a in t && Leads(txs, a, c) && BornAs(Outputs(txs), c, n) ensures t[a] <= n {
      NoneIsSmaller(txs, t, a, c, n);
    }
    forall e ensures rows[e] == if e in t.Values then 1 else 0 { RowsMean(t, rows, e); }
  }

  lemma BornReceived(received: seq<Address>, a: Address, n: nat)
    requires BornAs(received, a, n)
    ensures a in received
  {
  }
}
