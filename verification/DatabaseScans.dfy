/** Iterators over an open database: what a scan shows is the history of all writes. */
module DatabaseScans {
  import opened Wrappers
  import opened DbFormat
  import opened Versions
  import opened Recovery
  import opened Database
  import opened DatabaseRuns
  import opened DatabaseReads
  import opened MergingIterators
  import opened TableRuns
  import opened DbIterators

  // ----- The runs that a scan merges -----

  /** The runs hold exactly the entries of the levels above l. */
  ghost predicate HoldsLevels(runs: seq<seq<Entry>>, v: Version, l: nat) {
    forall e :: InRuns(runs, e) <==> exists m :: 0 <= m < l && m < |v| && e in LevelEntries(v[m])
  }

  lemma NextLevel(runs: seq<seq<Entry>>, v: Version, l: nat)
    requires NewerAbove(v) && HoldsLevels(runs, v, l) && 1 <= l < NUM_LEVELS
    ensures Apart(runs, LevelRun(v[l])) && forall e :: e in LevelRun(v[l]) <==> e in LevelEntries(v[l])
  {
    hide LevelRun;
    LevelRunIs(v[l]);
    forall d, e | InRuns(runs, d) && e in LevelRun(v[l]) && d.ik.ukey == e.ik.ukey ensures d.ik.seqno != e.ik.seqno {
      var m :| 0 <= m < l && d in LevelEntries(v[m]);
      var f :| f in v[m] && d in f.entries;
      var g :| g in v[l] && e in g.entries;
      assert Newer(f, g);
    }
  }

  /** Version::AddIterators. */
  method AddIterators(v: Version) returns (runs: seq<seq<Entry>>)
    requires WellFormed(v) && NewerAbove(v)
    ensures DistinctKeys(runs) && forall e :: InRuns(runs, e) <==> e in VersionEntries(v)
  {
    hide DistinctKeys, InRuns, Apart, LevelRun, Sorted, NewerAbove, WellFormed;
    Parts(v);
    runs := [];
    NoRuns();
    for i := 0 to |v[0]|
      invariant DistinctKeys(runs) && HoldsFiles(runs, v[0], i)
    {
      NextFile(runs, v[0], i);
      AddRun(runs, v[0][i].entries);
      runs := runs + [v[0][i].entries];
    }
    FilesAreLevel(runs, v);
    for l := 1 to NUM_LEVELS
      invariant DistinctKeys(runs) && HoldsLevels(runs, v, l)
    {
      if v[l] != [] {
        NextLevel(runs, v, l);
        LevelRunSorted(v[l]);
        AddRun(runs, LevelRun(v[l]));
        runs := runs + [LevelRun(v[l])];
      }
    }
    LevelsAreVersion(runs, v);
  }

  lemma Parts(v: Version)
    requires WellFormed(v) && NewerAbove(v)
    ensures NewerByNumber(v[0]) && forall l :: 0 <= l < NUM_LEVELS ==> SortedFiles(v[l]) && UniqueNumbers(v[l])
    ensures forall l :: 1 <= l < NUM_LEVELS ==> DisjointFiles(v[l])
  {
  }

  lemma FilesAreLevel(runs: seq<seq<Entry>>, v: Version)
    requires HoldsFiles(runs, v[0], |v[0]|)
    ensures HoldsLevels(runs, v, 1)
  {
    forall e ensures InRuns(runs, e) <==> e in LevelEntries(v[0]) {
      if e in LevelEntries(v[0]) {
        var f :| f in v[0] && e in f.entries;
        var k :| 0 <= k < |v[0]| && v[0][k] == f;
      }
    }
  }

  lemma LevelsAreVersion(runs: seq<seq<Entry>>, v: Version)
    requires HoldsLevels(runs, v, NUM_LEVELS)
    ensures forall e :: InRuns(runs, e) <==> e in VersionEntries(v)
  {
    forall e ensures e in VersionEntries(v) <==> exists m :: 0 <= m < NUM_LEVELS && m < |v| && e in LevelEntries(v[m]) {
      if e in VersionEntries(v) {
        var l, f :| 0 <= l < |v| && f in v[l] && e in f.entries;
        assert e in LevelEntries(v[l]);
      }
    }
  }

  // ----- An iterator at a snapshot -----

  /** What the merged runs of an open database hold, and that a reader cannot tell it from the history. */
  lemma MergedIsHistory(db: Db, s: nat, runs: seq<seq<Entry>>, merged: seq<Entry>)
    requires Inv(db) && db.up && (s in db.snapshots || s == db.lastSequence)
    requires forall e :: e in merged <==> e in Elements(db.mem) + (ImmEntries(db) + VersionEntries(db.version))
    requires Sorted(merged)
    ensures Snapshotable(merged) && forall k :: Read(Elements(merged), k, s) == Read(db.history, k, s)
  {
    hide Inv, Read, VersionEntries, Held, WellFormed, NewerAbove, NewerByNumber, Visible, Sorted;
    Layers(db);
    var M, I, V, P := Elements(db.mem), ImmEntries(db), VersionEntries(db.version), Elements(db.pending);
    ReadableFromHeld(db, 0.0, s);
    UniqueParts(P, M, I, V);
    assert Elements(merged) == M + (I + V);
    forall k ensures Read(Elements(merged), k, s) == Read(db.history, k, s) {
      ReadableFromHeld(db, k, s);
      hide UniqueSeq, Elements;
      SilentLayer(P, M + (I + V), k, s);
    }
  }

  lemma MemtablesApart(db: Db, runs: seq<seq<Entry>>)
    requires Inv(db) && db.up && forall e :: InRuns(runs, e) <==> e in VersionEntries(db.version)
    ensures SeqIncreasing(db.mem) && Apart(runs, SortEntries(db.mem))
    ensures db.imm.Some? ==> SeqIncreasing(db.imm.value) && Apart(runs, SortEntries(db.imm.value))
    ensures db.imm.Some? ==> forall d, e :: d in db.imm.value && e in db.mem ==> d.ik.seqno < e.ik.seqno
  {
    hide Inv, Held, VersionEntries, InRuns;
    Layers(db);
  }

  /** DBImpl::NewInternalIterator: both memtables and every file. */
  method InternalRuns(db: Db) returns (runs: seq<seq<Entry>>)
    requires Inv(db) && db.up
    ensures DistinctKeys(runs)
    ensures forall e :: InRuns(runs, e) <==> e in Elements(db.mem) + (ImmEntries(db) + VersionEntries(db.version))
  {
    hide Inv, DistinctKeys, InRuns, Apart, Sorted, NewerAbove, WellFormed, VersionEntries;
    VersionParts(db);
    runs := AddIterators(db.version);
    MemtablesApart(db, runs);
    ghost var tables := runs;
    if db.imm.Some? {
      AddRunInFront(runs, SortEntries(db.imm.value));
      runs := [SortEntries(db.imm.value)] + runs;
      ImmApart(tables, db.imm.value, runs, db.mem);
    }
    AddRunInFront(runs, SortEntries(db.mem));
    runs := [SortEntries(db.mem)] + runs;
  }

  lemma VersionParts(db: Db)
    requires Inv(db)
    ensures WellFormed(db.version) && NewerAbove(db.version)
  {
  }

  lemma ImmApart(tables: seq<seq<Entry>>, imm: seq<Entry>, runs: seq<seq<Entry>>, mem: seq<Entry>)
    requires SeqIncreasing(imm) && SeqIncreasing(mem) && Apart(tables, SortEntries(mem))
    requires forall e :: InRuns(runs, e) <==> InRuns(tables, e) || e in SortEntries(imm)
    requires forall d, e :: d in imm && e in mem ==> d.ik.seqno < e.ik.seqno
    ensures Apart(runs, SortEntries(mem))
  {
    hide InRuns;
  }

  method NewIterator(db: Db, s: nat) returns (it: DBIter)
    requires Inv(db) && db.up && (s in db.snapshots || s == db.lastSequence)
    ensures it.Valid() && it.sequence == s && fresh(it) && fresh(it.iter)
    ensures forall k :: Read(it.Entries(), k, s) == Read(db.history, k, s)
  {
    hide Inv, DistinctKeys, Sorted, Read, VersionEntries, Elements, Snapshotable, MergingIterator.Valid;
    var runs := InternalRuns(db);
    MergedIsHistory(db, s, runs, MergeRuns(runs));
    var iter := new MergingIterator(runs);
    it := new DBIter(iter, s);
  }

  // ----- Whole scans -----

  /** Every key that reads as present in the history, with its value, in key order. */
  ghost predicate IsScan(history: set<Entry>, s: nat, pairs: seq<(UserKey, string)>) {
    && (forall i, j :: 0 <= i < j < |pairs| ==> pairs[i].0 < pairs[j].0)
    && (forall i :: 0 <= i < |pairs| ==> Read(history, pairs[i].0, s) == Found(pairs[i].1))
    && (forall k :: Read(history, k, s).Found? ==> exists i :: 0 <= i < |pairs| && pairs[i].0 == k)
  }

  /** The part of a scan below a key, or all of it. */
  ghost predicate ScannedTo(S: set<Entry>, s: nat, pairs: seq<(UserKey, string)>, bound: Option<UserKey>) {
    && (forall i, j :: 0 <= i < j < |pairs| ==> pairs[i].0 < pairs[j].0)
    && (forall i :: 0 <= i < |pairs| ==> Read(S, pairs[i].0, s) == Found(pairs[i].1) && (bound.Some? ==> pairs[i].0 < bound.value))
    && (forall k :: Read(S, k, s).Found? && (bound.Some? ==> k < bound.value) ==> exists i :: 0 <= i < |pairs| && pairs[i].0 == k)
  }

  /** The part of a scan above a key, or all of it. */
  ghost predicate ScannedFrom(S: set<Entry>, s: nat, pairs: seq<(UserKey, string)>, bound: Option<UserKey>) {
    && (forall i, j :: 0 <= i < j < |pairs| ==> pairs[i].0 < pairs[j].0)
    && (forall i :: 0 <= i < |pairs| ==> Read(S, pairs[i].0, s) == Found(pairs[i].1) && (bound.Some? ==> bound.value < pairs[i].0))
    && (forall k :: Read(S, k, s).Found? && (bound.Some? ==> bound.value < k) ==> exists i :: 0 <= i < |pairs| && pairs[i].0 == k)
  }

  lemma ScanOne(es: seq<Entry>, s: nat, pairs: seq<(UserKey, string)>, k: UserKey, v: string, bound: Option<UserKey>)
    requires ScannedTo(Elements(es), s, pairs, Some(k)) && Read(Elements(es), k, s) == Found(v)
    requires Empty(es, s, Some(k), bound) && (bound.Some? ==> k < bound.value)
    ensures ScannedTo(Elements(es), s, pairs + [(k, v)], bound)
  {
    hide Read, Elements;
    var all := pairs + [(k, v)];
    forall x | Read(Elements(es), x, s).Found? && (bound.Some? ==> x < bound.value) ensures exists i :: 0 <= i < |all| && all[i].0 == x {
      if x < k {
        var i :| 0 <= i < |pairs| && pairs[i].0 == x;
        assert all[i].0 == x;
      } else {
        assert all[|pairs|].0 == k;
      }
    }
  }

  lemma ScanOneBack(es: seq<Entry>, s: nat, pairs: seq<(UserKey, string)>, k: UserKey, v: string, bound: Option<UserKey>)
    requires ScannedFrom(Elements(es), s, pairs, Some(k)) && Read(Elements(es), k, s) == Found(v)
    requires Empty(es, s, bound, Some(k)) && (bound.Some? ==> bound.value < k)
    ensures ScannedFrom(Elements(es), s, [(k, v)] + pairs, bound)
  {
    hide Read, Elements;
    var all := [(k, v)] + pairs;
    forall x | Read(Elements(es), x, s).Found? && (bound.Some? ==> bound.value < x) ensures exists i :: 0 <= i < |all| && all[i].0 == x {
      if k < x {
        var i :| 0 <= i < |pairs| && pairs[i].0 == x;
        assert all[i + 1].0 == x;
      } else {
        assert all[0].0 == k;
      }
    }
  }

  lemma NothingScanned(es: seq<Entry>, s: nat, bound: Option<UserKey>)
    ensures Empty(es, s, None, bound) ==> ScannedTo(Elements(es), s, [], bound)
    ensures Empty(es, s, bound, None) ==> ScannedFrom(Elements(es), s, [], bound)
  {
    hide Read, Elements;
  }

  lemma WholeScan(S: set<Entry>, history: set<Entry>, s: nat, pairs: seq<(UserKey, string)>)
    requires forall k :: Read(S, k, s) == Read(history, k, s)
    ensures ScannedTo(S, s, pairs, None) ==> IsScan(history, s, pairs)
    ensures ScannedFrom(S, s, pairs, None) ==> IsScan(history, s, pairs)
  {
    hide Read;
  }

  /** From the first key on with Next: exactly what the history holds at the snapshot. */
  method Scan(db: Db, s: nat) returns (pairs: seq<(UserKey, string)>)
    requires Inv(db) && db.up && (s in db.snapshots || s == db.lastSequence)
    ensures IsScan(db.history, s, pairs)
  {
    hide Inv, Read, Elements, ScannedTo, IsScan, Empty, MergingIterator.Valid, Yields, JustBefore;
    var it := NewIterator(db, s);
    ghost var es := it.iter.merged;
    pairs := [];
    it.SeekToFirst();
    NothingScanned(es, s, it.Shown());
    while it.valid
      invariant fresh(it) && fresh(it.iter) && it.Valid() && it.ShowsRead()
      invariant ScannedTo(Elements(es), s, pairs, it.Shown())
      decreases if it.valid then |es| - it.shown else -1
    {
      ghost var before, k, v := it.shown, it.Key(), it.Value();
      pairs := pairs + [(it.Key(), it.Value())];
      it.Next();
      ScanOne(es, s, pairs[..|pairs| - 1], k, v, it.Shown());
      if it.valid { KeysRise(es, before, it.shown); }
    }
    WholeScan(Elements(es), db.history, s, pairs);
  }

  /** From the last key on with Prev: the same. */
  method ScanBackward(db: Db, s: nat) returns (pairs: seq<(UserKey, string)>)
    requires Inv(db) && db.up && (s in db.snapshots || s == db.lastSequence)
    ensures IsScan(db.history, s, pairs)
  {
    hide Inv, Read, Elements, ScannedFrom, IsScan, Empty, MergingIterator.Valid, Yields, JustBefore;
    var it := NewIterator(db, s);
    ghost var es := it.iter.merged;
    pairs := [];
    it.SeekToLast();
    NothingScanned(es, s, it.Shown());
    while it.valid
      invariant fresh(it) && fresh(it.iter) && it.Valid() && it.ShowsRead()
      invariant ScannedFrom(Elements(es), s, pairs, it.Shown())
      decreases if it.valid then it.shown else -1
    {
      ghost var before, k, v := it.shown, it.Key(), it.Value();
      pairs := [(it.Key(), it.Value())] + pairs;
      it.Prev();
      ScanOneBack(es, s, pairs[1..], k, v, it.Shown());
      if it.valid { KeysRise(es, it.shown, before); }
    }
    WholeScan(Elements(es), db.history, s, pairs);
  }

  lemma KeysRise(es: seq<Entry>, i: nat, j: nat)
    requires Snapshotable(es) && i < |es| && j < |es| && es[i].ik.ukey < es[j].ik.ukey
    ensures i < j
  {
    if j <= i { KeysGrow(es, j, i); }
  }

  lemma Position(history: set<Entry>, s: nat, p: seq<(UserKey, string)>, k: UserKey) returns (i: nat)
    requires IsScan(history, s, p) && Read(history, k, s).Found?
    ensures i < |p| && p[i] == (k, Read(history, k, s).value)
  {
    hide Read;
    var j :| 0 <= j < |p| && p[j].0 == k;
    i := j;
  }

  lemma Ascends(history: set<Entry>, s: nat, p: seq<(UserKey, string)>, i: nat, j: nat)
    requires IsScan(history, s, p) && i < |p| && j < |p|
    ensures Read(history, p[i].0, s) == Found(p[i].1) && (i < j ==> p[i].0 < p[j].0)
  {
    hide Read;
  }

  lemma {:induction false} SameFront(history: set<Entry>, s: nat, p: seq<(UserKey, string)>, q: seq<(UserKey, string)>, n: nat)
    requires IsScan(history, s, p) && IsScan(history, s, q) && n <= |p|
    ensures n <= |q| && forall k :: 0 <= k < n ==> p[k] == q[k]
  {
    hide Read, IsScan;
    if n > 0 {
      var m := n - 1;
      SameFront(history, s, p, q, m);
      Ascends(history, s, p, m, m);
      var i := Position(history, s, q, p[m].0);
      if i < m { Ascends(history, s, p, i, m); }
      Ascends(history, s, q, m, i);
      var j := Position(history, s, p, q[m].0);
      if j < m { Ascends(history, s, q, j, m); }
      Ascends(history, s, p, m, j);
    }
  }

  /** Two scans of one history at one snapshot are the same, whichever way they went. */
  lemma {:induction false} OneScan(history: set<Entry>, s: nat, p: seq<(UserKey, string)>, q: seq<(UserKey, string)>)
    requires IsScan(history, s, p) && IsScan(history, s, q)
    ensures p == q
  {
    hide IsScan;
    SameFront(history, s, p, q, |p|);
    SameFront(history, s, q, p, |q|);
  }
}
