/** The procedures behind the steps of the database, each shown to take its step. */
module DatabaseDrivers {
  import opened DbFormat
  import opened Versions
  import opened Inputs
  import opened Compactions
  import opened VersionEdits
  import opened Recovery
  import opened Database
  import opened DatabaseRuns
  import opened MergingIterators
  import opened TableRuns

  // ----- Facts about a reachable state -----

  lemma VersionFacts(db: Db)
    requires Inv(db)
    ensures WellFormed(db.version) && NewerAbove(db.version) && GloballyUnique(db.version)
    ensures forall l :: 0 <= l < NUM_LEVELS ==> SortedFiles(db.version[l])
    ensures forall l, g :: 0 <= l < NUM_LEVELS && g in db.version[l] ==> g.number < db.manifest.nextFile
  {
    TreeParts(db.version);
    VersionNumbers(db.manifest.edits, db.manifest.nextFile, db.version);
  }

  /** An edit that adds files to one level under new and different numbers. */
  lemma NewFiles(v: Version, e: VersionEdit, level: nat, files: seq<File>)
    requires level < NUM_LEVELS && e.newFiles == seq(|files|, i requires 0 <= i < |files| => (level, files[i]))
    requires forall p :: p in e.deletedFiles ==> p.0 < NUM_LEVELS
    requires forall i, j :: 0 <= i < j < |files| ==> files[i].number != files[j].number
    requires forall g, f :: g in v[level] && f in files ==> g.number != f.number
    ensures WellLevelled([e]) && NeverReAdds(v, [e])
  {
    forall l, f | f in AddedAt(e, l) ensures l == level && f in files {
      var p :| p in e.newFiles && p.0 == l && p.1 == f;
    }
  }

  /** An edit that adds one file under a number its level does not have. */
  lemma OneNewFile(v: Version, e: VersionEdit, level: nat, f: File)
    requires e.newFiles == [(level, f)] && level < NUM_LEVELS && (forall p :: p in e.deletedFiles ==> p.0 < NUM_LEVELS)
    requires forall g :: g in v[level] ==> g.number != f.number
    ensures WellLevelled([e]) && NeverReAdds(v, [e])
  {
    NewFiles(v, e, level, [f]);
  }

  // ----- Flush -----

  lemma MemtableFacts(db: Db)
    requires Inv(db) && db.up && db.imm.Some?
    ensures SeqIncreasing(db.imm.value) && Bounded(db.imm.value) && db.manifest.nextFile <= db.nextFile
  {
    hide TreeOk, ManifestOk, LogsOk, HistoryOk;
  }

  /** CompactMemTable: write the immutable memtable to a table, at the level that suits it. */
  method CompactMemTable(db: Db, size: nat) returns (level: nat, f: File, v': Version)
    requires Inv(db) && db.up && db.imm.Some?
    ensures Next(db, FlushStep(level, f, v'), AfterFlush(db, level, f, v')) && Inv(AfterFlush(db, level, f, v'))
  {
    hide Inv, WellFormed, NewerAbove, GloballyUnique, SeqIncreasing, Bounded, Installs, WellLevelled, NeverReAdds;
    VersionFacts(db);
    MemtableFacts(db);
    level, f := 0, FileMeta(0, 0, [ANY_ENTRY]);
    if db.imm.value == [] {
      NothingNew(db.version);
    } else {
      f := BuildTable(db.nextFile, size, db.imm.value);
      level := PickLevelForMemTableOutput(db.version, f.Smallest().ukey, f.Largest().ukey);
      OneNewFile(db.version, FlushEdit(db.imm.value, level, f), level, f);
    }
    v' := LogAndApply(db.version, FlushEdit(db.imm.value, level, f));
    FlushInv(db, level, f, v', AfterFlush(db, level, f, v'));
  }

  lemma NothingNew(v: Version)
    ensures WellLevelled([VersionEdit([], [])]) && NeverReAdds(v, [VersionEdit([], [])])
  {
  }

  // ----- Compaction -----

  ghost predicate FromFiles(runs: seq<seq<Entry>>, fs: seq<File>) {
    forall e :: InRuns(runs, e) <==> exists f :: f in fs && e in f.entries
  }

  lemma HeldByFiles(runs: seq<seq<Entry>>, fs: seq<File>)
    requires HoldsFiles(runs, fs, |fs|)
    ensures FromFiles(runs, fs)
  {
    forall e ensures InRuns(runs, e) <==> exists f :: f in fs && e in f.entries {
      if f :| f in fs && e in f.entries {
        var k :| 0 <= k < |fs| && fs[k] == f;
      }
    }
  }

  lemma ChosenFiles(v: Version, c: Compaction)
    requires WellFormed(v) && NewerAbove(v) && GoodInputs(v, c)
    ensures c.level == 0 ==> UniqueNumbers(c.in0) && NewerByNumber(c.in0)
    ensures c.level > 0 ==> DisjointFiles(c.in0)
    ensures DisjointFiles(c.in1)
  {
    hide InSpan, ClosedAtLevelZero;
    assert forall f :: f in c.in0 ==> f in v[c.level];
    assert forall f :: f in c.in1 ==> f in v[c.level + 1];
  }

  lemma LowerApart(v: Version, c: Compaction, runs: seq<seq<Entry>>)
    requires NewerAbove(v) && GoodInputs(v, c) && FromFiles(runs, c.in0)
    ensures Apart(runs, LevelRun(c.in1))
  {
    hide InSpan, ClosedAtLevelZero, InRuns, LevelRun;
    LevelRunIs(c.in1);
    forall d, e | InRuns(runs, d) && e in LevelRun(c.in1) && d.ik.ukey == e.ik.ukey ensures d.ik.seqno != e.ik.seqno {
      var f :| f in c.in0 && d in f.entries;
      var g :| g in c.in1 && e in g.entries;
      assert Newer(f, g);
    }
  }

  /** VersionSet::MakeInputIterator: every file of level 0 for itself, the files of other levels in a row. */
  method MakeInputIterator(v: Version, c: Compaction) returns (runs: seq<seq<Entry>>)
    requires WellFormed(v) && NewerAbove(v) && GoodInputs(v, c) && SortedFiles(c.in0) && SortedFiles(c.in1)
    ensures DistinctKeys(runs)
    ensures forall e :: InRuns(runs, e) <==> exists f :: (f in c.in0 || f in c.in1) && e in f.entries
  {
    hide DistinctKeys, InRuns, Apart, LevelRun, Sorted, NewerAbove, WellFormed, GoodInputs, SortedFiles, UniqueNumbers,
      NewerByNumber, DisjointFiles, FromFiles;
    ChosenFiles(v, c);
    runs := [];
    NoRuns();
    if c.level == 0 {
      for i := 0 to |c.in0|
        invariant DistinctKeys(runs) && HoldsFiles(runs, c.in0, i)
      {
        NextFile(runs, c.in0, i);
        AddRun(runs, c.in0[i].entries);
        runs := runs + [c.in0[i].entries];
      }
      HeldByFiles(runs, c.in0);
    } else {
      LevelRunSorted(c.in0);
      ApartFromNone(LevelRun(c.in0));
      AddRun(runs, LevelRun(c.in0));
      runs := runs + [LevelRun(c.in0)];
      OneLevel(runs, c.in0);
    }
    ghost var upper := runs;
    if c.in1 != [] {
      LevelRunSorted(c.in1);
      LowerApart(v, c, runs);
      AddRun(runs, LevelRun(c.in1));
      runs := runs + [LevelRun(c.in1)];
    }
    LevelRunIs(c.in1);
    BothInputs(upper, c, runs);
  }

  lemma ApartFromNone(es: seq<Entry>)
    ensures Apart([], es)
  {
  }

  lemma OneLevel(runs: seq<seq<Entry>>, fs: seq<File>)
    requires forall e :: InRuns(runs, e) <==> e in LevelRun(fs)
    ensures FromFiles(runs, fs)
  {
    LevelRunIs(fs);
  }

  lemma BothInputs(upper: seq<seq<Entry>>, c: Compaction, runs: seq<seq<Entry>>)
    requires FromFiles(upper, c.in0)
    requires forall e :: InRuns(runs, e) <==> InRuns(upper, e) || e in LevelRun(c.in1)
    ensures forall e :: InRuns(runs, e) <==> exists f :: (f in c.in0 || f in c.in1) && e in f.entries
  {
    hide InRuns, LevelRun;
    LevelRunIs(c.in1);
  }

  /** The output of a merge as tables under consecutive numbers. */
  method BuildOutputs(pieces: seq<seq<Entry>>, number: nat, sizes: nat -> nat) returns (outs: seq<File>)
    requires forall p :: p in pieces ==> p != [] && Sorted(p) && Bounded(p)
    ensures OutputFiles(outs, pieces) && forall i :: 0 <= i < |outs| ==> outs[i].number == number + i
  {
    hide Sorted, Bounded;
    outs := [];
    for i := 0 to |pieces|
      invariant |outs| == i && forall k :: 0 <= k < i ==> outs[k].entries == pieces[k] && outs[k].number == number + k
    {
      assert pieces[i] in pieces;
      var out := OneOutput(number + i, sizes(i), pieces[i]);
      outs := outs + [out];
    }
  }

  function OneOutput(number: nat, size: nat, es: seq<Entry>): (f: File)
    requires es != [] && Sorted(es) && Bounded(es)
    ensures f.number == number && f.entries == es
  {
    FileMeta(number, size, es)
  }

  /** Each piece of the survivors is fit for a table. */
  lemma PiecesFit(v: Version, c: Compaction, input: seq<Entry>, snap: nat, pieces: seq<seq<Entry>>)
    requires GoodInputs(v, c) && MergedInput(c, input) && Concat(pieces) == Survivors(v, c.level, input, snap, |input|)
    ensures forall p :: p in pieces ==> Sorted(p) && Bounded(p)
  {
    hide Survivors, Concat, GoodInputs;
    SurvivorsSorted(v, c.level, input, snap, |input|);
    SurvivorsAre(v, c.level, input, snap, |input|);
    forall e | e in Concat(pieces) ensures e.ik.seqno <= MAX_SEQUENCE_NUMBER {
      var i :| 0 <= i < |input| && input[i] == e;
      var h := InputFile(c, input, i);
    }
    forall p | p in pieces ensures Sorted(p) && Bounded(p) { PieceFits(pieces, p); }
  }

  lemma {:induction false} PieceFits(pieces: seq<seq<Entry>>, p: seq<Entry>)
    requires Sorted(Concat(pieces)) && Bounded(Concat(pieces)) && p in pieces
    ensures Sorted(p) && Bounded(p)
  {
    var n := |pieces| - 1;
    var front, all := Concat(pieces[..n]), Concat(pieces);
    assert all == front + pieces[n];
    assert forall i :: 0 <= i < |front| ==> all[i] == front[i];
    assert forall i :: 0 <= i < |pieces[n]| ==> all[|front| + i] == pieces[n][i];
    if p != pieces[n] {
      assert p in pieces[..n];
      PieceFits(pieces[..n], p);
    }
  }

  lemma SnapshotFacts(db: Db)
    requires Inv(db) && db.up
    ensures SmallestSnapshot(db) < MAX_SEQUENCE_NUMBER && db.manifest.nextFile <= db.nextFile
  {
    hide TreeOk, ManifestOk, LogsOk, HistoryOk, LogsMirror;
  }

  lemma OutputsNew(v: Version, c: Compaction, outs: seq<File>, number: nat)
    requires GoodInputs(v, c) && forall l, g :: 0 <= l < NUM_LEVELS && g in v[l] ==> g.number < number
    requires forall i :: 0 <= i < |outs| ==> outs[i].number == number + i
    ensures WellLevelled([CompactionEdit(c, outs)]) && NeverReAdds(v, [CompactionEdit(c, outs)])
  {
    hide InSpan, ClosedAtLevelZero;
    NewFiles(v, CompactionEdit(c, outs), c.level + 1, outs);
  }

  /** BackgroundCompaction: pick the inputs; move a single file, or merge. Where the merge cuts its output
      and how large the tables come out are parameters. */
  method BackgroundCompaction(db: Db, level: nat, index: nat, stop: nat -> bool, full: nat -> bool, sizes: nat -> nat)
    returns (c: Compaction, input: seq<Entry>, pieces: seq<seq<Entry>>, outs: seq<File>, v': Version)
    requires Inv(db) && db.up && level + 1 < NUM_LEVELS && index < |db.version[level]|
    ensures GoodInputs(db.version, c) && c.level == level && db.version[level][index] in c.in0
    ensures IsTrivialMove(c) ==>
              && MovesDown(db, c, v', AfterMove(db, c, v'))
              && (Inv(AfterMove(db, c, v')) <==> (level >= 1 ==> CleanCut(db.version[level], c.in0)))
    ensures !IsTrivialMove(c) ==>
              && CompactsTo(db, c, input, pieces, outs, v', AfterCompact(db, c, outs, v'))
              && (Inv(AfterCompact(db, c, outs, v')) <==> SafeInputs(db, c, input))
  {
    hide Inv, WellFormed, NewerAbove, GloballyUnique, Installs, SafeInputs, CleanCut, Survivors, MergedInput, Sorted, Bounded,
      DistinctKeys, InRuns, SortedFiles, Concat, OutputFiles, CompactionEdit, MoveEdit, AfterMove, AfterCompact, WellLevelled,
      NeverReAdds, InSpan, ClosedAtLevelZero;
    VersionFacts(db);
    SnapshotFacts(db);
    input, pieces, outs := [], [], [];
    c := PickCompaction(db.version, level, index);
    if IsTrivialMove(c) {
      MoveIsNew(db.version, c);
      v' := LogAndApply(db.version, MoveEdit(c.level, c.in0[0]));
      TrivialMoveInvIff(db, c, v', AfterMove(db, c, v'));
    } else {
      var runs := MakeInputIterator(db.version, c);
      input := Drain(runs);
      MergedFrom(c, runs, input);
      pieces, outs := Merge(db, c, input, stop, full, sizes);
      OutputsNew(db.version, c, outs, db.nextFile);
      v' := LogAndApply(db.version, CompactionEdit(c, outs));
      CompactInvIff(db, c, input, pieces, outs, v', AfterCompact(db, c, outs, v'));
    }
  }

  lemma MergedFrom(c: Compaction, runs: seq<seq<Entry>>, input: seq<Entry>)
    requires Sorted(input) && forall e :: e in input <==> InRuns(runs, e)
    requires forall e :: InRuns(runs, e) <==> exists f :: (f in c.in0 || f in c.in1) && e in f.entries
    ensures MergedInput(c, input)
  {
    hide InRuns;
  }

  /** What is moved has no number of its new level. */
  lemma MoveIsNew(v: Version, c: Compaction)
    requires GloballyUnique(v) && GoodInputs(v, c) && IsTrivialMove(c)
    ensures WellLevelled([MoveEdit(c.level, c.in0[0])]) && NeverReAdds(v, [MoveEdit(c.level, c.in0[0])])
  {
    hide InSpan, ClosedAtLevelZero;
    var f := c.in0[0];
    assert f in c.in0 && f in v[c.level];
    OneNewFile(v, MoveEdit(c.level, f), c.level + 1, f);
  }

  /** DoCompactionWork over the merged input, and a table for each piece. */
  method Merge(db: Db, c: Compaction, input: seq<Entry>, stop: nat -> bool, full: nat -> bool, sizes: nat -> nat)
    returns (pieces: seq<seq<Entry>>, outs: seq<File>)
    requires WellFormed(db.version) && GoodInputs(db.version, c) && MergedInput(c, input)
    requires SmallestSnapshot(db) < MAX_SEQUENCE_NUMBER
    ensures Concat(pieces) == Survivors(db.version, c.level, input, SmallestSnapshot(db), |input|)
    ensures OutputFiles(outs, pieces) && forall i :: 0 <= i < |outs| ==> outs[i].number == db.nextFile + i
  {
    hide WellFormed, GoodInputs, Survivors, Concat, BaseLevelCursor.Passed;
    var cursor := new BaseLevelCursor(c.level, db.version);
    var stopBefore := seq(|input|, i requires 0 <= i < |input| => stop(i));
    var fullAfter := seq(|input|, i requires 0 <= i < |input| => full(i));
    pieces := DoCompactionWork(cursor, input, SmallestSnapshot(db), stopBefore, fullAfter);
    PiecesFit(db.version, c, input, SmallestSnapshot(db), pieces);
    outs := BuildOutputs(pieces, db.nextFile, sizes);
  }

  // ----- Open -----

  lemma ManifestFacts(db: Db)
    requires Inv(db)
    ensures WellLevelled(db.manifest.edits) && NeverReAdds(EMPTY_VERSION, db.manifest.edits)
    ensures LogsInOrder(db.logs, db.manifest.logNumber)
    ensures forall e :: e in Live(db) ==> e.ik.seqno <= MAX_SEQUENCE_NUMBER
  {
    hide TreeOk, LogsInOrder, WellLevelled, NeverReAdds, LiveEntries;
    assert forall e :: e in Live(db) ==> e in Held(db);
  }

  /** WriteSnapshot: all the files of a version in one edit. */
  method WriteSnapshot(r: Version) returns (e: VersionEdit)
    requires forall l :: 0 <= l < NUM_LEVELS ==> SortedFiles(r[l])
    ensures SnapshotEdit(r, e)
  {
    hide SortedFiles;
    var adds: seq<(nat, File)> := [];
    for l := 0 to NUM_LEVELS
      invariant AddsLevels(adds, r, l) && Distinct(adds)
    {
      ghost var before := adds;
      SortedDistinct(r[l]);
      for i := 0 to |r[l]|
        invariant forall k: nat, x :: (k, x) in adds <==> (k, x) in before || (k == l && x in r[l][..i])
        invariant Distinct(adds)
      {
        assert r[l][..i + 1] == r[l][..i] + [r[l][i]];
        assert (l, r[l][i]) !in adds;
        adds := adds + [(l, r[l][i])];
      }
      assert r[l][..|r[l]|] == r[l];
    }
    e := VersionEdit([], adds);
    SnapshotAdds(r, e);
  }

  /** Exactly the files of the levels above l. */
  ghost predicate AddsLevels(adds: seq<(nat, File)>, r: Version, l: nat) {
    forall k: nat, x :: (k, x) in adds <==> k < l && k < |r| && x in r[k]
  }

  lemma SortedDistinct(fs: seq<File>)
    requires SortedFiles(fs)
    ensures forall i, j :: 0 <= i < j < |fs| ==> fs[i] != fs[j]
  {
    forall i, j | 0 <= i < j < |fs| ensures fs[i] != fs[j] { StrictOrder(fs[i], fs[j]); }
  }

  lemma SnapshotAdds(r: Version, e: VersionEdit)
    requires e.deletedFiles == [] && AddsLevels(e.newFiles, r, NUM_LEVELS) && Distinct(e.newFiles)
    ensures SnapshotEdit(r, e)
  {
    forall p | p in e.newFiles ensures p.0 < NUM_LEVELS { assert (p.0, p.1) in e.newFiles; }
    forall l | 0 <= l < NUM_LEVELS ensures AddedAt(e, l) == FileSet(r[l]) {
      forall x | x in r[l] ensures x in AddedAt(e, l) { assert (l, x) in e.newFiles; }
      forall x | x in AddedAt(e, l) ensures x in r[l] {
        var p :| p in e.newFiles && p.0 == l && p.1 == x;
        assert (p.0, p.1) in e.newFiles;
      }
    }
  }

  /** A table for each memtable that was filled from the logs. */
  method BuildRecovered(chunks: seq<seq<Entry>>, nextFile: nat, sizes: nat -> nat) returns (files: seq<File>)
    requires forall c :: c in chunks ==> c != [] && SeqIncreasing(c) && Bounded(c)
    ensures RecoveredTables(files, chunks, nextFile) && forall f :: f in files ==> f.number <= nextFile + |files|
  {
    hide SeqIncreasing, Bounded;
    files := [];
    for i := 0 to |chunks|
      invariant |files| == i
      invariant forall k :: 0 <= k < i ==> files[k].number == nextFile + 1 + k && forall e :: e in files[k].entries <==> e in chunks[k]
    {
      assert chunks[i] in chunks;
      files := files + [BuildTable(nextFile + 1 + i, sizes(i), chunks[i])];
    }
  }

  lemma ChunksFit(chunks: seq<seq<Entry>>)
    requires SeqIncreasing(Concat(chunks)) && Bounded(Concat(chunks))
    ensures forall c :: c in chunks ==> SeqIncreasing(c) && Bounded(c)
  {
    forall c | c in chunks ensures SeqIncreasing(c) && Bounded(c) { ChunkFits(chunks, c); }
  }

  lemma BothFit(front: seq<Entry>, back: seq<Entry>)
    requires SeqIncreasing(front + back) && Bounded(front + back)
    ensures SeqIncreasing(front) && Bounded(front) && SeqIncreasing(back) && Bounded(back)
  {
    var all := front + back;
    assert forall i :: 0 <= i < |front| ==> all[i] == front[i];
    assert forall i :: 0 <= i < |back| ==> all[|front| + i] == back[i];
  }

  lemma {:induction false} ChunkFits(chunks: seq<seq<Entry>>, c: seq<Entry>)
    requires SeqIncreasing(Concat(chunks)) && Bounded(Concat(chunks)) && c in chunks
    ensures SeqIncreasing(c) && Bounded(c)
  {
    hide SeqIncreasing, Bounded;
    var n := |chunks| - 1;
    assert Concat(chunks) == Concat(chunks[..n]) + chunks[n];
    BothFit(Concat(chunks[..n]), chunks[n]);
    if c != chunks[n] {
      assert c in chunks[..n];
      ChunkFits(chunks[..n], c);
    }
  }

  /** A number above all of these. */
  method NewNumber(children: seq<nat>, from: nat) returns (n: nat)
    ensures n > from && forall c :: c in children ==> n > c
  {
    n := from + 1;
    for i := 0 to |children|
      invariant n > from && forall k :: 0 <= k < i ==> n > children[k]
    {
      if children[i] >= n { n := children[i] + 1; }
    }
  }

  /** DB::Open: the version from the manifest, the entries of the live logs in new tables, a new log and a
      new manifest. When a memtable is full and how large the tables come out are parameters. */
  method Open(db: Db, children: seq<nat>, spill: (nat, nat) -> bool, sizes: nat -> nat)
    returns (r: Version, chunks: seq<seq<Entry>>, maxSequence: nat, files: seq<File>, newLog: nat, snap: VersionEdit, v': Version)
    requires Inv(db) && !db.up
    requires forall n :: n in children <==> n in db.logs
    requires forall i, j :: 0 <= i < j < |children| ==> children[i] != children[j]
    ensures Next(db, ReopenStep(r, chunks, maxSequence, files, newLog, snap, v'),
                 AfterReopen(db, maxSequence, files, newLog, snap, v'))
    ensures Inv(AfterReopen(db, maxSequence, files, newLog, snap, v'))
  {
    hide Inv, WellLevelled, NeverReAdds, LogsInOrder, LiveEntries, SeqIncreasing, Bounded, Concat, SortedFiles, Installs,
      SnapshotEdit, RecoveredTables, LevelZeroEdit, AfterReopen, IsMaxSequence, Files, BatchedFiles, FileSet;
    ManifestFacts(db);
    EmptyLevels();
    r := Recover(EMPTY_VERSION, db.manifest.edits);
    ReopenFindsEveryTable(db, r);
    chunks, maxSequence := RecoverLogs(db.logs, children, db.manifest.logNumber, spill);
    LogsBounded(db, chunks);
    ChunksFit(chunks);
    files := BuildRecovered(chunks, db.manifest.nextFile, sizes);
    newLog := NewNumber(children, db.manifest.nextFile + |files|);
    snap := WriteSnapshot(r);
    RecoveredAreNew(db, r, chunks, files);
    v' := LogAndApply(r, LevelZeroEdit(files));
    ReopenInv(db, r, chunks, maxSequence, files, newLog, snap, v', AfterReopen(db, maxSequence, files, newLog, snap, v'));
  }

  lemma EmptyLevels()
    ensures forall l :: 0 <= l < NUM_LEVELS ==> SortedFiles(EMPTY_VERSION[l])
  {
  }

  lemma LogsBounded(db: Db, chunks: seq<seq<Entry>>)
    requires (forall e :: e in Live(db) ==> e.ik.seqno <= MAX_SEQUENCE_NUMBER) && forall e :: e in Concat(chunks) ==> e in Live(db)
    ensures Bounded(Concat(chunks))
  {
    hide LiveEntries, Concat;
  }

  lemma RecoveredAreNew(db: Db, r: Version, chunks: seq<seq<Entry>>, files: seq<File>)
    requires Inv(db) && RecoveredFrom(db.manifest, r) && RecoveredTables(files, chunks, db.manifest.nextFile)
    ensures WellLevelled([LevelZeroEdit(files)]) && NeverReAdds(r, [LevelZeroEdit(files)])
  {
    hide RecoveredFrom, Inv;
    RecoveredIs(db, r);
    VersionFacts(db);
    NewFiles(r, LevelZeroEdit(files), 0, files);
  }

  lemma RecoveredIs(db: Db, r: Version)
    requires Inv(db) && RecoveredFrom(db.manifest, r)
    ensures r == db.version
  {
    hide RecoveredFrom, LogsOk, HistoryOk;
    RecoveredIsCurrent(db.manifest, db.version, r);
  }
}
