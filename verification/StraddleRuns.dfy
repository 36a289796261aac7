/** Two runs from an empty tree after which a client reads a value that was deleted. A snapshot makes
    a merge keep a value under its tombstone, the output is cut between the two, and once the
    snapshot is gone only the file with the tombstone goes down. */
module StraddleRuns {
  import opened DbFormat
  import opened Versions
  import opened Inputs
  import opened Compactions
  import opened VersionEdits
  import opened Database
  import opened FileLists

  const OLDEST := Entry(InternalKey(1.0, 1, Value), "oldest")
  const BELOW := Entry(InternalKey(2.0, 2, Value), "below")
  const OLD := Entry(InternalKey(1.0, 3, Value), "old")
  const BESIDE := Entry(InternalKey(2.0, 4, Value), "beside")
  const TOMBSTONE := Entry(InternalKey(1.0, 7, Deletion), "")

  const H1: File := FileMeta(1, 1, [OLDEST])
  const H2: File := FileMeta(2, 1, [BELOW])
  const VALUES: File := FileMeta(3, 1, [OLD, BESIDE])
  const DELETION: File := FileMeta(4, 1, [TOMBSTONE])
  const F: File := FileMeta(5, 1, [TOMBSTONE])
  const G: File := FileMeta(6, 1, [OLD, BESIDE])

  function Three(l0: seq<File>, l1: seq<File>, l2: seq<File>): (v: Version)
    ensures v[0] == l0 && v[1] == l1 && v[2] == l2 && forall l :: 3 <= l < NUM_LEVELS ==> v[l] == []
  {
    [l0, l1, l2, [], [], [], []]
  }

  // ----- Steps on three levels -----

  /** The files of one level before and after an edit. */
  ghost predicate EditsLevel(fs: seq<File>, e: VersionEdit, l: nat, fs': seq<File>) {
    SortedFiles(fs') && FileSet(fs') == EditedFiles(FileSet(fs), e, l)
  }

  lemma InstallsThree(v: Version, e: VersionEdit, v': Version)
    requires forall l :: 3 <= l < NUM_LEVELS ==> v[l] == [] && v'[l] == []
    requires EditsLevel(v[0], e, 0, v'[0]) && EditsLevel(v[1], e, 1, v'[1]) && EditsLevel(v[2], e, 2, v'[2])
    requires forall p :: p in e.newFiles ==> p.0 < 3
    ensures Installs(v, e, v')
  {
  }

  lemma Untouched(fs: seq<File>, e: VersionEdit, l: nat)
    requires SortedFiles(fs) && (forall p :: p in e.newFiles ==> p.0 != l) && forall p :: p in e.deletedFiles ==> p.0 != l
    ensures EditsLevel(fs, e, l, fs)
  {
  }

  lemma Flushed(f: File, level: nat, fs: seq<File>, fs': seq<File>)
    requires SortedFiles(fs') && forall g :: g in fs' <==> g == f || g in fs
    ensures EditsLevel(fs, FlushEdit(f.entries, level, f), level, fs')
  {
    var e := FlushEdit(f.entries, level, f);
    assert AddedAt(e, level) == {f} by { assert (level, f) in e.newFiles; }
    assert DeletedAt(e, level) == {};
  }

  lemma FlushTwo(v: Version, f: File, n: nat, v': Version)
    requires forall l :: 3 <= l < NUM_LEVELS ==> v[l] == [] && v'[l] == []
    requires SortedFiles(v[0]) && SortedFiles(v[1]) && SortedFiles(v[2]) && n < 3
    requires SortedFiles(v'[n]) && (forall g :: g in v'[n] <==> g == f || g in v[n])
    requires forall l :: 0 <= l < 3 && l != n ==> v'[l] == v[l]
    ensures Installs(v, FlushEdit(f.entries, n, f), v')
  {
    var e := FlushEdit(f.entries, n, f);
    Flushed(f, n, v[n], v'[n]);
    forall l | 0 <= l < 3 && l != n ensures EditsLevel(v[l], e, l, v'[l]) { Untouched(v[l], e, l); }
    InstallsThree(v, e, v');
  }

  // ----- The common part: two levels of values, a tombstone, and a merge under a snapshot -----

  ghost predicate IsLow(low: seq<File>) {
    low == [H2] || low == [H1, H2]
  }

  lemma LowSorted(low: seq<File>)
    requires IsLow(low)
    ensures SortedFiles(low) && DisjointFiles(low) && UniqueNumbers(low)
  {
    assert BySmallestKey(H1, H2) && Disjoint(H1, H2) && Disjoint(H2, H1);
    if low == [H1, H2] {
      assert forall f :: f in low ==> f == H1 || f == H2;
    }
  }

  lemma FlushValues(low: seq<File>)
    requires IsLow(low)
    ensures TreeNext(Tree(Three([], [], low), 3), FlushTable(1, VALUES), Tree(Three([], [VALUES], low), 4))
  {
    LowSorted(low);
    FlushTwo(Three([], [], low), VALUES, 1, Three([], [VALUES], low));
  }

  lemma FlushDeletion(low: seq<File>)
    requires IsLow(low)
    ensures TreeNext(Tree(Three([], [VALUES], low), 4), FlushTable(0, DELETION), Tree(Three([DELETION], [VALUES], low), 5))
  {
    LowSorted(low);
    FlushTwo(Three([], [VALUES], low), DELETION, 0, Three([DELETION], [VALUES], low));
  }

  const MERGED := [TOMBSTONE, OLD, BESIDE]

  function FirstMerge(low: seq<File>): Compaction {
    Compaction(0, [DELETION], [VALUES], low)
  }

  lemma FirstInputs(low: seq<File>)
    ensures var v := Three([DELETION], [VALUES], low); GoodInputs(v, FirstMerge(low)) && MergedInput(FirstMerge(low), MERGED)
  {
    var c := FirstMerge(low);
    assert DELETION in c.in0 && InSpan(VALUES, c.in0);
    forall e ensures e in MERGED <==> exists f :: (f in c.in0 || f in c.in1) && e in f.entries {
      assert VALUES in c.in1;
      if e in MERGED { assert e in DELETION.entries || e in VALUES.entries; }
    }
  }

  /** The snapshot keeps the value under the tombstone. */
  lemma FirstSurvivors(v: Version)
    ensures Survivors(v, 0, MERGED, 5, 3) == MERGED
  {
    hide BaseLevel;
    assert !Dropped(v, 0, MERGED, 5, 0) && !Dropped(v, 0, MERGED, 5, 1) && !Dropped(v, 0, MERGED, 5, 2);
    assert Survivors(v, 0, MERGED, 5, 0) == [] && Survivors(v, 0, MERGED, 5, 1) == [TOMBSTONE];
    assert Survivors(v, 0, MERGED, 5, 2) == [TOMBSTONE, OLD];
  }

  lemma FirstEdit(low: seq<File>)
    requires IsLow(low)
    ensures Installs(Three([DELETION], [VALUES], low), CompactionEdit(FirstMerge(low), [F, G]), Three([], [F, G], low))
  {
    var e := CompactionEdit(FirstMerge(low), [F, G]);
    assert e.deletedFiles == [(0, 4), (1, 3)] && e.newFiles == [(1, F), (1, G)];
    LowSorted(low);
    Untouched(low, e, 2);
    assert DeletedAt(e, 0) == {4} && AddedAt(e, 0) == {};
    assert EditsLevel([DELETION], e, 0, []);
    assert (1, F) in e.newFiles && (1, G) in e.newFiles;
    assert DeletedAt(e, 1) == {3} && AddedAt(e, 1) == {F, G};
    assert BySmallestKey(F, G);
    assert EditsLevel([VALUES], e, 1, [F, G]);
    InstallsThree(Three([DELETION], [VALUES], low), e, Three([], [F, G], low));
  }

  /** ... and the output is cut right after the tombstone. */
  lemma MergeUnderSnapshot(low: seq<File>)
    requires IsLow(low)
    ensures TreeNext(Tree(Three([DELETION], [VALUES], low), 5),
                     CompactTables(FirstMerge(low), 5, MERGED, [[TOMBSTONE], [OLD, BESIDE]], [F, G]),
                     Tree(Three([], [F, G], low), 7))
  {
    hide Installs, GoodInputs, MergedInput, Survivors, CompactionEdit;
    var pieces := [[TOMBSTONE], [OLD, BESIDE]];
    FirstInputs(low);
    FirstSurvivors(Three([DELETION], [VALUES], low));
    FirstEdit(low);
    assert pieces[..1] == [[TOMBSTONE]] && pieces[..1][..0] == [];
    assert Concat(pieces[..1]) == [TOMBSTONE];
    assert Concat(pieces) == MERGED;
  }

  /** A search at 7 for the key, in the level that has both files and in the one that has the value only. */
  lemma LevelReads()
    ensures Read(LevelEntries([F, G]), 1.0, 7) == NotFound && Speaks(LevelEntries([F, G]), 1.0, 7)
    ensures Read(LevelEntries([G]), 1.0, 7) == Found("old") && Speaks(LevelEntries([G]), 1.0, 7)
  {
    hide Read;
    var both, one := {TOMBSTONE, OLD, BESIDE}, {OLD, BESIDE};
    assert LevelEntries([F, G]) == both by {
      assert forall f :: f in [F, G] <==> f == F || f == G;
      assert TOMBSTONE in F.entries && OLD in G.entries && BESIDE in G.entries;
    }
    assert LevelEntries([G]) == one by {
      assert G in [G] && OLD in G.entries && BESIDE in G.entries;
    }
    assert Visible(TOMBSTONE, 1.0, 7) && Visible(OLD, 1.0, 7) && !Visible(BESIDE, 1.0, 7);
    assert Newest(both, 1.0, 7, TOMBSTONE) && Newest(one, 1.0, 7, OLD);
    ReadIsNewest(both, 1.0, 7, TOMBSTONE);
    ReadIsNewest(one, 1.0, 7, OLD);
  }

  /** The deleted value is hidden before the last step and read after it. */
  lemma ReadAgain(low: seq<File>, low': seq<File>)
    ensures ReadFrom(Three([], [F, G], low), 0, 1.0, 7) == NotFound
    ensures ReadFrom(Three([], [G], low'), 0, 1.0, 7) == Found("old")
  {
    hide Read;
    LevelReads();
    assert LevelEntries([]) == {};
    forall v: Version | v[0] == [] && Speaks(LevelEntries(v[1]), 1.0, 7)
      ensures ReadFrom(v, 0, 1.0, 7) == Read(LevelEntries(v[1]), 1.0, 7)
    {
      assert ReadFrom(v, 0, 1.0, 7) == ReadFrom(v, 1, 1.0, 7);
    }
  }

  // ----- The tombstone is merged away -----

  const LAST_MERGE := Compaction(1, [F], [H1], [])

  lemma LastInputs()
    ensures var v := Three([], [F, G], [H1, H2]); GoodInputs(v, LAST_MERGE) && MergedInput(LAST_MERGE, [TOMBSTONE, OLDEST])
  {
    var c := LAST_MERGE;
    assert F in c.in0 && H1 in c.in1 && InSpan(H1, c.in0) && !InSpan(H2, c.in0);
    assert forall f :: f in [H1, H2] <==> f == H1 || f == H2;
    forall e ensures e in [TOMBSTONE, OLDEST] <==> exists f :: (f in c.in0 || f in c.in1) && e in f.entries {
      if e in [TOMBSTONE, OLDEST] { assert e in F.entries || e in H1.entries; }
    }
  }

  lemma LastSurvivors()
    ensures Survivors(Three([], [F, G], [H1, H2]), 1, [TOMBSTONE, OLDEST], 7, 2) == []
  {
    var v, input := Three([], [F, G], [H1, H2]), [TOMBSTONE, OLDEST];
    assert BaseLevel(v, 1, 1.0);
    assert input[0].ik.ukey == input[1].ik.ukey && input[0].ik.seqno <= 7;
    assert Dropped(v, 1, input, 7, 0) && Dropped(v, 1, input, 7, 1);
    assert Survivors(v, 1, input, 7, 0) == [] && Survivors(v, 1, input, 7, 1) == [];
  }

  lemma LastEdit()
    ensures Installs(Three([], [F, G], [H1, H2]), CompactionEdit(LAST_MERGE, []), Three([], [G], [H2]))
  {
    var e := CompactionEdit(LAST_MERGE, []);
    assert e.deletedFiles == [(1, 5), (2, 1)] && e.newFiles == [];
    assert DeletedAt(e, 0) == {} && AddedAt(e, 0) == {} && AddedAt(e, 1) == {} && AddedAt(e, 2) == {};
    assert (1, 5) in e.deletedFiles && (2, 1) in e.deletedFiles;
    assert DeletedAt(e, 1) == {5} && DeletedAt(e, 2) == {1};
    assert EditsLevel([], e, 0, []) && EditsLevel([F, G], e, 1, [G]) && EditsLevel([H1, H2], e, 2, [H2]);
    InstallsThree(Three([], [F, G], [H1, H2]), e, Three([], [G], [H2]));
  }

  /** A run in which a merge brings a deleted value back. The merge is no trivial move, and its upper
      inputs do not grow by the file with the value, because that would take in another file below. */
  lemma MergeResurrects() returns (ts: seq<Tree>, steps: seq<TreeStep>)
    ensures TreeRun(ts, steps) && |steps| == 6 && ts[5].version == Three([], [F, G], [H1, H2])
    ensures steps[5] == CompactTables(LAST_MERGE, 7, [TOMBSTONE, OLDEST], [], [])
    ensures !IsTrivialMove(LAST_MERGE) && InSpan(H2, [F, G]) && !InSpan(H2, LAST_MERGE.in0)
    ensures ReadFrom(ts[5].version, 0, 1.0, 7) == NotFound
    ensures ReadFrom(ts[6].version, 0, 1.0, 7) == Found("old")
  {
    hide TreeNext, ReadFrom;
    var low := [H1, H2];
    ts := [Tree(Three([], [], []), 1), Tree(Three([], [], [H1]), 2), Tree(Three([], [], low), 3),
           Tree(Three([], [VALUES], low), 4), Tree(Three([DELETION], [VALUES], low), 5), Tree(Three([], [F, G], low), 7),
           Tree(Three([], [G], [H2]), 7)];
    steps := [FlushTable(2, H1), FlushTable(2, H2), FlushTable(1, VALUES), FlushTable(0, DELETION),
              CompactTables(FirstMerge(low), 5, MERGED, [[TOMBSTONE], [OLD, BESIDE]], [F, G]),
              CompactTables(LAST_MERGE, 7, [TOMBSTONE, OLDEST], [], [])];
    FlushLow();
    FlushValues(low);
    FlushDeletion(low);
    MergeUnderSnapshot(low);
    LastMerge();
    ReadAgain(low, [H2]);
    assert F in [F, G] && G in [F, G] && InSpan(H2, [F, G]);
    assert !InSpan(H2, [F]);
    assert ts[0].version == EMPTY_VERSION;
  }

  lemma FlushLow()
    ensures TreeNext(Tree(Three([], [], []), 1), FlushTable(2, H1), Tree(Three([], [], [H1]), 2))
    ensures TreeNext(Tree(Three([], [], [H1]), 2), FlushTable(2, H2), Tree(Three([], [], [H1, H2]), 3))
    ensures TreeNext(Tree(Three([], [], []), 2), FlushTable(2, H2), Tree(Three([], [], [H2]), 3))
  {
    hide TreeNext;
    LowSorted([H1, H2]);
    assert forall g :: g in [H1, H2] <==> g == H2 || g in [H1];
    FlushBelow([], H1, [H1]);
    FlushBelow([H1], H2, [H1, H2]);
    FlushBelow([], H2, [H2]);
  }

  lemma FlushBelow(low: seq<File>, f: File, low': seq<File>)
    requires SortedFiles(low) && SortedFiles(low') && Clear(low, f.Smallest().ukey, f.Largest().ukey)
    requires forall g :: g in low' <==> g == f || g in low
    ensures TreeNext(Tree(Three([], [], low), f.number), FlushTable(2, f), Tree(Three([], [], low'), f.number + 1))
  {
    hide Installs, SortedFiles;
    FlushTwo(Three([], [], low), f, 2, Three([], [], low'));
  }

  lemma LastMerge()
    ensures TreeNext(Tree(Three([], [F, G], [H1, H2]), 7), CompactTables(LAST_MERGE, 7, [TOMBSTONE, OLDEST], [], []),
                     Tree(Three([], [G], [H2]), 7))
  {
    hide Installs, GoodInputs, MergedInput, Survivors, CompactionEdit;
    LastInputs();
    LastSurvivors();
    LastEdit();
  }

  // ----- The tombstone is moved under the value -----

  const LAST_MOVE := Compaction(1, [F], [], [])

  lemma LastMove()
    ensures TreeNext(Tree(Three([], [F, G], [H2]), 7), MoveTable(LAST_MOVE), Tree(Three([], [G], [F, H2]), 7))
  {
    var v, v', e := Three([], [F, G], [H2]), Three([], [G], [F, H2]), MoveEdit(1, F);
    assert F in LAST_MOVE.in0 && !InSpan(H2, LAST_MOVE.in0);
    assert GoodInputs(v, LAST_MOVE);
    assert TotalFileSize([]) == 0 && IsTrivialMove(LAST_MOVE);
    assert e.deletedFiles == [(1, 5)] && e.newFiles == [(2, F)];
    assert (1, 5) in e.deletedFiles && (2, F) in e.newFiles;
    assert DeletedAt(e, 1) == {5} && DeletedAt(e, 2) == {} && AddedAt(e, 1) == {} && AddedAt(e, 2) == {F};
    assert BySmallestKey(F, H2);
    Untouched([], e, 0);
    assert EditsLevel([F, G], e, 1, [G]) && EditsLevel([H2], e, 2, [F, H2]);
    InstallsThree(v, e, v');
  }

  /** A run in which a trivial move does the same: all entries are still there, but a search meets the
      value before the tombstone. */
  lemma MoveResurrects() returns (ts: seq<Tree>, steps: seq<TreeStep>)
    ensures TreeRun(ts, steps) && |steps| == 5 && steps[4] == MoveTable(LAST_MOVE)
    ensures ReadFrom(ts[4].version, 0, 1.0, 7) == NotFound
    ensures ReadFrom(ts[5].version, 0, 1.0, 7) == Found("old")
  {
    hide TreeNext, ReadFrom;
    var low := [H2];
    ts := [Tree(Three([], [], []), 2), Tree(Three([], [], low), 3), Tree(Three([], [VALUES], low), 4),
           Tree(Three([DELETION], [VALUES], low), 5), Tree(Three([], [F, G], low), 7), Tree(Three([], [G], [F, H2]), 7)];
    steps := [FlushTable(2, H2), FlushTable(1, VALUES), FlushTable(0, DELETION),
              CompactTables(FirstMerge(low), 5, MERGED, [[TOMBSTONE], [OLD, BESIDE]], [F, G]), MoveTable(LAST_MOVE)];
    FlushLow();
    FlushValues(low);
    FlushDeletion(low);
    MergeUnderSnapshot(low);
    LastMove();
    ReadAgain(low, [F, H2]);
    assert ts[0].version == EMPTY_VERSION;
  }
}
