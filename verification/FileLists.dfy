/** The file lists of every run, whatever keys straddle two files of a level. */
module FileLists {
  import opened DbFormat
  import opened Versions
  import opened Inputs
  import opened Compactions
  import opened VersionEdits
  import opened Database
  import opened DatabaseRuns

  // ----- Sorted, non-overlapping levels in every run -----

  datatype Tree = Tree(version: Version, nextFile: nat)

  datatype TreeStep =
    | FlushTable(level: nat, f: File)
    | MoveTable(c: Compaction)
    | CompactTables(c: Compaction, snap: nat, input: seq<Entry>, pieces: seq<seq<Entry>>, outs: seq<File>)

  /** The steps of the database on its files alone, with no condition on where user keys fall. */
  ghost predicate TreeNext(t: Tree, step: TreeStep, t': Tree) {
    match step
    case FlushTable(level, f) =>
      && f.number == t.nextFile && GoodLevel(t.version, level, f)
      && Installs(t.version, FlushEdit(f.entries, level, f), t'.version)
      && t'.nextFile == t.nextFile + 1
    case MoveTable(c) =>
      && GoodInputs(t.version, c) && IsTrivialMove(c)
      && Installs(t.version, MoveEdit(c.level, c.in0[0]), t'.version)
      && t'.nextFile == t.nextFile
    case CompactTables(c, snap, input, pieces, outs) =>
      && GoodInputs(t.version, c) && MergedInput(c, input)
      && Concat(pieces) == Survivors(t.version, c.level, input, snap, |input|)
      && OutputFiles(outs, pieces)
      && (forall i :: 0 <= i < |outs| ==> outs[i].number == t.nextFile + i)
      && Installs(t.version, CompactionEdit(c, outs), t'.version)
      && t'.nextFile == t.nextFile + |outs|
  }

  ghost predicate TreeRun(ts: seq<Tree>, steps: seq<TreeStep>) {
    && |ts| == |steps| + 1 && ts[0].version == EMPTY_VERSION
    && forall i :: 0 <= i < |steps| ==> TreeNext(ts[i], steps[i], ts[i + 1])
  }

  ghost predicate TreeInv(t: Tree) {
    && WellFormed(t.version) && GloballyUnique(t.version)
    && forall l, g :: 0 <= l < NUM_LEVELS && g in t.version[l] ==> g.number < t.nextFile
  }

  lemma FlushTableInv(t: Tree, level: nat, f: File, t': Tree)
    requires TreeInv(t) && TreeNext(t, FlushTable(level, f), t')
    ensures TreeInv(t')
  {
    FlushAddsFile(t.version, f.entries, level, f, t'.version);
    if level > 0 {
      forall g | g in t.version[level] ensures Disjoint(f, g) { PassedLevel(t.version[level], f, g); }
    }
    NewFileStructure(t.version, level, f, t'.version);
  }

  lemma MoveTableInv(t: Tree, c: Compaction, t': Tree)
    requires TreeInv(t) && TreeNext(t, MoveTable(c), t')
    ensures TreeInv(t')
  {
    hide Installs, WellFormed, GloballyUnique, Disjoint, LevelGains, LevelLoses, InSpan, MoveEdit;
    var v, v', f := t.version, t'.version, c.in0[0];
    assert c.in0 == [f] && c.in1 == [] && f in c.in0 && f in v[c.level];
    hide ClosedAtLevelZero;
    MoveEditMoves(v, c.level, f, v');
    forall g | g in v[c.level + 1] ensures Disjoint(f, g) { MoveIsClear(v, c, f, g); }
    hide GoodInputs, IsTrivialMove, SortedFiles;
    MoveStructure(v, c.level, f, v');
    forall l, g | 0 <= l < NUM_LEVELS && g in v'[l] ensures g.number < t'.nextFile {
      MovedFrom(v, c.level, f, v', l, g);
    }
  }

  lemma MovedFrom(v: Version, L: nat, f: File, v': Version, l: nat, g: File)
    requires MovesFile(v, L, f, v') && l < NUM_LEVELS && g in v'[l]
    ensures g in v[l] || g in v[L]
  {
  }

  lemma CompactTablesInv(t: Tree, c: Compaction, snap: nat, input: seq<Entry>, pieces: seq<seq<Entry>>,
                         outs: seq<File>, t': Tree)
    requires TreeInv(t) && TreeNext(t, CompactTables(c, snap, input, pieces, outs), t')
    ensures TreeInv(t')
  {
    hide WellFormed, GloballyUnique, Installs, Survivors, Concat, MergedInput, OutputFiles, CompactionEdit, GoodInputs;
    CompactionInstalled(t.version, c, snap, input, pieces, outs, t.nextFile, t'.version);
    CompactionKeepsStructure(t.version, c, snap, input, pieces, outs, t'.version);
    forall l, g | 0 <= l < NUM_LEVELS && g in t'.version[l] ensures g.number < t'.nextFile {
      if g in outs {
        var i :| 0 <= i < |outs| && outs[i] == g;
      } else {
        assert g in t.version[l];
      }
    }
  }

  lemma StepKeepsTree(t: Tree, step: TreeStep, t': Tree)
    requires TreeInv(t) && TreeNext(t, step, t')
    ensures TreeInv(t')
  {
    hide TreeInv, TreeNext;
    match step
    case FlushTable(level, f) => FlushTableInv(t, level, f, t');
    case MoveTable(c) => MoveTableInv(t, c, t');
    case CompactTables(c, snap, input, pieces, outs) => CompactTablesInv(t, c, snap, input, pieces, outs, t');
  }

  lemma EmptyTreeInv(t: Tree)
    requires t.version == EMPTY_VERSION
    ensures TreeInv(t)
  {
    EmptyTree();
  }

  lemma {:induction false} TreeRunInv(ts: seq<Tree>, steps: seq<TreeStep>, i: nat)
    requires TreeRun(ts, steps) && i < |ts|
    ensures TreeInv(ts[i])
  {
    hide TreeNext, TreeInv;
    if i == 0 {
      EmptyTreeInv(ts[0]);
    } else {
      TreeRunInv(ts, steps, i - 1);
      assert TreeNext(ts[i - 1], steps[i - 1], ts[i - 1 + 1]);
      StepKeepsTree(ts[i - 1], steps[i - 1], ts[i]);
    }
  }

  /** Every run keeps each file list in key order and, from level 1 on, every file ending
      before the next one starts, by internal key. */
  lemma RunKeepsLevelsSorted(ts: seq<Tree>, steps: seq<TreeStep>, i: nat, l: nat, a: nat, b: nat)
    requires TreeRun(ts, steps) && i < |ts| && l < NUM_LEVELS && a < b < |ts[i].version[l]|
    ensures BySmallestKey(ts[i].version[l][a], ts[i].version[l][b])
    ensures l >= 1 ==> KeyLess(ts[i].version[l][a].Largest(), ts[i].version[l][b].Smallest())
  {
    TreeRunInv(ts, steps, i);
    assert SortedFiles(ts[i].version[l]);
    if l >= 1 {
      assert DisjointFiles(ts[i].version[l]);
      LevelOrder(ts[i].version[l], a, b);
    }
  }
}
