/** Version edits and the builder that applies a run of them at once. */
module VersionEdits {
  import opened Versions
  import opened Inputs

  /** The file part of a manifest record: (level, number) pairs and (level, file) pairs. */
  datatype VersionEdit = VersionEdit(deletedFiles: seq<(nat, nat)>, newFiles: seq<(nat, File)>)

  ghost function DeletedIn(dels: seq<(nat, nat)>, l: nat): set<nat> {
    set p | p in dels && p.0 == l :: p.1
  }

  ghost function AddedIn(adds: seq<(nat, File)>, l: nat): set<File> {
    set p | p in adds && p.0 == l :: p.1
  }

  ghost function DeletedAt(e: VersionEdit, l: nat): set<nat> {
    DeletedIn(e.deletedFiles, l)
  }

  ghost function AddedAt(e: VersionEdit, l: nat): set<File> {
    AddedIn(e.newFiles, l)
  }

  ghost function Numbers(fs: set<File>): set<nat> {
    set f | f in fs :: f.number
  }

  /** One edit on the files of one level. A file added by the edit is not deleted by it. */
  ghost function EditedFiles(fs: set<File>, e: VersionEdit, l: nat): set<File> {
    set f | f in fs + AddedAt(e, l) && f.number !in DeletedAt(e, l) - Numbers(AddedAt(e, l))
  }

  /** v' is the version that LogAndApply installs for one edit over v. */
  ghost predicate Installs(v: Version, e: VersionEdit, v': Version) {
    forall l :: 0 <= l < NUM_LEVELS ==>
      SortedFiles(v'[l]) && FileSet(v'[l]) == EditedFiles(FileSet(v[l]), e, l)
  }

  /** A chain of versions, each installed over its predecessor. */
  ghost predicate InstallsAll(es: seq<VersionEdit>, vs: seq<Version>) {
    && |vs| == |es| + 1
    && forall i :: 0 <= i < |es| ==> Installs(vs[i], es[i], vs[i + 1])
  }

  /** Everything any of the first n edits adds at level l. */
  ghost function AllAdded(es: seq<VersionEdit>, n: nat, l: nat): set<File>
    requires n <= |es|
  {
    if n == 0 then {} else AllAdded(es, n - 1, l) + AddedAt(es[n - 1], l)
  }

  /** No edit adds a number to a level that the level has seen before, nor twice. */
  ghost predicate NeverReAdds(v: Version, es: seq<VersionEdit>) {
    forall i, l, f, g ::
      && 0 <= i < |es| && 0 <= l < NUM_LEVELS && f in AddedAt(es[i], l)
      && (g in v[l] || g in AllAdded(es, i, l) || (g in AddedAt(es[i], l) && g != f))
      ==> f.number != g.number
  }

  lemma StrictOrder(f: File, g: File)
    requires BySmallestKey(f, g)
    ensures !BySmallestKey(g, f) && f != g
  {
  }

  lemma TailSet(fs: seq<File>)
    requires SortedFiles(fs) && fs != []
    ensures FileSet(fs[1..]) == FileSet(fs) - {fs[0]}
  {
    forall i | 1 <= i < |fs| ensures fs[i] != fs[0] { StrictOrder(fs[0], fs[i]); }
  }

  lemma SameHead(fs: seq<File>, gs: seq<File>)
    requires SortedFiles(fs) && SortedFiles(gs) && FileSet(fs) == FileSet(gs)
    requires fs != [] && gs != []
    ensures fs[0] == gs[0]
  {
    assert fs[0] in FileSet(gs) && gs[0] in FileSet(fs);
    var i :| 0 <= i < |fs| && fs[i] == gs[0];
    var j :| 0 <= j < |gs| && gs[j] == fs[0];
    if i > 0 { StrictOrder(fs[0], fs[i]); }
  }

  /** A sorted file list is determined by its set of files. */
  lemma {:induction false} SortedUnique(fs: seq<File>, gs: seq<File>)
    requires SortedFiles(fs) && SortedFiles(gs) && FileSet(fs) == FileSet(gs)
    ensures fs == gs
  {
    EmptySet(fs);
    EmptySet(gs);
    if fs != [] {
      SameHead(fs, gs);
      TailSet(fs);
      TailSet(gs);
      SortedUnique(fs[1..], gs[1..]);
      assert fs == [fs[0]] + fs[1..] && gs == [gs[0]] + gs[1..];
    }
  }

  lemma EmptySet(fs: seq<File>)
    ensures fs == [] <==> FileSet(fs) == {}
  {
    if fs != [] { assert fs[0] in FileSet(fs); }
  }

  /** std::set::insert under BySmallestKey. */
  function InsertFile(fs: seq<File>, f: File): (r: seq<File>)
    requires SortedFiles(fs)
    ensures SortedFiles(r)
    ensures forall g :: g in r ==> g == f || g in fs
    ensures (forall g :: g in fs ==> g.number != f.number) ==> forall g :: g in r <==> g == f || g in fs
  {
    if fs == [] then [f]
    else if BySmallestKey(f, fs[0]) then [f] + fs
    else if !BySmallestKey(fs[0], f) then fs
    else
      var rest := InsertFile(fs[1..], f);
      assert forall g :: g in fs <==> g == fs[0] || g in fs[1..];
      assert forall g :: g in fs[1..] ==> BySmallestKey(fs[0], g);
      assert forall i :: 0 <= i < |rest| ==> rest[i] in rest && BySmallestKey(fs[0], rest[i]);
      [fs[0]] + rest
  }

  /** A level's files after SaveTo. */
  ghost function Kept(base: set<File>, added: set<File>, deleted: set<nat>): set<File> {
    set f | f in base + added && f.number !in deleted
  }

  /** Merging in one more file of either list at the end. */
  ghost predicate MergedSoFar(base: seq<File>, added: seq<File>, deleted: set<nat>, b: nat, a: nat, out: seq<File>)
    requires b <= |base| && a <= |added|
  {
    && SortedFiles(out)
    && (forall f :: f in out <==> (f in base[..b] || f in added[..a]) && f.number !in deleted)
    && (forall f, i :: f in out && b <= i < |base| ==> BySmallestKey(f, base[i]))
    && (forall f, i :: f in out && a <= i < |added| ==> BySmallestKey(f, added[i]))
  }

  /** LevelState: numbers to drop and files to add. */
  datatype LevelState = LevelState(deleted: set<nat>, added: seq<File>)

  type LevelStates = ls: seq<LevelState> | |ls| == NUM_LEVELS && forall l :: 0 <= l < NUM_LEVELS ==> SortedFiles(ls[l].added)
    ghost witness seq(NUM_LEVELS, _ => LevelState({}, []))

  function Delete(ls: LevelStates, level: nat, number: nat): LevelStates
    requires level < NUM_LEVELS
  {
    ls[level := ls[level].(deleted := ls[level].deleted + {number})]
  }

  function Add(ls: LevelStates, level: nat, f: File): LevelStates
    requires level < NUM_LEVELS
  {
    ls[level := LevelState(ls[level].deleted - {f.number}, InsertFile(ls[level].added, f))]
  }

  ghost function DeleteAll(ls: LevelStates, dels: seq<(nat, nat)>): LevelStates
    requires forall p :: p in dels ==> p.0 < NUM_LEVELS
  {
    if dels == [] then ls
    else var n := |dels| - 1; Delete(DeleteAll(ls, dels[..n]), dels[n].0, dels[n].1)
  }

  ghost function AddAll(ls: LevelStates, adds: seq<(nat, File)>): LevelStates
    requires forall p :: p in adds ==> p.0 < NUM_LEVELS
  {
    if adds == [] then ls
    else var n := |adds| - 1; Add(AddAll(ls, adds[..n]), adds[n].0, adds[n].1)
  }

  lemma {:induction false} DeleteAllIs(ls: LevelStates, dels: seq<(nat, nat)>, l: nat)
    requires l < NUM_LEVELS && forall p :: p in dels ==> p.0 < NUM_LEVELS
    ensures DeleteAll(ls, dels)[l].added == ls[l].added
    ensures DeleteAll(ls, dels)[l].deleted == ls[l].deleted + DeletedIn(dels, l)
  {
    if dels != [] {
      var n := |dels| - 1;
      DeleteAllIs(ls, dels[..n], l);
      assert dels == dels[..n] + [dels[n]];
      assert DeletedIn(dels, l) == DeletedIn(dels[..n], l) + if dels[n].0 == l then {dels[n].1} else {};
    }
  }

  /** The numbers a list of additions brings to level l are new there and pairwise different. */
  ghost predicate FreshAt(have: set<File>, adds: set<File>) {
    forall f, g :: f in adds && (g in have || (g in adds && g != f)) ==> f.number != g.number
  }

  ghost predicate Distinct(adds: seq<(nat, File)>) {
    forall i, j :: 0 <= i < j < |adds| ==> adds[i] != adds[j]
  }

  lemma AddIs(ls: LevelStates, f: File, l: nat)
    requires l < NUM_LEVELS && forall g :: g in FileSet(ls[l].added) ==> g.number != f.number
    ensures FileSet(Add(ls, l, f)[l].added) == FileSet(ls[l].added) + {f}
  {
    forall g | g in ls[l].added ensures g.number != f.number {
      assert g in FileSet(ls[l].added);
    }
  }

  lemma AddedInLast(adds: seq<(nat, File)>, l: nat)
    requires adds != []
    ensures var n := |adds| - 1;
            AddedIn(adds, l) == AddedIn(adds[..n], l) + if adds[n].0 == l then {adds[n].1} else {}
    ensures var n := |adds| - 1; Distinct(adds) ==> Distinct(adds[..n]) && adds[n] !in adds[..n]
  {
    var n := |adds| - 1;
    assert adds == adds[..n] + [adds[n]];
  }

  lemma AddLast(before: LevelStates, added: set<File>, f: File, l: nat)
    requires l < NUM_LEVELS && FileSet(before[l].added) == added && forall g :: g in added ==> g.number != f.number
    ensures FileSet(Add(before, l, f)[l].added) == added + {f}
    ensures Add(before, l, f)[l].deleted == before[l].deleted - {f.number}
  {
    AddIs(before, f, l);
  }

  lemma {:induction false} AddAllIs(ls: LevelStates, adds: seq<(nat, File)>, l: nat)
    requires l < NUM_LEVELS && (forall p :: p in adds ==> p.0 < NUM_LEVELS) && Distinct(adds)
    requires FreshAt(FileSet(ls[l].added), AddedIn(adds, l))
    ensures AddAll(ls, adds)[l].deleted == ls[l].deleted - Numbers(AddedIn(adds, l))
    ensures FileSet(AddAll(ls, adds)[l].added) == FileSet(ls[l].added) + AddedIn(adds, l)
  {
    hide FileSet, Distinct;
    if adds != [] {
      var n := |adds| - 1;
      AddedInLast(adds, l);
      AddAllIs(ls, adds[..n], l);
      if adds[n].0 == l {
        AddLast(AddAll(ls, adds[..n]), FileSet(ls[l].added) + AddedIn(adds[..n], l), adds[n].1, l);
      }
    }
  }

  /** VersionSet::Builder: the accumulated effect of any number of edits. */
  class Builder {
    const base: Version
    var levels: LevelStates

    constructor (base: Version)
      ensures this.base == base
      ensures forall l :: 0 <= l < NUM_LEVELS ==> levels[l] == LevelState({}, [])
    {
      this.base := base;
      var empty: LevelStates := seq(NUM_LEVELS, _ => LevelState({}, []));
      levels := empty;
    }

    /** Builder::Apply: all deletions of the edit first, then its additions. */
    method Apply(edit: VersionEdit)
      requires forall p :: p in edit.deletedFiles ==> p.0 < NUM_LEVELS
      requires forall p :: p in edit.newFiles ==> p.0 < NUM_LEVELS
      modifies this
      ensures levels == AddAll(DeleteAll(old(levels), edit.deletedFiles), edit.newFiles)
    {
      var i := 0;
      while i < |edit.deletedFiles|
        invariant 0 <= i <= |edit.deletedFiles|
        invariant levels == DeleteAll(old(levels), edit.deletedFiles[..i])
      {
        assert edit.deletedFiles[..i + 1][..i] == edit.deletedFiles[..i];
        levels := Delete(levels, edit.deletedFiles[i].0, edit.deletedFiles[i].1);
        i := i + 1;
      }
      assert edit.deletedFiles[..i] == edit.deletedFiles;
      ghost var between := levels;
      i := 0;
      while i < |edit.newFiles|
        invariant 0 <= i <= |edit.newFiles|
        invariant levels == AddAll(between, edit.newFiles[..i])
      {
        assert edit.newFiles[..i + 1][..i] == edit.newFiles[..i];
        levels := Add(levels, edit.newFiles[i].0, edit.newFiles[i].1);
        i := i + 1;
      }
      assert edit.newFiles[..i] == edit.newFiles;
    }

    /** Builder::SaveTo: merge the sorted base list with the sorted additions, level by level. */
    method SaveTo() returns (v: Version)
      requires forall l :: 0 <= l < NUM_LEVELS ==> SortedFiles(base[l])
      requires forall l, f, g :: 0 <= l < NUM_LEVELS && f in base[l] && g in levels[l].added ==> f.number != g.number
      ensures forall l :: 0 <= l < NUM_LEVELS ==>
                && SortedFiles(v[l])
                && FileSet(v[l]) == Kept(FileSet(base[l]), FileSet(levels[l].added), levels[l].deleted)
    {
      var files: seq<seq<File>> := [];
      while |files| < NUM_LEVELS
        invariant |files| <= NUM_LEVELS
        invariant forall l :: 0 <= l < |files| ==>
                    && SortedFiles(files[l])
                    && FileSet(files[l]) == Kept(FileSet(base[l]), FileSet(levels[l].added), levels[l].deleted)
        decreases NUM_LEVELS - |files|
      {
        var l := |files|;
        var out := MergeLevel(base[l], levels[l].added, levels[l].deleted);
        files := files + [out];
      }
      v := files;
    }
  }

  /** MaybeAddFile. */
  function MaybeAddFile(out: seq<File>, deleted: set<nat>, f: File): seq<File> {
    if f.number in deleted then out else out + [f]
  }

  method MergeLevel(base: seq<File>, added: seq<File>, deleted: set<nat>) returns (out: seq<File>)
    requires SortedFiles(base) && SortedFiles(added)
    requires forall f, g :: f in base && g in added ==> f.number != g.number
    ensures SortedFiles(out) && FileSet(out) == Kept(FileSet(base), FileSet(added), deleted)
  {
    out := [];
    var b, a := 0, 0;
    while a < |added|
      invariant b <= |base| && a <= |added|
      invariant MergedSoFar(base, added, deleted, b, a, out)
    {
      while b < |base| && !BySmallestKey(added[a], base[b])
        invariant b <= |base|
        invariant MergedSoFar(base, added, deleted, b, a, out)
      {
        TakeBase(base, added, deleted, b, a, out);
        out := MaybeAddFile(out, deleted, base[b]);
        b := b + 1;
      }
      TakeAdded(base, added, deleted, b, a, out);
      out := MaybeAddFile(out, deleted, added[a]);
      a := a + 1;
    }
    while b < |base|
      invariant b <= |base| && a == |added|
      invariant MergedSoFar(base, added, deleted, b, a, out)
    {
      TakeBase(base, added, deleted, b, a, out);
      out := MaybeAddFile(out, deleted, base[b]);
      b := b + 1;
    }
    assert base[..b] == base && added[..a] == added;
  }

  lemma TakeBase(base: seq<File>, added: seq<File>, deleted: set<nat>, b: nat, a: nat, out: seq<File>)
    requires b < |base| && a <= |added|
    requires SortedFiles(base) && SortedFiles(added)
    requires forall f, g :: f in base && g in added ==> f.number != g.number
    requires MergedSoFar(base, added, deleted, b, a, out)
    requires a < |added| ==> !BySmallestKey(added[a], base[b])
    ensures MergedSoFar(base, added, deleted, b + 1, a, MaybeAddFile(out, deleted, base[b]))
  {
    assert base[..b + 1] == base[..b] + [base[b]];
    forall i | a <= i < |added| ensures BySmallestKey(base[b], added[i]) {
      assert base[b] in base && added[a] in added;
      if i > a { assert BySmallestKey(added[a], added[i]); }
    }
  }

  lemma TakeAdded(base: seq<File>, added: seq<File>, deleted: set<nat>, b: nat, a: nat, out: seq<File>)
    requires b <= |base| && a < |added|
    requires SortedFiles(base) && SortedFiles(added)
    requires MergedSoFar(base, added, deleted, b, a, out)
    requires b < |base| ==> BySmallestKey(added[a], base[b])
    ensures MergedSoFar(base, added, deleted, b, a + 1, MaybeAddFile(out, deleted, added[a]))
  {
    assert added[..a + 1] == added[..a] + [added[a]];
    forall i | b <= i < |base| ensures BySmallestKey(added[a], base[i]) {
      if i > b { assert BySmallestKey(base[b], base[i]); }
    }
  }

  // ----- One builder over all edits equals one builder per edit -----

  /** The level states of one builder after the first n edits. */
  ghost function Batched(es: seq<VersionEdit>, n: nat): LevelStates
    requires n <= |es| && WellLevelled(es)
  {
    if n == 0 then seq(NUM_LEVELS, _ => LevelState({}, []))
    else AddAll(DeleteAll(Batched(es, n - 1), es[n - 1].deletedFiles), es[n - 1].newFiles)
  }

  ghost predicate WellLevelled(es: seq<VersionEdit>) {
    forall i :: 0 <= i < |es| ==>
      && (forall p :: p in es[i].deletedFiles ==> p.0 < NUM_LEVELS)
      && (forall p :: p in es[i].newFiles ==> p.0 < NUM_LEVELS)
      && Distinct(es[i].newFiles)
  }

  lemma {:induction false} BatchedAdds(v: Version, es: seq<VersionEdit>, n: nat, l: nat)
    requires n <= |es| && WellLevelled(es) && NeverReAdds(v, es) && l < NUM_LEVELS
    ensures FileSet(Batched(es, n)[l].added) == AllAdded(es, n, l)
  {
    if n > 0 {
      BatchedAdds(v, es, n - 1, l);
      DeleteAllIs(Batched(es, n - 1), es[n - 1].deletedFiles, l);
      AddAllIs(DeleteAll(Batched(es, n - 1), es[n - 1].deletedFiles), es[n - 1].newFiles, l);
    } else {
      assert FileSet(Batched(es, 0)[l].added) == {};
    }
  }

  /** The files of level l after the first n edits, as one builder over v keeps them. */
  ghost function BatchedFiles(v: Version, es: seq<VersionEdit>, n: nat, l: nat): set<File>
    requires n <= |es| && WellLevelled(es) && l < NUM_LEVELS
  {
    Kept(FileSet(v[l]), AllAdded(es, n, l), Batched(es, n)[l].deleted)
  }

  /** Accumulating an edit into the deleted and added sets, or editing the kept files: the same. */
  lemma KeptStep(base: set<File>, added: set<File>, deleted: set<nat>, e: VersionEdit, l: nat)
    requires forall f, g :: f in base + added && g in AddedAt(e, l) ==> f.number != g.number
    ensures Kept(base, added + AddedAt(e, l), deleted + DeletedAt(e, l) - Numbers(AddedAt(e, l)))
         == EditedFiles(Kept(base, added, deleted), e, l)
  {
  }

  /** The numbers that level l drops after one more edit. */
  lemma BatchedDeletes(v: Version, es: seq<VersionEdit>, n: nat, l: nat)
    requires 0 < n <= |es| && WellLevelled(es) && NeverReAdds(v, es) && l < NUM_LEVELS
    ensures Batched(es, n)[l].deleted
         == Batched(es, n - 1)[l].deleted + DeletedAt(es[n - 1], l) - Numbers(AddedAt(es[n - 1], l))
  {
    hide DeleteAll, AddAll, FileSet, DeletedIn, AddedIn, Numbers;
    var e := es[n - 1];
    BatchedAdds(v, es, n - 1, l);
    DeleteAllIs(Batched(es, n - 1), e.deletedFiles, l);
    AddAllIs(DeleteAll(Batched(es, n - 1), e.deletedFiles), e.newFiles, l);
  }

  lemma BatchedStep(v: Version, es: seq<VersionEdit>, n: nat, l: nat)
    requires 0 < n <= |es| && WellLevelled(es) && NeverReAdds(v, es) && l < NUM_LEVELS
    ensures BatchedFiles(v, es, n, l) == EditedFiles(BatchedFiles(v, es, n - 1, l), es[n - 1], l)
  {
    hide Batched, DeletedAt, AddedAt, Numbers, EditedFiles, Kept, WellLevelled;
    BatchedDeletes(v, es, n, l);
    KeptStep(FileSet(v[l]), AllAdded(es, n - 1, l), Batched(es, n - 1)[l].deleted, es[n - 1], l);
  }

  /** Recover's single builder over all edits yields the version that LogAndApply
      reached by installing the edits one at a time. */
  lemma {:induction false} BatchedEqualsStepwise(es: seq<VersionEdit>, vs: seq<Version>, n: nat, l: nat)
    requires n <= |es| && InstallsAll(es, vs) && WellLevelled(es) && NeverReAdds(vs[0], es) && l < NUM_LEVELS
    ensures FileSet(vs[n][l]) == BatchedFiles(vs[0], es, n, l)
  {
    if n == 0 {
      assert Batched(es, 0)[l].deleted == {};
    } else {
      BatchedEqualsStepwise(es, vs, n - 1, l);
      BatchedStep(vs[0], es, n, l);
      assert Installs(vs[n - 1], es[n - 1], vs[n - 1 + 1]);
    }
  }

  lemma RecoveredVersionIsCurrent(es: seq<VersionEdit>, vs: seq<Version>, r: Version)
    requires InstallsAll(es, vs) && WellLevelled(es) && NeverReAdds(vs[0], es) && es != []
    requires forall l :: 0 <= l < NUM_LEVELS ==>
               SortedFiles(r[l]) && FileSet(r[l]) == BatchedFiles(vs[0], es, |es|, l)
    ensures r == vs[|es|]
  {
    var n := |es| - 1;
    assert Installs(vs[n], es[n], vs[n + 1]);
    forall l | 0 <= l < NUM_LEVELS ensures r[l] == vs[|es|][l] {
      BatchedEqualsStepwise(es, vs, |es|, l);
      SortedUnique(r[l], vs[|es|][l]);
    }
  }

  /** VersionSet::Recover: every edit of the manifest goes into one builder over `base`. */
  method Recover(base: Version, es: seq<VersionEdit>) returns (r: Version)
    requires WellLevelled(es) && NeverReAdds(base, es)
    requires forall l :: 0 <= l < NUM_LEVELS ==> SortedFiles(base[l])
    ensures forall l :: 0 <= l < NUM_LEVELS ==>
              SortedFiles(r[l]) && FileSet(r[l]) == BatchedFiles(base, es, |es|, l)
  {
    hide NeverReAdds, Kept, SortedFiles, FileSet, AddAll, DeleteAll;
    var builder := new Builder(base);
    var i := 0;
    assert builder.levels == Batched(es, 0);
    while i < |es|
      invariant 0 <= i <= |es|
      invariant builder.levels == Batched(es, i)
    {
      builder.Apply(es[i]);
      i := i + 1;
    }
    BatchedIsNew(base, es);
    r := builder.SaveTo();
  }

  /** What the builder has to add is what the edits add, and no number of it is in the base. */
  lemma BatchedIsNew(base: Version, es: seq<VersionEdit>)
    requires WellLevelled(es) && NeverReAdds(base, es)
    ensures forall l :: 0 <= l < NUM_LEVELS ==> FileSet(Batched(es, |es|)[l].added) == AllAdded(es, |es|, l)
    ensures forall l, f, g :: 0 <= l < NUM_LEVELS && f in base[l] && g in Batched(es, |es|)[l].added ==>
              f.number != g.number
  {
    hide Batched;
    forall l | 0 <= l < NUM_LEVELS
      ensures FileSet(Batched(es, |es|)[l].added) == AllAdded(es, |es|, l)
    {
      BatchedAdds(base, es, |es|, l);
    }
    forall l, f, g | 0 <= l < NUM_LEVELS && f in base[l] && g in Batched(es, |es|)[l].added
      ensures f.number != g.number
    {
      assert g in FileSet(Batched(es, |es|)[l].added);
      AddedIsNew(base, es, l, f, g);
    }
  }

  lemma {:induction false} AddedIsNew(base: Version, es: seq<VersionEdit>, l: nat, f: File, g: File)
    requires NeverReAdds(base, es) && l < NUM_LEVELS && f in base[l] && g in AllAdded(es, |es|, l)
    ensures f.number != g.number
  {
    var j := AddedBy(es, |es|, l, g);
  }

  lemma {:induction false} AddedBy(es: seq<VersionEdit>, n: nat, l: nat, f: File) returns (i: nat)
    requires n <= |es| && f in AllAdded(es, n, l)
    ensures i < n && f in AddedAt(es[i], l)
  {
    if f in AddedAt(es[n - 1], l) { i := n - 1; } else { i := AddedBy(es, n - 1, l, f); }
  }

  /** LogAndApply: a builder over the current version, for one edit. */
  method LogAndApply(current: Version, edit: VersionEdit) returns (v: Version)
    requires WellLevelled([edit]) && NeverReAdds(current, [edit])
    requires forall l :: 0 <= l < NUM_LEVELS ==> SortedFiles(current[l])
    ensures Installs(current, edit, v)
  {
    v := Recover(current, [edit]);
    forall l | 0 <= l < NUM_LEVELS ensures FileSet(v[l]) == EditedFiles(FileSet(current[l]), edit, l) {
      BatchedStep(current, [edit], 1, l);
      assert Batched([edit], 0)[l].deleted == {};
      assert BatchedFiles(current, [edit], 0, l) == FileSet(current[l]);
    }
  }
}
