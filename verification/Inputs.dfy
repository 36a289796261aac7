/** Choosing the files that a flush or a compaction works on, by user-key ranges. */
module Inputs {
  import opened Wrappers
  import opened DbFormat
  import opened Versions

  const EXPANDED_COMPACTION_BYTE_SIZE_LIMIT: nat := 25 * TARGET_FILE_SIZE

  /** [begin, end] as a range of user keys; a missing bound is unbounded. */
  predicate OverlapsRange(f: File, begin: Option<UserKey>, end: Option<UserKey>) {
    && !(begin.Some? && f.Largest().ukey < begin.value)
    && !(end.Some? && f.Smallest().ukey > end.value)
  }

  predicate RangesOverlap(f: File, g: File) {
    f.Smallest().ukey <= g.Largest().ukey && g.Smallest().ukey <= f.Largest().ukey
  }

  function TotalFileSize(fs: seq<File>): nat {
    if fs == [] then 0 else fs[0].size + TotalFileSize(fs[1..])
  }

  lemma KeyInFile(f: File, e: Entry)
    requires e in f.entries
    ensures f.Smallest().ukey <= e.ik.ukey <= f.Largest().ukey
  {
    FileOrder(f, e);
  }

  lemma FileRange(f: File)
    ensures f.Smallest().ukey <= f.Largest().ukey
  {
    KeyInFile(f, f.entries[0]);
  }

  /** SomeFileOverlapsRange, with the binary search for the disjoint levels. */
  method SomeFileOverlapsRange(disjoint: bool, fs: seq<File>, smallest: Option<UserKey>, largest: Option<UserKey>)
    returns (b: bool)
    requires disjoint ==> SortedFiles(fs) && DisjointFiles(fs)
    ensures b <==> exists f :: f in fs && OverlapsRange(f, smallest, largest)
  {
    if !disjoint {
      var i := 0;
      while i < |fs|
        invariant 0 <= i <= |fs|
        invariant forall j :: 0 <= j < i ==> !OverlapsRange(fs[j], smallest, largest)
      {
        if OverlapsRange(fs[i], smallest, largest) {
          return true;
        }
        i := i + 1;
      }
      return false;
    }
    var index := 0;
    if smallest.Some? {
      index := FindFile(fs, LookupKey(smallest.value, MAX_SEQUENCE_NUMBER));
    }
    if index >= |fs| {
      return false;
    }
    forall j | index < j < |fs| ensures fs[index].Smallest().ukey <= fs[j].Smallest().ukey {
      LevelOrder(fs, index, j);
      FileRange(fs[index]);
    }
    assert fs[index] in fs;
    b := !(largest.Some? && largest.value < fs[index].Smallest().ukey);
  }

  /** The files of `fs` meeting the range, in list order. */
  function Overlapping(fs: seq<File>, begin: Option<UserKey>, end: Option<UserKey>): seq<File> {
    if fs == [] then []
    else
      var n := |fs| - 1;
      Overlapping(fs[..n], begin, end) + if OverlapsRange(fs[n], begin, end) then [fs[n]] else []
  }

  lemma {:induction false} OverlappingMembers(fs: seq<File>, begin: Option<UserKey>, end: Option<UserKey>)
    ensures forall f :: f in Overlapping(fs, begin, end) <==> f in fs && OverlapsRange(f, begin, end)
  {
    if fs != [] {
      var n := |fs| - 1;
      assert fs == fs[..n] + [fs[n]];
      OverlappingMembers(fs[..n], begin, end);
    }
  }

  lemma {:induction false} OverlappingSorted(fs: seq<File>, begin: Option<UserKey>, end: Option<UserKey>)
    requires SortedFiles(fs)
    ensures SortedFiles(Overlapping(fs, begin, end))
  {
    if fs != [] {
      var n := |fs| - 1;
      var front := Overlapping(fs[..n], begin, end);
      OverlappingSorted(fs[..n], begin, end);
      OverlappingMembers(fs[..n], begin, end);
      forall i | 0 <= i < |front| ensures BySmallestKey(front[i], fs[n]) {
        assert front[i] in front;
        var k :| 0 <= k < n && fs[k] == front[i];
      }
    }
  }

  /** C contains every file that meets the range, and every file that meets a file of C. */
  ghost predicate OverlapClosed(fs: seq<File>, C: set<File>, begin: Option<UserKey>, end: Option<UserKey>) {
    && (forall f :: f in fs && OverlapsRange(f, begin, end) ==> f in C)
    && (forall f, g :: f in fs && g in C && RangesOverlap(f, g) ==> f in C)
  }

  ghost function FileSet(fs: seq<File>): set<File> {
    set f | f in fs
  }

  /** How many files reach below `b`: the measure that a restart decreases. */
  function StartsBelow(fs: seq<File>, b: Option<UserKey>): nat {
    if b.None? || fs == [] then 0
    else (if fs[0].Smallest().ukey < b.value then 1 else 0) + StartsBelow(fs[1..], b)
  }

  function EndsAbove(fs: seq<File>, e: Option<UserKey>): nat {
    if e.None? || fs == [] then 0
    else (if fs[0].Largest().ukey > e.value then 1 else 0) + EndsAbove(fs[1..], e)
  }

  lemma {:induction false} StartsBelowShrinks(fs: seq<File>, b: UserKey, b': UserKey)
    requires b' <= b
    ensures StartsBelow(fs, Some(b')) <= StartsBelow(fs, Some(b))
    ensures (exists f :: f in fs && b' <= f.Smallest().ukey < b) ==>
              StartsBelow(fs, Some(b')) < StartsBelow(fs, Some(b))
  {
    if fs != [] {
      StartsBelowShrinks(fs[1..], b, b');
      assert forall f :: f in fs <==> f == fs[0] || f in fs[1..];
    }
  }

  lemma {:induction false} EndsAboveShrinks(fs: seq<File>, e: UserKey, e': UserKey)
    requires e <= e'
    ensures EndsAbove(fs, Some(e')) <= EndsAbove(fs, Some(e))
    ensures (exists f :: f in fs && e < f.Largest().ukey <= e') ==>
              EndsAbove(fs, Some(e')) < EndsAbove(fs, Some(e))
  {
    if fs != [] {
      EndsAboveShrinks(fs[1..], e, e');
      assert forall f :: f in fs <==> f == fs[0] || f in fs[1..];
    }
  }

  /** Anything that has to be closed over the range has to contain what meets the widened range. */
  ghost predicate Forced(fs: seq<File>, begin: Option<UserKey>, end: Option<UserKey>,
                         b: Option<UserKey>, e: Option<UserKey>) {
    forall C :: OverlapClosed(fs, C, begin, end) ==> forall f :: f in fs && OverlapsRange(f, b, e) ==> f in C
  }

  lemma WidenForced(fs: seq<File>, begin: Option<UserKey>, end: Option<UserKey>,
                    b: Option<UserKey>, e: Option<UserKey>, b': Option<UserKey>, e': Option<UserKey>, f: File)
    requires Forced(fs, begin, end, b, e) && f in fs && OverlapsRange(f, b, e)
    requires (b'.Some? && b.Some? && b' == Some(f.Smallest().ukey) && e' == e && f.Smallest().ukey < b.value)
          || (e'.Some? && e.Some? && e' == Some(f.Largest().ukey) && b' == b && f.Largest().ukey > e.value)
    ensures Forced(fs, begin, end, b', e')
  {
    forall C | OverlapClosed(fs, C, begin, end)
      ensures forall g :: g in fs && OverlapsRange(g, b', e') ==> g in C
    {
      forall g | g in fs && OverlapsRange(g, b', e') ensures g in C {
        FileRange(g);
        FileRange(f);
        assert f in C;
        assert OverlapsRange(g, b, e) || RangesOverlap(g, f);
      }
    }
  }

  ghost predicate Contained(f: File, b: Option<UserKey>, e: Option<UserKey>) {
    (b.Some? ==> b.value <= f.Smallest().ukey) && (e.Some? ==> f.Largest().ukey <= e.value)
  }

  /** The scan has only widened the range, and by no more than closure demands. */
  ghost predicate Widened(fs: seq<File>, begin: Option<UserKey>, end: Option<UserKey>,
                          b: Option<UserKey>, e: Option<UserKey>) {
    && begin.Some? == b.Some? && end.Some? == e.Some?
    && (begin.Some? ==> b.value <= begin.value)
    && (end.Some? ==> e.value >= end.value)
    && Forced(fs, begin, end, b, e)
  }

  ghost predicate AllContained(fs: seq<File>, b: Option<UserKey>, e: Option<UserKey>) {
    forall f :: f in fs ==> Contained(f, b, e)
  }

  /** GetOverlappingInputs. At level 0 the scan restarts whenever a file widens the
      range; it ends with the least overlap-closed set of files. */
  method GetOverlappingInputs(fs: seq<File>, levelZero: bool, begin: Option<UserKey>, end: Option<UserKey>)
    returns (inputs: seq<File>)
    ensures !levelZero ==> inputs == Overlapping(fs, begin, end)
    ensures levelZero ==> OverlapClosed(fs, FileSet(inputs), begin, end)
    ensures levelZero ==> forall C :: OverlapClosed(fs, C, begin, end) ==> FileSet(inputs) <= C
    ensures forall f :: f in inputs ==> f in fs
    ensures SortedFiles(fs) ==> SortedFiles(inputs)
  {
    hide SortedFiles;
    inputs := [];
    var userBegin, userEnd := begin, end;
    var i := 0;
    while i < |fs|
      invariant 0 <= i <= |fs|
      invariant inputs == Overlapping(fs[..i], userBegin, userEnd)
      invariant if levelZero then Widened(fs, begin, end, userBegin, userEnd)
                             else userBegin == begin && userEnd == end
      invariant levelZero ==> AllContained(inputs, userBegin, userEnd)
      decreases StartsBelow(fs, userBegin) + EndsAbove(fs, userEnd), |fs| - i
    {
      var f := fs[i];
      assert fs[..i + 1] == fs[..i] + [f];
      i := i + 1;
      if OverlapsRange(f, userBegin, userEnd) {
        inputs := inputs + [f];
        if levelZero {
          if userBegin.Some? && f.Smallest().ukey < userBegin.value {
            WidenForced(fs, begin, end, userBegin, userEnd, Some(f.Smallest().ukey), userEnd, f);
            StartsBelowShrinks(fs, userBegin.value, f.Smallest().ukey);
            userBegin := Some(f.Smallest().ukey);
            inputs := [];
            i := 0;
          } else if userEnd.Some? && f.Largest().ukey > userEnd.value {
            WidenForced(fs, begin, end, userBegin, userEnd, userBegin, Some(f.Largest().ukey), f);
            EndsAboveShrinks(fs, userEnd.value, f.Largest().ukey);
            userEnd := Some(f.Largest().ukey);
            inputs := [];
            i := 0;
          }
        }
      }
    }
    assert fs[..|fs|] == fs;
    OverlappingMembers(fs, userBegin, userEnd);
    if SortedFiles(fs) { OverlappingSorted(fs, userBegin, userEnd); }
    if levelZero {
      Closed(fs, inputs, begin, end, userBegin, userEnd);
    }
  }

  lemma Closed(fs: seq<File>, inputs: seq<File>, begin: Option<UserKey>, end: Option<UserKey>,
               b: Option<UserKey>, e: Option<UserKey>)
    requires inputs == Overlapping(fs, b, e)
    requires Widened(fs, begin, end, b, e) && AllContained(inputs, b, e)
    ensures OverlapClosed(fs, FileSet(inputs), begin, end)
    ensures forall C :: OverlapClosed(fs, C, begin, end) ==> FileSet(inputs) <= C
  {
    OverlappingMembers(fs, b, e);
    forall f, g | f in fs && g in FileSet(inputs) && RangesOverlap(f, g) ensures f in FileSet(inputs) {
      assert Contained(g, b, e);
    }
  }

  /** GetRange: the least internal-key interval around all files. */
  method GetRange(fs: seq<File>) returns (smallest: InternalKey, largest: InternalKey)
    requires fs != []
    ensures exists f :: f in fs && f.Smallest() == smallest
    ensures exists f :: f in fs && f.Largest() == largest
    ensures forall f :: f in fs ==> !KeyLess(f.Smallest(), smallest) && !KeyLess(largest, f.Largest())
  {
    smallest, largest := fs[0].Smallest(), fs[0].Largest();
    assert fs[0] in fs;
    var i := 1;
    while i < |fs|
      invariant 1 <= i <= |fs|
      invariant exists f :: f in fs && f.Smallest() == smallest
      invariant exists f :: f in fs && f.Largest() == largest
      invariant forall j :: 0 <= j < i ==>
                  !KeyLess(fs[j].Smallest(), smallest) && !KeyLess(largest, fs[j].Largest())
    {
      assert fs[i] in fs;
      if KeyLess(fs[i].Smallest(), smallest) {
        smallest := fs[i].Smallest();
      }
      if KeyLess(largest, fs[i].Largest()) {
        largest := fs[i].Largest();
      }
      i := i + 1;
    }
  }

  /** The input files of one compaction from `level` into `level + 1`. */
  datatype Compaction = Compaction(level: nat, in0: seq<File>, in1: seq<File>, grandparents: seq<File>)

  /** f lies at least partly between the least and the greatest user key of fs. */
  ghost predicate InSpan(f: File, fs: seq<File>) {
    && (exists g :: g in fs && g.Smallest().ukey <= f.Largest().ukey)
    && (exists h :: h in fs && f.Smallest().ukey <= h.Largest().ukey)
  }

  /** At level 0 nothing that meets a chosen file is left behind. */
  ghost predicate ClosedAtLevelZero(v: Version, level: nat, in0: seq<File>) {
    level == 0 ==> forall f, g :: f in v[0] && g in in0 && RangesOverlap(f, g) ==> f in in0
  }

  ghost predicate GoodInputs(v: Version, c: Compaction) {
    && c.level + 1 < NUM_LEVELS
    && c.in0 != []
    && (forall f :: f in c.in0 ==> f in v[c.level])
    && ClosedAtLevelZero(v, c.level, c.in0)
    && (forall f :: f in c.in1 <==> f in v[c.level + 1] && InSpan(f, c.in0))
  }

  lemma SpanIsRange(fs: seq<File>, smallest: InternalKey, largest: InternalKey, f: File)
    requires exists g :: g in fs && g.Smallest() == smallest
    requires exists g :: g in fs && g.Largest() == largest
    requires forall g :: g in fs ==> !KeyLess(g.Smallest(), smallest) && !KeyLess(largest, g.Largest())
    ensures InSpan(f, fs) <==> OverlapsRange(f, Some(smallest.ukey), Some(largest.ukey))
  {
  }

  /** All files of the next level within the span of fs. */
  method InputsBelow(below: seq<File>, fs: seq<File>) returns (in1: seq<File>)
    requires fs != []
    ensures forall f :: f in in1 <==> f in below && InSpan(f, fs)
    ensures SortedFiles(below) ==> SortedFiles(in1)
  {
    var smallest, largest := GetRange(fs);
    in1 := GetOverlappingInputs(below, false, Some(smallest.ukey), Some(largest.ukey));
    OverlappingMembers(below, Some(smallest.ukey), Some(largest.ukey));
    forall f ensures InSpan(f, fs) <==> OverlapsRange(f, Some(smallest.ukey), Some(largest.ukey)) {
      SpanIsRange(fs, smallest, largest, f);
    }
  }

  /** The upper inputs that meet everything chosen so far. */
  method GrowInputs(v: Version, level: nat, in0: seq<File>, in1: seq<File>) returns (expanded0: seq<File>)
    requires level + 1 < NUM_LEVELS && in0 != []
    requires forall f :: f in in0 ==> f in v[level]
    ensures forall f :: f in in0 ==> f in expanded0
    ensures forall f :: f in expanded0 ==> f in v[level]
    ensures ClosedAtLevelZero(v, level, expanded0)
    ensures SortedFiles(v[level]) ==> SortedFiles(expanded0)
  {
    var allStart, allLimit := GetRange(in0 + in1);
    expanded0 := GetOverlappingInputs(v[level], level == 0, Some(allStart.ukey), Some(allLimit.ukey));
    OverlappingMembers(v[level], Some(allStart.ukey), Some(allLimit.ukey));
    assert forall g :: g in expanded0 <==> g in FileSet(expanded0);
    forall f | f in in0 ensures f in expanded0 {
      assert f in in0 + in1;
      FileRange(f);
      assert OverlapsRange(f, Some(allStart.ukey), Some(allLimit.ukey));
    }
  }

  /** SetupOtherInputs: pull in the level below, then grow the upper side when that is free. */
  method SetupOtherInputs(v: Version, level: nat, picked: seq<File>) returns (c: Compaction)
    requires level + 1 < NUM_LEVELS && picked != []
    requires forall f :: f in picked ==> f in v[level]
    requires ClosedAtLevelZero(v, level, picked)
    ensures GoodInputs(v, c) && c.level == level
    ensures forall f :: f in picked ==> f in c.in0
    ensures level + 2 < NUM_LEVELS ==>
              forall f :: f in c.grandparents <==> f in v[level + 2] && InSpan(f, c.in0 + c.in1)
    ensures SortedFiles(v[level]) && SortedFiles(v[level + 1]) && SortedFiles(picked) ==>
              SortedFiles(c.in0) && SortedFiles(c.in1)
  {
    var in0 := picked;
    var in1 := InputsBelow(v[level + 1], in0);
    if in1 != [] {
      var expanded0 := GrowInputs(v, level, in0, in1);
      if |expanded0| > |in0| &&
         TotalFileSize(in1) + TotalFileSize(expanded0) < EXPANDED_COMPACTION_BYTE_SIZE_LIMIT {
        var expanded1 := InputsBelow(v[level + 1], expanded0);
        if |expanded1| == |in1| {
          in0, in1 := expanded0, expanded1;
        }
      }
    }
    var grandparents := [];
    if level + 2 < NUM_LEVELS {
      grandparents := InputsBelow(v[level + 2], in0 + in1);
    }
    c := Compaction(level, in0, in1, grandparents);
  }

  /** PickCompaction; which level and which file of it starts the compaction is the caller's choice. */
  method PickCompaction(v: Version, level: nat, index: nat) returns (c: Compaction)
    requires level + 1 < NUM_LEVELS && index < |v[level]|
    ensures GoodInputs(v, c) && c.level == level && v[level][index] in c.in0
    ensures SortedFiles(v[level]) && SortedFiles(v[level + 1]) ==> SortedFiles(c.in0) && SortedFiles(c.in1)
  {
    var picked := [v[level][index]];
    if level == 0 {
      var smallest, largest := GetRange(picked);
      picked := GetOverlappingInputs(v[0], true, Some(smallest.ukey), Some(largest.ukey));
      FileRange(v[0][index]);
      assert OverlapsRange(v[0][index], Some(smallest.ukey), Some(largest.ukey));
      assert v[0][index] in FileSet(picked);
      assert forall g :: g in picked ==> g in FileSet(picked);
    }
    c := SetupOtherInputs(v, level, picked);
  }

  function IsTrivialMove(c: Compaction): bool {
    && |c.in0| == 1
    && |c.in1| == 0
    && TotalFileSize(c.grandparents) <= MAX_GRANDPARENT_OVERLAP_BYTES
  }

  /** No file of the level meets the user-key range. */
  ghost predicate Clear(fs: seq<File>, lo: UserKey, hi: UserKey) {
    forall f :: f in fs ==> !OverlapsRange(f, Some(lo), Some(hi))
  }

  /** PickLevelForMemTableOutput: a flushed table goes below level 0 only past levels it does not meet. */
  method PickLevelForMemTableOutput(v: Version, lo: UserKey, hi: UserKey) returns (level: nat)
    requires WellFormed(v)
    ensures level <= MAX_MEM_COMPACT_LEVEL
    ensures level > 0 ==> forall l :: 0 <= l <= level ==> Clear(v[l], lo, hi)
    ensures level < MAX_MEM_COMPACT_LEVEL ==>
              || (level == 0 && !Clear(v[0], lo, hi))
              || !Clear(v[level + 1], lo, hi)
              || TotalFileSize(Overlapping(v[level + 2], Some(lo), Some(hi))) > MAX_GRANDPARENT_OVERLAP_BYTES
  {
    level := 0;
    var overlap := SomeFileOverlapsRange(false, v[0], Some(lo), Some(hi));
    if !overlap {
      while level < MAX_MEM_COMPACT_LEVEL
        invariant level <= MAX_MEM_COMPACT_LEVEL
        invariant forall l :: 0 <= l <= level ==> Clear(v[l], lo, hi)
      {
        overlap := SomeFileOverlapsRange(true, v[level + 1], Some(lo), Some(hi));
        if overlap { break; }
        if level + 2 < NUM_LEVELS {
          var overlaps := GetOverlappingInputs(v[level + 2], false, Some(lo), Some(hi));
          if TotalFileSize(overlaps) > MAX_GRANDPARENT_OVERLAP_BYTES { break; }
        }
        level := level + 1;
      }
    }
  }
}
