/** One compaction: which entries survive the merge, and what the new version means. */
module Compactions {
  import opened DbFormat
  import opened Versions
  import opened Inputs

  /** No level below the output level has a file whose range covers k. */
  ghost predicate BaseLevel(v: Version, level: nat, k: UserKey) {
    forall l, f :: level + 2 <= l < NUM_LEVELS && f in v[l] ==> !(f.Smallest().ukey <= k <= f.Largest().ukey)
  }

  /** The per-level cursors that IsBaseLevelForKey only ever moves forward. */
  class BaseLevelCursor {
    const level: nat
    const version: Version
    const levelPtrs: array<nat>

    constructor (level: nat, version: Version)
      ensures this.level == level && this.version == version && fresh(levelPtrs)
      ensures levelPtrs.Length == NUM_LEVELS && forall k :: Passed(k)
    {
      this.level, this.version := level, version;
      levelPtrs := new nat[NUM_LEVELS](_ => 0);
    }

    /** Every file already skipped ends before k. */
    ghost predicate Passed(k: UserKey)
      reads levelPtrs
    {
      && levelPtrs.Length == NUM_LEVELS
      && forall l :: 0 <= l < NUM_LEVELS ==>
           levelPtrs[l] <= |version[l]| && forall i :: 0 <= i < levelPtrs[l] ==> version[l][i].Largest().ukey < k
    }

    method IsBaseLevelForKey(k: UserKey) returns (base: bool)
      requires Passed(k) && WellFormed(version)
      modifies levelPtrs
      ensures Passed(k)
      ensures base <==> BaseLevel(version, level, k)
    {
      var l := level + 2;
      while l < NUM_LEVELS
        invariant level + 2 <= l
        invariant Passed(k)
        invariant forall m, f :: level + 2 <= m < l && m < NUM_LEVELS && f in version[m] ==>
                    !(f.Smallest().ukey <= k <= f.Largest().ukey)
      {
        while levelPtrs[l] < |version[l]|
          invariant Passed(k)
          decreases |version[l]| - levelPtrs[l]
        {
          var f := version[l][levelPtrs[l]];
          if k <= f.Largest().ukey {
            if f.Smallest().ukey <= k {
              assert f in version[l];
              return false;
            }
            break;
          }
          levelPtrs[l] := levelPtrs[l] + 1;
        }
        CursorStops(version[l], levelPtrs[l], k);
        l := l + 1;
      }
      return true;
    }
  }

  lemma CursorStops(fs: seq<File>, p: nat, k: UserKey)
    requires SortedFiles(fs) && p <= |fs|
    requires forall i :: 0 <= i < p ==> fs[i].Largest().ukey < k
    requires p < |fs| ==> k < fs[p].Smallest().ukey
    ensures forall f :: f in fs ==> !(f.Smallest().ukey <= k <= f.Largest().ukey)
  {
    forall i | p < i < |fs| ensures k < fs[i].Smallest().ukey {
      assert BySmallestKey(fs[p], fs[i]);
    }
  }

  /** Rule (A): a newer entry of the same key is already old enough for every snapshot. */
  ghost predicate Hidden(input: seq<Entry>, snap: nat, i: nat)
    requires i < |input|
  {
    exists j :: 0 <= j < i && input[j].ik.ukey == input[i].ik.ukey && input[j].ik.seqno <= snap
  }

  ghost predicate Dropped(v: Version, level: nat, input: seq<Entry>, snap: nat, i: nat)
    requires i < |input|
  {
    || Hidden(input, snap, i)
    || (input[i].ik.kind.Deletion? && input[i].ik.seqno <= snap && BaseLevel(v, level, input[i].ik.ukey))
  }

  /** The entries among the first n that a compaction writes out, in order. */
  ghost function Survivors(v: Version, level: nat, input: seq<Entry>, snap: nat, n: nat): seq<Entry>
    requires n <= |input|
  {
    if n == 0 then []
    else Survivors(v, level, input, snap, n - 1) +
         if Dropped(v, level, input, snap, n - 1) then [] else [input[n - 1]]
  }

  function Concat(pieces: seq<seq<Entry>>): seq<Entry> {
    if pieces == [] then [] else Concat(pieces[..|pieces| - 1]) + pieces[|pieces| - 1]
  }

  /** Looking only at the previous entry is enough to decide rule (A). */
  lemma HiddenByPrevious(input: seq<Entry>, snap: nat, i: nat)
    requires Sorted(input) && 0 < i < |input|
    ensures Hidden(input, snap, i) <==>
              input[i - 1].ik.ukey == input[i].ik.ukey && input[i - 1].ik.seqno <= snap
  {
  }

  lemma ConcatAppend(pieces: seq<seq<Entry>>, p: seq<Entry>)
    ensures Concat(pieces + [p]) == Concat(pieces) + p
  {
    assert (pieces + [p])[..|pieces|] == pieces;
  }

  /** The drop decision for one key, given the sequence number seen last for its user key. */
  method ShouldDrop(cursor: BaseLevelCursor, key: InternalKey, snap: nat, lastSequenceForKey: nat)
    returns (drop: bool)
    requires WellFormed(cursor.version) && cursor.Passed(key.ukey)
    modifies cursor.levelPtrs
    ensures cursor.Passed(key.ukey)
    ensures drop <==>
              || lastSequenceForKey <= snap
              || (key.kind.Deletion? && key.seqno <= snap && BaseLevel(cursor.version, cursor.level, key.ukey))
  {
    drop := false;
    if lastSequenceForKey <= snap {
      drop := true;
    } else if key.kind.Deletion? && key.seqno <= snap {
      drop := cursor.IsBaseLevelForKey(key.ukey);
    }
  }

  lemma PassedOn(cursor: BaseLevelCursor, k: UserKey, next: UserKey)
    requires cursor.Passed(k) && k <= next
    ensures cursor.Passed(next)
  {
  }

  /** The merge loop of DoCompactionWork. Output files may be cut before or after any
      entry: the size tests that decide are the parameters stopBefore and full. */
  method DoCompactionWork(cursor: BaseLevelCursor, input: seq<Entry>, snap: nat,
                          stopBefore: seq<bool>, full: seq<bool>)
    returns (outputs: seq<seq<Entry>>)
    requires WellFormed(cursor.version) && forall k :: cursor.Passed(k)
    requires Sorted(input) && snap < MAX_SEQUENCE_NUMBER
    requires |stopBefore| == |input| == |full|
    modifies cursor.levelPtrs
    ensures Concat(outputs) == Survivors(cursor.version, cursor.level, input, snap, |input|)
    ensures forall o :: o in outputs ==> o != []
    ensures Sorted(Concat(outputs))
    ensures UniqueSeq(Elements(input)) ==> forall e :: e in Concat(outputs) <==> e in input && Needed(cursor.version, cursor.level, input, snap, e)
  {
    hide BaseLevel, BaseLevelCursor.Passed, WellFormed, Needed, UniqueSeq;
    outputs := [];
    var builder: seq<Entry> := [];
    var hasCurrentUserKey, currentUserKey, lastSequenceForKey := false, 0.0, MAX_SEQUENCE_NUMBER;
    var i := 0;
    while i < |input|
      invariant 0 <= i <= |input|
      invariant hasCurrentUserKey == (i > 0)
      invariant i > 0 ==> currentUserKey == input[i - 1].ik.ukey && lastSequenceForKey == input[i - 1].ik.seqno
      invariant i < |input| ==> cursor.Passed(input[i].ik.ukey)
      invariant Concat(outputs) + builder == Survivors(cursor.version, cursor.level, input, snap, i)
      invariant forall o :: o in outputs ==> o != []
    {
      var key := input[i].ik;
      if stopBefore[i] && builder != [] {
        ConcatAppend(outputs, builder);
        outputs, builder := outputs + [builder], [];
      }
      if i > 0 { HiddenByPrevious(input, snap, i); }
      if !hasCurrentUserKey || key.ukey != currentUserKey {
        hasCurrentUserKey, currentUserKey, lastSequenceForKey := true, key.ukey, MAX_SEQUENCE_NUMBER;
      }
      var drop := ShouldDrop(cursor, key, snap, lastSequenceForKey);
      assert drop <==> Dropped(cursor.version, cursor.level, input, snap, i);
      lastSequenceForKey := key.seqno;
      if !drop {
        builder := builder + [input[i]];
        if full[i] {
          ConcatAppend(outputs, builder);
          outputs, builder := outputs + [builder], [];
        }
      }
      if i + 1 < |input| {
        assert KeyLess(key, input[i + 1].ik);
        PassedOn(cursor, key.ukey, input[i + 1].ik.ukey);
      }
      i := i + 1;
    }
    if builder != [] {
      ConcatAppend(outputs, builder);
      outputs := outputs + [builder];
    }
    SurvivorsSorted(cursor.version, cursor.level, input, snap, |input|);
    if UniqueSeq(Elements(input)) { SurvivorsNeeded(cursor.version, cursor.level, input, snap); }
  }

  // ----- The version that a compaction installs -----

  /** The merged input stream: sorted, and exactly the entries of the input files. */
  ghost predicate MergedInput(c: Compaction, input: seq<Entry>) {
    && Sorted(input)
    && forall e :: e in input <==> exists f :: (f in c.in0 || f in c.in1) && e in f.entries
  }

  /** Every output file holds one piece of the surviving entries, in order. */
  ghost predicate OutputFiles(outs: seq<File>, pieces: seq<seq<Entry>>) {
    && |outs| == |pieces|
    && forall i :: 0 <= i < |outs| ==> outs[i].entries == pieces[i]
  }

  /** One atomic compaction of v into v' with nothing below `snap` still readable. */
  ghost predicate Compacted(v: Version, c: Compaction, snap: nat, input: seq<Entry>,
                            pieces: seq<seq<Entry>>, outs: seq<File>, v': Version) {
    && GoodInputs(v, c)
    && MergedInput(c, input)
    && Concat(pieces) == Survivors(v, c.level, input, snap, |input|)
    && OutputFiles(outs, pieces)
    && (forall l :: 0 <= l < NUM_LEVELS && l != c.level && l != c.level + 1 ==> v'[l] == v[l])
    && (forall f :: f in v'[c.level] <==> f in v[c.level] && f !in c.in0)
    && (forall f :: f in v'[c.level + 1] <==> (f in v[c.level + 1] && f !in c.in1) || f in outs)
    && (forall l :: 0 <= l < NUM_LEVELS ==> SortedFiles(v'[l]) && UniqueNumbers(v'[l]))
  }

  /** No file left behind at the right of a chosen file continues that file's last user key. */
  ghost predicate CleanCut(fs: seq<File>, chosen: seq<File>) {
    forall f, g :: f in chosen && g in fs && g !in chosen && KeyLess(f.Largest(), g.Smallest()) ==>
      f.Largest().ukey < g.Smallest().ukey
  }

  lemma {:induction false} SurvivorsAre(v: Version, level: nat, input: seq<Entry>, snap: nat, n: nat)
    requires n <= |input|
    ensures forall e :: e in Survivors(v, level, input, snap, n) <==>
              exists i :: 0 <= i < n && input[i] == e && !Dropped(v, level, input, snap, i)
  {
    if n > 0 { SurvivorsAre(v, level, input, snap, n - 1); }
  }

  lemma {:induction false} SurvivorsSorted(v: Version, level: nat, input: seq<Entry>, snap: nat, n: nat)
    requires n <= |input| && Sorted(input)
    ensures Sorted(Survivors(v, level, input, snap, n))
  {
    if n > 0 {
      SurvivorsSorted(v, level, input, snap, n - 1);
      SurvivorsAre(v, level, input, snap, n - 1);
      var kept := Survivors(v, level, input, snap, n - 1);
      forall i | 0 <= i < |kept| ensures KeyLess(kept[i].ik, input[n - 1].ik) {
        assert kept[i] in kept;
      }
    }
  }

  /** What must be written out: some reader from the smallest snapshot on answers with e, and e is not
      an old tombstone of a key that no file below the output level covers. */
  ghost predicate Needed(v: Version, level: nat, input: seq<Entry>, snap: nat, e: Entry) {
    && (exists s :: s >= snap && Newest(Elements(input), e.ik.ukey, s, e))
    && !(&& e.ik.kind.Deletion? && e.ik.seqno <= snap
         && forall l, f :: level + 2 <= l < NUM_LEVELS && f in v[l] ==>
              e.ik.ukey < f.Smallest().ukey || f.Largest().ukey < e.ik.ukey)
  }

  /** An entry that no older-or-equal snapshot hides is the newest for some reader, and conversely. */
  lemma ReadableIff(input: seq<Entry>, snap: nat, i: nat)
    requires Sorted(input) && UniqueSeq(Elements(input)) && i < |input|
    ensures Hidden(input, snap, i) <==> !exists s :: s >= snap && Newest(Elements(input), input[i].ik.ukey, s, input[i])
  {
    var e := input[i];
    if Hidden(input, snap, i) {
      var j :| 0 <= j < i && input[j].ik.ukey == e.ik.ukey && input[j].ik.seqno <= snap;
      assert KeyLess(input[j].ik, e.ik) && input[j] in Elements(input) && e in Elements(input);
      assert input[j].ik.seqno >= e.ik.seqno && input[j] != e;
    } else {
      var s := if e.ik.seqno <= snap then snap else e.ik.seqno;
      forall d | d in Elements(input) && Visible(d, e.ik.ukey, s) ensures d.ik.seqno <= e.ik.seqno {
        var j :| 0 <= j < |input| && input[j] == d;
        assert d.ik.seqno > e.ik.seqno ==> !KeyLess(e.ik, d.ik);
      }
      assert Newest(Elements(input), e.ik.ukey, s, e);
    }
  }

  /** A compaction writes out exactly what is needed. */
  lemma SurvivorsNeeded(v: Version, level: nat, input: seq<Entry>, snap: nat)
    requires Sorted(input) && UniqueSeq(Elements(input))
    ensures forall e :: e in Survivors(v, level, input, snap, |input|) <==> e in input && Needed(v, level, input, snap, e)
  {
    hide Survivors, Hidden, Newest, UniqueSeq;
    SurvivorsAre(v, level, input, snap, |input|);
    forall i | 0 <= i < |input| ensures Dropped(v, level, input, snap, i) <==> !Needed(v, level, input, snap, input[i]) {
      ReadableIff(input, snap, i);
    }
  }

  /** No snapshot keeps a second version alive: of each key at most one survivor is at or below it. */
  lemma OneOldVersion(v: Version, level: nat, input: seq<Entry>, snap: nat, d: Entry, e: Entry)
    requires Sorted(input) && UniqueSeq(Elements(input)) && d.ik.ukey == e.ik.ukey && d.ik.seqno <= snap && e.ik.seqno <= snap
    requires d in Survivors(v, level, input, snap, |input|) && e in Survivors(v, level, input, snap, |input|)
    ensures d == e
  {
    hide Survivors;
    SurvivorsNeeded(v, level, input, snap);
    assert d in Elements(input) && e in Elements(input);
    var s :| s >= snap && Newest(Elements(input), d.ik.ukey, s, d);
    var t :| t >= snap && Newest(Elements(input), e.ik.ukey, t, e);
  }

  lemma {:induction false} PiecesOrdered(pieces: seq<seq<Entry>>)
    requires Sorted(Concat(pieces))
    ensures forall i, e :: 0 <= i < |pieces| && e in pieces[i] ==> e in Concat(pieces)
    ensures forall i, j, d, e :: 0 <= i < j < |pieces| && d in pieces[i] && e in pieces[j] ==> KeyLess(d.ik, e.ik)
  {
    if pieces != [] {
      var n := |pieces| - 1;
      var front := Concat(pieces[..n]);
      assert Concat(pieces) == front + pieces[n];
      forall i, j | 0 <= i < j < |front| ensures KeyLess(front[i].ik, front[j].ik) {
        assert Concat(pieces)[i] == front[i] && Concat(pieces)[j] == front[j];
      }
      PiecesOrdered(pieces[..n]);
      forall d, e | d in front && e in pieces[n] ensures KeyLess(d.ik, e.ik) {
        var i :| 0 <= i < |front| && front[i] == d;
        var j :| 0 <= j < |pieces[n]| && pieces[n][j] == e;
        assert Concat(pieces)[i] == d && Concat(pieces)[|front| + j] == e;
      }
    }
  }

  lemma {:induction false} PieceOf(pieces: seq<seq<Entry>>, e: Entry)
    requires e in Concat(pieces)
    ensures exists i :: 0 <= i < |pieces| && e in pieces[i]
  {
    var n := |pieces| - 1;
    if e !in pieces[n] {
      PieceOf(pieces[..n], e);
      var i :| 0 <= i < |pieces[..n]| && e in pieces[..n][i];
      assert e in pieces[i];
    }
  }

  /** An output entry comes from an input file, undropped. */
  lemma OutputEntry(v: Version, c: Compaction, snap: nat, input: seq<Entry>, pieces: seq<seq<Entry>>,
                    outs: seq<File>, v': Version, g: File, e: Entry) returns (h: File, i: nat)
    requires Compacted(v, c, snap, input, pieces, outs, v')
    requires g in outs && e in g.entries
    ensures (h in c.in0 || h in c.in1) && e in h.entries
    ensures i < |input| && input[i] == e && !Dropped(v, c.level, input, snap, i)
  {
    SurvivorsSorted(v, c.level, input, snap, |input|);
    PiecesOrdered(pieces);
    SurvivorsAre(v, c.level, input, snap, |input|);
    var n :| 0 <= n < |outs| && outs[n] == g;
    assert e in pieces[n] && e in Concat(pieces);
    assert e in Survivors(v, c.level, input, snap, |input|);
    i :| 0 <= i < |input| && input[i] == e && !Dropped(v, c.level, input, snap, i);
    h := InputFile(c, input, i);
  }

  // ----- Structure -----

  /** Inputs lie entirely on one side of every file the compaction leaves in the output level. */
  lemma InputsBesides(v: Version, c: Compaction, g: File)
    requires WellFormed(v) && GoodInputs(v, c)
    requires g in v[c.level + 1] && g !in c.in1
    ensures (forall h, e :: (h in c.in0 || h in c.in1) && e in h.entries ==> KeyLess(g.Largest(), e.ik))
         || (forall h, e :: (h in c.in0 || h in c.in1) && e in h.entries ==> KeyLess(e.ik, g.Smallest()))
  {
    FileRange(g);
    var left := forall h :: h in c.in0 ==> g.Largest().ukey < h.Smallest().ukey;
    forall h, e | (h in c.in0 || h in c.in1) && e in h.entries
      ensures if left then KeyLess(g.Largest(), e.ik) else KeyLess(e.ik, g.Smallest())
    {
      KeyInFile(h, e);
      FileOrder(h, e);
      if h in c.in1 && h !in c.in0 {
        FileRange(h);
        assert InSpan(h, c.in0) && !InSpan(g, c.in0) && Disjoint(g, h);
      }
    }
  }

  /** Below level 0 files never come to overlap by internal key, whatever keys straddle files. */
  lemma CompactionKeepsStructure(v: Version, c: Compaction, snap: nat, input: seq<Entry>,
                                 pieces: seq<seq<Entry>>, outs: seq<File>, v': Version)
    requires WellFormed(v) && Compacted(v, c, snap, input, pieces, outs, v')
    ensures WellFormed(v')
  {
    var L := c.level;
    forall f, g | f in v'[L + 1] && g in v'[L + 1] && f != g ensures Disjoint(f, g) {
      if f in outs && g in outs {
        SurvivorsSorted(v, L, input, snap, |input|);
        OutputsApart(outs, pieces, f, g);
      } else if f in outs && !(g in outs) {
        OutputBeside(v, c, snap, input, pieces, outs, v', f, g);
      } else if g in outs && !(f in outs) {
        OutputBeside(v, c, snap, input, pieces, outs, v', g, f);
      }
    }
    forall l | 1 <= l < NUM_LEVELS ensures DisjointFiles(v'[l]) {
    }
  }

  lemma OutputsApart(outs: seq<File>, pieces: seq<seq<Entry>>, f: File, g: File)
    requires OutputFiles(outs, pieces) && Sorted(Concat(pieces))
    requires f in outs && g in outs && f != g
    ensures Disjoint(f, g)
  {
    PiecesOrdered(pieces);
    var i :| 0 <= i < |outs| && outs[i] == f;
    var j :| 0 <= j < |outs| && outs[j] == g;
    assert f.entries[|f.entries| - 1] in pieces[i] && f.entries[0] in pieces[i];
    assert g.entries[|g.entries| - 1] in pieces[j] && g.entries[0] in pieces[j];
  }

  lemma OutputBeside(v: Version, c: Compaction, snap: nat, input: seq<Entry>,
                     pieces: seq<seq<Entry>>, outs: seq<File>, v': Version, f: File, g: File)
    requires WellFormed(v) && Compacted(v, c, snap, input, pieces, outs, v')
    requires f in outs && g in v[c.level + 1] && g !in c.in1
    ensures Disjoint(f, g)
  {
    InputsBesides(v, c, g);
    var h0, i0 := OutputEntry(v, c, snap, input, pieces, outs, v', f, f.entries[0]);
    var h1, i1 := OutputEntry(v, c, snap, input, pieces, outs, v', f, f.entries[|f.entries| - 1]);
  }

  // ----- Age of versions across levels -----

  /** Input entry i goes one level down and passes an older version of its key that stays in g. */
  ghost predicate Sinks(v: Version, c: Compaction, snap: nat, input: seq<Entry>, i: nat, g: File, e: Entry) {
    && i < |input| && !Dropped(v, c.level, input, snap, i)
    && c.level < NUM_LEVELS && g in v[c.level] && g !in c.in0
    && e in g.entries && e.ik.ukey == input[i].ik.ukey && e.ik.seqno < input[i].ik.seqno
  }

  ghost predicate NothingSinks(v: Version, c: Compaction, snap: nat, input: seq<Entry>) {
    forall i: nat, g, e :: !Sinks(v, c, snap, input, i, g, e)
  }

  lemma InputFile(c: Compaction, input: seq<Entry>, i: nat) returns (h: File)
    requires MergedInput(c, input) && i < |input|
    ensures (h in c.in0 || h in c.in1) && input[i] in h.entries
  {
    assert input[i] in input;
    h :| (h in c.in0 || h in c.in1) && input[i] in h.entries;
  }

  /** A file left at the input level shares no entry with the inputs. */
  lemma NotBoth(v: Version, c: Compaction, f: File, h: File, d: Entry)
    requires WellFormed(v) && NewerAbove(v) && GoodInputs(v, c)
    requires f in v[c.level] && f !in c.in0 && (h in c.in0 || h in c.in1) && d in f.entries
    ensures d !in h.entries
  {
    assert h in c.in1 ==> Newer(f, h);
    assert h in c.in0 ==> if c.level == 0 then !RangesOverlap(f, h) else Disjoint(f, h);
    if d in h.entries {
      KeyInFile(f, d);
      KeyInFile(h, d);
      FileOrder(f, d);
      FileOrder(h, d);
    }
  }

  lemma SurvivorFile(v: Version, c: Compaction, snap: nat, input: seq<Entry>, pieces: seq<seq<Entry>>,
                     outs: seq<File>, v': Version, i: nat) returns (o: File)
    requires Compacted(v, c, snap, input, pieces, outs, v')
    requires i < |input| && !Dropped(v, c.level, input, snap, i)
    ensures o in v'[c.level + 1] && input[i] in o.entries
  {
    SurvivorsAre(v, c.level, input, snap, |input|);
    PieceOf(pieces, input[i]);
    var n :| 0 <= n < |pieces| && input[i] in pieces[n];
    o := outs[n];
    assert o in outs;
  }

  lemma SinkingBreaksAge(v: Version, c: Compaction, snap: nat, input: seq<Entry>, pieces: seq<seq<Entry>>,
                         outs: seq<File>, v': Version, i: nat, g: File, e: Entry)
    requires Compacted(v, c, snap, input, pieces, outs, v') && Sinks(v, c, snap, input, i, g, e)
    ensures !NewerAbove(v')
  {
    var o := SurvivorFile(v, c, snap, input, pieces, outs, v', i);
    assert g in v'[c.level] && !Newer(g, o);
  }

  lemma OutputIsOlder(v: Version, c: Compaction, snap: nat, input: seq<Entry>, pieces: seq<seq<Entry>>,
                      outs: seq<File>, v': Version, f: File, g: File, d: Entry, e: Entry)
    requires WellFormed(v) && NewerAbove(v) && UniqueSeq(VersionEntries(v))
    requires Compacted(v, c, snap, input, pieces, outs, v') && NothingSinks(v, c, snap, input)
    requires f in v'[c.level] && g in outs && d in f.entries && e in g.entries && d.ik.ukey == e.ik.ukey
    ensures d.ik.seqno > e.ik.seqno
  {
    var h, i := OutputEntry(v, c, snap, input, pieces, outs, v', g, e);
    assert !Sinks(v, c, snap, input, i, f, d);
    assert f in v[c.level] && f !in c.in0;
    assert d in VersionEntries(v) && e in VersionEntries(v);
    NotBoth(v, c, f, h, d);
  }

  lemma NothingSinksKeepsAge(v: Version, c: Compaction, snap: nat, input: seq<Entry>, pieces: seq<seq<Entry>>,
                             outs: seq<File>, v': Version)
    requires WellFormed(v) && NewerAbove(v) && UniqueSeq(VersionEntries(v))
    requires Compacted(v, c, snap, input, pieces, outs, v') && NothingSinks(v, c, snap, input)
    ensures NewerAbove(v')
  {
    hide NothingSinks, UniqueSeq, WellFormed, Survivors;
    var L := c.level;
    forall l, m, f, g | 0 <= l < m < NUM_LEVELS && f in v'[l] && g in v'[m] ensures Newer(f, g) {
      forall d, e | d in f.entries && e in g.entries && d.ik.ukey == e.ik.ukey ensures d.ik.seqno > e.ik.seqno {
        if m == L + 1 && g in outs {
          if l == L {
            OutputIsOlder(v, c, snap, input, pieces, outs, v', f, g, d, e);
          } else {
            var h, i := OutputEntry(v, c, snap, input, pieces, outs, v', g, e);
            assert Newer(f, h);
          }
        } else if l == L + 1 && f in outs {
          var h, i := OutputEntry(v, c, snap, input, pieces, outs, v', f, d);
          assert Newer(h, g);
        } else {
          assert Newer(f, g);
        }
      }
    }
    assert NewerByNumber(v'[0]);
  }

  /** Newer versions stay above older ones exactly when no entry that is written out passes an
      older version of its key on the way down. */
  lemma AgeKeptIff(v: Version, c: Compaction, snap: nat, input: seq<Entry>, pieces: seq<seq<Entry>>,
                   outs: seq<File>, v': Version)
    requires WellFormed(v) && NewerAbove(v) && UniqueSeq(VersionEntries(v))
    requires Compacted(v, c, snap, input, pieces, outs, v')
    ensures NewerAbove(v') <==> NothingSinks(v, c, snap, input)
  {
    hide Compacted, WellFormed, UniqueSeq, NewerAbove, Sinks;
    if NothingSinks(v, c, snap, input) {
      NothingSinksKeepsAge(v, c, snap, input, pieces, outs, v');
    } else {
      var i: nat, g, e :| Sinks(v, c, snap, input, i, g, e);
      SinkingBreaksAge(v, c, snap, input, pieces, outs, v', i, g, e);
    }
  }

  // ----- What a compaction holds before and after -----

  /** The entries of all files that a compaction leaves where they are. */
  ghost function LeftBehind(v: Version, c: Compaction): set<Entry> {
    set l, g, e | 0 <= l < |v| && g in v[l] && (l == c.level ==> g !in c.in0) && (l == c.level + 1 ==> g !in c.in1)
                  && e in g.entries :: e
  }

  lemma InputInVersion(v: Version, c: Compaction, input: seq<Entry>, i: nat)
    requires GoodInputs(v, c) && MergedInput(c, input) && i < |input|
    ensures input[i] in VersionEntries(v)
  {
    var h := InputFile(c, input, i);
    assert h in v[c.level] || h in v[c.level + 1];
  }

  lemma EntriesBefore(v: Version, c: Compaction, input: seq<Entry>)
    requires GoodInputs(v, c) && MergedInput(c, input)
    ensures VersionEntries(v) == LeftBehind(v, c) + Elements(input)
  {
    forall e | e in VersionEntries(v) ensures e in LeftBehind(v, c) || e in input {
      var l, f :| 0 <= l < |v| && f in v[l] && e in f.entries;
      if (l == c.level && f in c.in0) || (l == c.level + 1 && f in c.in1) {
        assert e in input;
      }
    }
    forall e | e in input ensures e in VersionEntries(v) {
      var i :| 0 <= i < |input| && input[i] == e;
      InputInVersion(v, c, input, i);
    }
  }

  lemma EntriesAfter(v: Version, c: Compaction, snap: nat, input: seq<Entry>, pieces: seq<seq<Entry>>,
                     outs: seq<File>, v': Version)
    requires Compacted(v, c, snap, input, pieces, outs, v')
    ensures VersionEntries(v') == LeftBehind(v, c) + Elements(Survivors(v, c.level, input, snap, |input|))
  {
    hide Survivors, Compacted, VersionEntries, LeftBehind;
    var kept := Survivors(v, c.level, input, snap, |input|);
    SurvivorsAre(v, c.level, input, snap, |input|);
    forall e | e in VersionEntries(v') ensures e in LeftBehind(v, c) || e in kept {
      EntryAfter(v, c, snap, input, pieces, outs, v', e);
    }
    forall e | e in kept ensures e in VersionEntries(v') {
      var i :| 0 <= i < |input| && input[i] == e && !Dropped(v, c.level, input, snap, i);
      SurvivorInVersion(v, c, snap, input, pieces, outs, v', i);
    }
    forall e | e in LeftBehind(v, c) ensures e in VersionEntries(v') {
      LeftInVersion(v, c, snap, input, pieces, outs, v', e);
    }
  }

  lemma EntryAfter(v: Version, c: Compaction, snap: nat, input: seq<Entry>, pieces: seq<seq<Entry>>,
                   outs: seq<File>, v': Version, e: Entry)
    requires Compacted(v, c, snap, input, pieces, outs, v') && e in VersionEntries(v')
    ensures e in LeftBehind(v, c) || e in Survivors(v, c.level, input, snap, |input|)
  {
    hide Survivors;
    var l, f :| 0 <= l < |v'| && f in v'[l] && e in f.entries;
    if l == c.level + 1 && f in outs {
      SurvivorsAre(v, c.level, input, snap, |input|);
      var h, i := OutputEntry(v, c, snap, input, pieces, outs, v', f, e);
    }
  }

  lemma SurvivorInVersion(v: Version, c: Compaction, snap: nat, input: seq<Entry>, pieces: seq<seq<Entry>>,
                          outs: seq<File>, v': Version, i: nat)
    requires Compacted(v, c, snap, input, pieces, outs, v') && i < |input| && !Dropped(v, c.level, input, snap, i)
    ensures input[i] in VersionEntries(v')
  {
    var o := SurvivorFile(v, c, snap, input, pieces, outs, v', i);
  }

  lemma LeftInVersion(v: Version, c: Compaction, snap: nat, input: seq<Entry>, pieces: seq<seq<Entry>>,
                      outs: seq<File>, v': Version, e: Entry)
    requires Compacted(v, c, snap, input, pieces, outs, v') && e in LeftBehind(v, c)
    ensures e in VersionEntries(v')
  {
    hide Survivors;
    var l, g :| 0 <= l < |v| && g in v[l] && (l == c.level ==> g !in c.in0) && (l == c.level + 1 ==> g !in c.in1)
                && e in g.entries;
    assert g in v'[l];
  }

  /** After a compaction: what was left behind, and what of the input is needed. */
  lemma CompactionExactly(v: Version, c: Compaction, snap: nat, input: seq<Entry>, pieces: seq<seq<Entry>>,
                          outs: seq<File>, v': Version)
    requires Compacted(v, c, snap, input, pieces, outs, v') && UniqueSeq(VersionEntries(v))
    ensures forall e :: e in VersionEntries(v') <==>
              e in LeftBehind(v, c) || (e in input && Needed(v, c.level, input, snap, e))
  {
    hide Survivors, LeftBehind, VersionEntries, Needed;
    EntriesBefore(v, c, input);
    EntriesAfter(v, c, snap, input, pieces, outs, v');
    SurvivorsNeeded(v, c.level, input, snap);
  }

  lemma CompactionShrinks(v: Version, c: Compaction, snap: nat, input: seq<Entry>,
                          pieces: seq<seq<Entry>>, outs: seq<File>, v': Version)
    requires Compacted(v, c, snap, input, pieces, outs, v')
    ensures VersionEntries(v') <= VersionEntries(v)
    ensures forall e :: e in VersionEntries(v) && e !in VersionEntries(v') ==>
              exists i :: 0 <= i < |input| && input[i] == e && Dropped(v, c.level, input, snap, i)
  {
    EntriesBefore(v, c, input);
    EntriesAfter(v, c, snap, input, pieces, outs, v');
    SurvivorsAre(v, c.level, input, snap, |input|);
    hide Survivors, LeftBehind, VersionEntries, Compacted;
    forall e | e in VersionEntries(v) && e !in VersionEntries(v')
      ensures exists i :: 0 <= i < |input| && input[i] == e && Dropped(v, c.level, input, snap, i)
    {
      var i :| 0 <= i < |input| && input[i] == e;
      assert Dropped(v, c.level, input, snap, i);
    }
  }

  // ----- Reads -----

  /** Input entry i is a tombstone that the merge drops as obsolete, with nothing newer than it that
      every reader sees, while among the entries that stay there is a value right under it. */
  ghost predicate Unburies(v: Version, level: nat, input: seq<Entry>, snap: nat, rest: set<Entry>, i: nat) {
    && i < |input| && !Hidden(input, snap, i)
    && var t := input[i].ik;
       && t.kind.Deletion? && t.seqno <= snap && BaseLevel(v, level, t.ukey)
       && (forall d :: d in rest && d.ik.ukey == t.ukey ==> !(t.seqno < d.ik.seqno <= snap))
       && Read(rest, t.ukey, t.seqno).Found?
  }

  ghost predicate NothingUnburied(v: Version, level: nat, input: seq<Entry>, snap: nat, rest: set<Entry>) {
    forall i: nat :: !Unburies(v, level, input, snap, rest, i)
  }

  /** In a merged input the newer of two versions of a key comes first. */
  lemma NewerFirst(input: seq<Entry>, i: nat, j: nat)
    requires Sorted(input) && i < |input| && j < |input| && input[i].ik.ukey == input[j].ik.ukey
    ensures input[i].ik.seqno > input[j].ik.seqno ==> i < j
    ensures i < j ==> input[i].ik.seqno >= input[j].ik.seqno
  {
    if i < j { assert KeyLess(input[i].ik, input[j].ik); }
    if j < i { assert KeyLess(input[j].ik, input[i].ik); }
  }

  lemma FoundNewest(S: set<Entry>, k: UserKey, s: nat) returns (r: Entry)
    requires UniqueSeq(S) && Read(S, k, s).Found?
    ensures Newest(S, k, s, r) && r.ik.kind.Value?
  {
    r :| Newest(S, k, s, r);
    ReadIsNewest(S, k, s, r);
  }

  ghost predicate IsKept(v: Version, level: nat, input: seq<Entry>, snap: nat, kept: set<Entry>) {
    forall e :: e in kept <==> exists j :: 0 <= j < |input| && input[j] == e && !Dropped(v, level, input, snap, j)
  }

  /** No version that a reader at `snap` could see is written out for the key of a dropped tombstone. */
  lemma NoneKept(v: Version, level: nat, input: seq<Entry>, snap: nat, kept: set<Entry>, i: nat, d: Entry)
    requires Sorted(input) && IsKept(v, level, input, snap, kept)
    requires i < |input| && !Hidden(input, snap, i) && Dropped(v, level, input, snap, i)
    requires d in kept && d.ik.ukey == input[i].ik.ukey
    ensures d.ik.seqno > snap
  {
    var j :| 0 <= j < |input| && input[j] == d && !Dropped(v, level, input, snap, j);
  }

  /** A tombstone that unburies something changes the read of its key at `snap`. */
  lemma UnburiedIsRead(v: Version, level: nat, input: seq<Entry>, snap: nat, rest: set<Entry>, kept: set<Entry>, i: nat)
    requires Sorted(input) && UniqueSeq(rest + Elements(input)) && Unburies(v, level, input, snap, rest, i)
    requires IsKept(v, level, input, snap, kept) && kept <= Elements(input)
    ensures Read(rest + Elements(input), input[i].ik.ukey, snap) == NotFound
    ensures Read(rest + kept, input[i].ik.ukey, snap).Found?
  {
    hide Read, UniqueSeq, BaseLevel, IsKept;
    var t, k := input[i], input[i].ik.ukey;
    var S, S' := rest + Elements(input), rest + kept;
    UniqueSubset(S, rest);
    UniqueSubset(S, S');
    var r := FoundNewest(rest, k, t.ik.seqno);
    forall d | d in S && Visible(d, k, snap) ensures d.ik.seqno <= t.ik.seqno {
      if d in input {
        var j :| 0 <= j < |input| && input[j] == d;
        NewerFirst(input, j, i);
      }
    }
    assert Newest(S, k, snap, t);
    ReadIsNewest(S, k, snap, t);
    forall d | d in kept ensures !Visible(d, k, snap) {
      if d.ik.ukey == k { NoneKept(v, level, input, snap, kept, i, d); }
    }
    assert Newest(S', k, snap, r);
    ReadIsNewest(S', k, snap, r);
  }

  lemma UniqueSubset(S: set<Entry>, T: set<Entry>)
    requires UniqueSeq(S) && T <= S
    ensures UniqueSeq(T)
  {
  }

  /** The newest visible version can only be lost as an obsolete tombstone. */
  lemma LostNewest(v: Version, level: nat, input: seq<Entry>, snap: nat, S: set<Entry>, kept: set<Entry>,
                   k: UserKey, s: nat, i: nat)
    requires Sorted(input) && UniqueSeq(S) && Elements(input) <= S && IsKept(v, level, input, snap, kept) && s >= snap
    requires i < |input| && Newest(S, k, s, input[i]) && input[i] !in kept
    ensures Dropped(v, level, input, snap, i) && !Hidden(input, snap, i)
  {
    hide BaseLevel;
  }

  /** If a dropped tombstone unburies nothing, nothing of its key comes to light. */
  lemma NothingComesToLight(v: Version, level: nat, input: seq<Entry>, snap: nat, rest: set<Entry>, kept: set<Entry>,
                            k: UserKey, s: nat, i: nat)
    requires Sorted(input) && UniqueSeq(rest + Elements(input)) && NothingUnburied(v, level, input, snap, rest) && s >= snap
    requires IsKept(v, level, input, snap, kept) && kept <= Elements(input)
    requires i < |input| && Newest(rest + Elements(input), k, s, input[i]) && input[i] !in rest + kept
    ensures Read(rest + kept, k, s) == NotFound
  {
    hide Read, UniqueSeq, BaseLevel, IsKept;
    var S, S', t := rest + Elements(input), rest + kept, input[i];
    UniqueSubset(S, rest);
    UniqueSubset(S, S');
    LostNewest(v, level, input, snap, S, kept, k, s, i);
    forall d | d in kept ensures !Visible(d, k, s) {
      if d.ik.ukey == k {
        NoneKept(v, level, input, snap, kept, i, d);
        assert d in S;
      }
    }
    assert !Unburies(v, level, input, snap, rest, i);
    assert Read(rest, k, t.ik.seqno) == NotFound;
    forall d | d in S' && Visible(d, k, s) ensures d in rest && Visible(d, k, t.ik.seqno) {
      assert d in S;
    }
    SameRead(rest, k, t.ik.seqno, S', s);
  }

  /** Two reads that see the same versions agree. */
  lemma SameRead(S: set<Entry>, k: UserKey, s: nat, T: set<Entry>, t: nat)
    requires UniqueSeq(S) && UniqueSeq(T)
    requires forall e :: (e in S && Visible(e, k, s)) <==> (e in T && Visible(e, k, t))
    ensures Read(S, k, s) == Read(T, k, t)
  {
    if e :| e in S && Visible(e, k, s) {
      NewestExists(S, k, s, e);
      var m :| Newest(S, k, s, m);
      assert Newest(T, k, t, m);
      ReadIsNewest(S, k, s, m);
      ReadIsNewest(T, k, t, m);
    } else {
      ReadNothing(S, k, s);
      ReadNothing(T, k, t);
    }
  }

  /** If nothing is unburied, every read from `snap` on stays as it was. */
  lemma BuriedStaysBuried(v: Version, level: nat, input: seq<Entry>, snap: nat, rest: set<Entry>, kept: set<Entry>,
                          k: UserKey, s: nat)
    requires Sorted(input) && UniqueSeq(rest + Elements(input)) && NothingUnburied(v, level, input, snap, rest)
    requires IsKept(v, level, input, snap, kept) && kept <= Elements(input) && s >= snap
    ensures Read(rest + kept, k, s) == Read(rest + Elements(input), k, s)
  {
    hide Read, UniqueSeq, NothingUnburied, IsKept, Sorted;
    var S, S' := rest + Elements(input), rest + kept;
    UniqueSubset(S, S');
    if m :| Newest(S, k, s, m) && m !in S' {
      var i :| 0 <= i < |input| && input[i] == m;
      NothingComesToLight(v, level, input, snap, rest, kept, k, s, i);
      ReadIsNewest(S, k, s, m);
      LostNewest(v, level, input, snap, S, kept, k, s, i);
    } else {
      ReadAfterDrop(S, S', k, s);
    }
  }

  lemma BeforeAndAfter(v: Version, c: Compaction, snap: nat, input: seq<Entry>, pieces: seq<seq<Entry>>, outs: seq<File>,
                       v': Version, above: set<Entry>, rest: set<Entry>, kept: set<Entry>)
    requires Compacted(v, c, snap, input, pieces, outs, v') && rest == above + LeftBehind(v, c)
    requires kept == Elements(Survivors(v, c.level, input, snap, |input|))
    ensures above + VersionEntries(v) == rest + Elements(input) && above + VersionEntries(v') == rest + kept
    ensures Sorted(input) && IsKept(v, c.level, input, snap, kept) && kept <= Elements(input)
  {
    hide Survivors, VersionEntries, LeftBehind;
    EntriesBefore(v, c, input);
    EntriesAfter(v, c, snap, input, pieces, outs, v');
    SurvivorsAre(v, c.level, input, snap, |input|);
  }

  /** A compaction keeps every read from `snap` on, with any entries above the levels, exactly when
      no tombstone that it drops leaves a value uncovered in a file it does not touch. Nothing is
      assumed of the version: not even that upper levels hold the newer versions. */
  lemma ReadsKeptIff(v: Version, c: Compaction, snap: nat, input: seq<Entry>, pieces: seq<seq<Entry>>,
                     outs: seq<File>, v': Version, above: set<Entry>)
    requires UniqueSeq(above + VersionEntries(v)) && Compacted(v, c, snap, input, pieces, outs, v')
    ensures (forall k, s :: s >= snap ==> Read(above + VersionEntries(v'), k, s) == Read(above + VersionEntries(v), k, s))
       <==> NothingUnburied(v, c.level, input, snap, above + LeftBehind(v, c))
  {
    hide Compacted, Survivors, UniqueSeq, Read, VersionEntries, LeftBehind, Dropped, Unburies, Sorted, IsKept, Elements;
    var rest := above + LeftBehind(v, c);
    var kept := Elements(Survivors(v, c.level, input, snap, |input|));
    BeforeAndAfter(v, c, snap, input, pieces, outs, v', above, rest, kept);
    if NothingUnburied(v, c.level, input, snap, rest) {
      forall k, s | s >= snap ensures Read(rest + kept, k, s) == Read(rest + Elements(input), k, s) {
        BuriedStaysBuried(v, c.level, input, snap, rest, kept, k, s);
      }
    } else {
      var i: nat :| Unburies(v, c.level, input, snap, rest, i);
      UnburiedIsRead(v, c.level, input, snap, rest, kept, i);
    }
  }

  // ----- Files that end between user keys -----

  /** A file left behind at the input level holds newer versions than any input entry of the same key. */
  lemma LeftBehindIsNewer(v: Version, c: Compaction, f: File, h: File, d: Entry, e: Entry)
    requires WellFormed(v) && NewerAbove(v) && UniqueSeq(VersionEntries(v)) && GoodInputs(v, c)
    requires c.level >= 1 ==> CleanCut(v[c.level], c.in0)
    requires f in v[c.level] && f !in c.in0 && (h in c.in0 || h in c.in1)
    requires d in f.entries && e in h.entries && d.ik.ukey == e.ik.ukey
    ensures d.ik.seqno > e.ik.seqno
  {
    KeyInFile(f, d);
    KeyInFile(h, e);
    if h in c.in1 {
      assert Newer(f, h);
    } else if c.level == 0 {
      assert RangesOverlap(f, h);
      assert false;
    } else {
      assert Disjoint(f, h);
      FileOrder(f, d);
      FileOrder(h, e);
      assert KeyLess(f.Largest(), h.Smallest());
      assert d in VersionEntries(v) && e in VersionEntries(v);
    }
  }

  lemma LeftBelowIsNewer(v: Version, c: Compaction, g: File, h: File, r: Entry, m: Entry)
    requires WellFormed(v) && GoodInputs(v, c) && CleanCut(v[c.level + 1], c.in1)
    requires g in v[c.level + 1] && g !in c.in1 && (h in c.in0 || h in c.in1)
    requires r in g.entries && m in h.entries && r.ik.ukey == m.ik.ukey
    ensures r.ik.seqno >= m.ik.seqno
  {
    KeyInFile(g, r);
    KeyInFile(h, m);
    if h in c.in0 {
      assert InSpan(g, c.in0);
      assert false;
    } else {
      assert Disjoint(g, h);
      FileOrder(g, r);
      FileOrder(h, m);
      assert KeyLess(g.Largest(), h.Smallest());
    }
  }

  /** No file left behind has an older version of a key that no deeper level covers. */
  lemma LeftIsNewer(v: Version, c: Compaction, h: File, r: Entry, m: Entry)
    requires WellFormed(v) && NewerAbove(v) && UniqueSeq(VersionEntries(v)) && GoodInputs(v, c)
    requires c.level >= 1 ==> CleanCut(v[c.level], c.in0)
    requires CleanCut(v[c.level + 1], c.in1)
    requires (h in c.in0 || h in c.in1) && m in h.entries
    requires r in LeftBehind(v, c) && r.ik.ukey == m.ik.ukey && BaseLevel(v, c.level, m.ik.ukey)
    ensures r.ik.seqno >= m.ik.seqno
  {
    var l, g :| 0 <= l < |v| && g in v[l] && (l == c.level ==> g !in c.in0) && (l == c.level + 1 ==> g !in c.in1)
                && r in g.entries;
    KeyInFile(g, r);
    if l == c.level {
      LeftBehindIsNewer(v, c, g, h, r, m);
    } else if l == c.level + 1 {
      LeftBelowIsNewer(v, c, g, h, r, m);
    } else if l < c.level {
      assert Newer(g, h);
    } else {
      assert false;
    }
  }

  /** Inputs that end between user keys on both levels make every compaction safe. */
  lemma CleanCutIsSafe(v: Version, c: Compaction, snap: nat, input: seq<Entry>, above: set<Entry>)
    requires WellFormed(v) && NewerAbove(v) && UniqueSeq(above + VersionEntries(v)) && GoodInputs(v, c) && MergedInput(c, input)
    requires forall a, d :: a in above && d in VersionEntries(v) && a.ik.ukey == d.ik.ukey ==> a.ik.seqno > d.ik.seqno
    requires c.level >= 1 ==> CleanCut(v[c.level], c.in0)
    requires CleanCut(v[c.level + 1], c.in1)
    ensures NothingSinks(v, c, snap, input) && NothingUnburied(v, c.level, input, snap, above + LeftBehind(v, c))
  {
    hide WellFormed, NewerAbove, CleanCut, GoodInputs, BaseLevel, LeftBehind, Read, Hidden;
    var rest := above + LeftBehind(v, c);
    UniqueSubset(above + VersionEntries(v), VersionEntries(v));
    EntriesBefore(v, c, input);
    UniqueSubset(above + VersionEntries(v), rest);
    hide UniqueSeq;
    forall i: nat, g, e ensures !Sinks(v, c, snap, input, i, g, e) {
      if Sinks(v, c, snap, input, i, g, e) {
        var h := InputFile(c, input, i);
        LeftBehindIsNewer(v, c, g, h, e, input[i]);
      }
    }
    forall i: nat ensures !Unburies(v, c.level, input, snap, rest, i) {
      if Unburies(v, c.level, input, snap, rest, i) {
        var r := FoundNewest(rest, input[i].ik.ukey, input[i].ik.seqno);
        NothingUnder(v, c, input, above, i, r);
      }
    }
  }

  lemma NothingUnder(v: Version, c: Compaction, input: seq<Entry>, above: set<Entry>, i: nat, r: Entry)
    requires WellFormed(v) && NewerAbove(v) && UniqueSeq(above + VersionEntries(v)) && GoodInputs(v, c) && MergedInput(c, input)
    requires forall a, d :: a in above && d in VersionEntries(v) && a.ik.ukey == d.ik.ukey ==> a.ik.seqno > d.ik.seqno
    requires c.level >= 1 ==> CleanCut(v[c.level], c.in0)
    requires CleanCut(v[c.level + 1], c.in1)
    requires i < |input| && BaseLevel(v, c.level, input[i].ik.ukey)
    requires r in above + LeftBehind(v, c) && Visible(r, input[i].ik.ukey, input[i].ik.seqno)
    ensures r == input[i]
  {
    hide WellFormed, NewerAbove, CleanCut, GoodInputs, BaseLevel, LeftBehind;
    var h := InputFile(c, input, i);
    InputInVersion(v, c, input, i);
    UniqueSubset(above + VersionEntries(v), VersionEntries(v));
    EntriesBefore(v, c, input);
    LeftIsNewer(v, c, h, r, input[i]);
    SameSequence(above + VersionEntries(v), r, input[i]);
  }

  lemma SameSequence(S: set<Entry>, d: Entry, e: Entry)
    requires UniqueSeq(S) && d in S && e in S && d.ik.seqno == e.ik.seqno
    ensures d == e
  {
  }
}
