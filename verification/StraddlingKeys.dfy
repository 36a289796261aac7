/** What a client reads after files have gone down a level, when versions of one user key lie in
    two files of a level and only one of them goes. */
module StraddlingKeys {
  import opened DbFormat
  import opened Versions
  import opened Inputs
  import opened Compactions
  import opened VersionEdits
  import opened Database
  import opened DatabaseRuns

  // ----- Going down one level -----

  /** Of the versions in `level` and the level under it, `upper` and `lower` stay where they are;
      `moved` are taken from both, and `kept` of them are put back in the lower level. */
  datatype Lowering = Lowering(level: nat, upper: set<Entry>, lower: set<Entry>, moved: set<Entry>, kept: set<Entry>)

  ghost predicate Lowers(v: Version, w: Lowering, v': Version) {
    && w.level + 1 < NUM_LEVELS
    && (forall l :: 0 <= l < NUM_LEVELS && l != w.level && l != w.level + 1 ==> v'[l] == v[l])
    && LevelEntries(v[w.level]) + LevelEntries(v[w.level + 1]) == w.upper + w.lower + w.moved
    && w.upper <= LevelEntries(v[w.level]) && w.lower <= LevelEntries(v[w.level + 1]) && w.kept <= w.moved
    && LevelEntries(v'[w.level]) == w.upper && LevelEntries(v'[w.level + 1]) == w.lower + w.kept
  }

  ghost predicate HiddenIn(S: set<Entry>, snap: nat, m: Entry) {
    exists d :: d in S && d.ik.ukey == m.ik.ukey && m.ik.seqno < d.ik.seqno <= snap
  }

  /** A tombstone that every reader sees, over nothing deeper, none of whose key is kept for a reader at `snap`. */
  ghost predicate Obsolete(v: Version, w: Lowering, snap: nat, m: Entry) {
    && m.ik.kind.Deletion? && m.ik.seqno <= snap
    && (forall l, e :: w.level + 2 <= l < NUM_LEVELS && e in LevelEntries(v[l]) ==> e.ik.ukey != m.ik.ukey)
    && (forall d :: d in w.kept && d.ik.ukey == m.ik.ukey ==> d.ik.seqno > snap)
  }

  ghost predicate DropsRightly(v: Version, w: Lowering, snap: nat) {
    forall m :: m in w.moved && m !in w.kept ==> HiddenIn(w.moved, snap, m) || Obsolete(v, w, snap, m)
  }

  /** m is the newest version of its key for some reader. Once m has gone down that reader comes first
      to an older version in the upper level with another answer; or, if there is none and m was
      dropped, to a value in the lower level. */
  ghost predicate Undercut(v: Version, w: Lowering, snap: nat, m: Entry) {
    var k, s := m.ik.ukey, m.ik.seqno;
    && m in w.moved
    && (forall d :: d in VersionEntries(v) && d.ik.ukey == k ==> !(s < d.ik.seqno <= snap))
    && if Speaks(w.upper, k, s) then Read(w.upper, k, s) != Answer(m) else m !in w.kept && Read(w.lower, k, s).Found?
  }

  ghost predicate NothingUndercut(v: Version, w: Lowering, snap: nat) {
    forall m :: !Undercut(v, w, snap, m)
  }

  // ----- Levels that stay -----

  lemma {:induction false} SameBelow(v: Version, v': Version, l: nat, k: UserKey, s: nat)
    requires l <= NUM_LEVELS && forall m :: l <= m < NUM_LEVELS ==> v'[m] == v[m]
    ensures ReadFrom(v', l, k, s) == ReadFrom(v, l, k, s)
    decreases NUM_LEVELS - l
  {
    if l < NUM_LEVELS { SameBelow(v, v', l + 1, k, s); }
  }

  /** Equal levels at the top: one of them decides for both versions, or none does. */
  lemma {:induction false} SameAbove(v: Version, v': Version, l: nat, L: nat, k: UserKey, s: nat)
    requires l <= L <= NUM_LEVELS && forall m :: l <= m < L ==> v'[m] == v[m]
    ensures (exists m :: l <= m < L && Speaks(LevelEntries(v[m]), k, s)) ==> ReadFrom(v', l, k, s) == ReadFrom(v, l, k, s)
    ensures (forall m :: l <= m < L ==> !Speaks(LevelEntries(v[m]), k, s)) ==>
              ReadFrom(v, l, k, s) == ReadFrom(v, L, k, s) && ReadFrom(v', l, k, s) == ReadFrom(v', L, k, s)
    decreases L - l
  {
    hide Speaks, LevelEntries, Read;
    if l < L { SameAbove(v, v', l + 1, L, k, s); }
  }

  /** Where a reader of v' looks from the level on that files left. */
  lemma ReadLowered(v: Version, w: Lowering, v': Version, k: UserKey, s: nat)
    requires Lowers(v, w, v')
    ensures ReadFrom(v', w.level, k, s)
         == if Speaks(w.upper, k, s) then Read(w.upper, k, s)
            else if Speaks(w.lower + w.kept, k, s) then Read(w.lower + w.kept, k, s)
            else ReadFrom(v, w.level + 2, k, s)
  {
    hide Speaks, LevelEntries, Read;
    SameBelow(v, v', w.level + 2, k, s);
    assert ReadFrom(v', w.level + 1, k, s)
        == if Speaks(w.lower + w.kept, k, s) then Read(w.lower + w.kept, k, s) else ReadFrom(v', w.level + 2, k, s);
  }

  lemma {:induction false} SilentFrom(v: Version, l: nat, k: UserKey, s: nat)
    requires l <= NUM_LEVELS && forall m :: l <= m < NUM_LEVELS ==> !Speaks(LevelEntries(v[m]), k, s)
    ensures ReadFrom(v, l, k, s) == NotFound
    decreases NUM_LEVELS - l
  {
    if l < NUM_LEVELS { SilentFrom(v, l + 1, k, s); }
  }

  lemma PartsUnique(v: Version, w: Lowering, v': Version)
    requires Lowers(v, w, v') && UniqueSeq(VersionEntries(v))
    ensures w.upper <= VersionEntries(v) && w.lower <= VersionEntries(v) && w.moved <= VersionEntries(v)
    ensures UniqueSeq(w.upper) && UniqueSeq(w.lower) && UniqueSeq(w.lower + w.kept)
  {
    LevelInVersion(v, w.level);
    LevelInVersion(v, w.level + 1);
  }

  lemma UpperIsNewer(v: Version, l: nat, m: nat, d: Entry, e: Entry)
    requires NewerAbove(v) && l < m < NUM_LEVELS
    requires d in LevelEntries(v[l]) && e in LevelEntries(v[m]) && d.ik.ukey == e.ik.ukey
    ensures d.ik.seqno > e.ik.seqno
  {
    var f :| f in v[l] && d in f.entries;
    var g :| g in v[m] && e in g.entries;
    assert Newer(f, g);
  }

  lemma LevelOf(v: Version, e: Entry) returns (l: nat)
    requires e in VersionEntries(v)
    ensures l < NUM_LEVELS && e in LevelEntries(v[l])
  {
    var m, f :| 0 <= m < |v| && f in v[m] && e in f.entries;
    l := m;
  }

  /** A version that stays for a reader is read the same at every later point with nothing in between. */
  lemma SameUpTo(S: set<Entry>, k: UserKey, s: nat, t: nat)
    requires UniqueSeq(S) && s <= t && forall d :: d in S && d.ik.ukey == k ==> !(s < d.ik.seqno <= t)
    ensures Speaks(S, k, s) <==> Speaks(S, k, t)
    ensures Read(S, k, s) == Read(S, k, t)
  {
    SameRead(S, k, s, S, t);
  }

  // ----- When a reader is misled -----

  lemma AloneAtTop(v: Version, w: Lowering, v': Version, snap: nat, m: Entry, s: nat)
    requires NewerAbove(v) && Lowers(v, w, v') && Newest(VersionEntries(v), m.ik.ukey, s, m) && m in w.moved
    ensures forall l :: 0 <= l < w.level ==> !Speaks(LevelEntries(v[l]), m.ik.ukey, s)
  {
    hide NewerAbove, LevelEntries, VersionEntries;
    var n := if m in LevelEntries(v[w.level]) then w.level else w.level + 1;
    forall l, e | 0 <= l < w.level && e in LevelEntries(v[l]) ensures !Visible(e, m.ik.ukey, s) {
      LevelInVersion(v, l);
      if Visible(e, m.ik.ukey, s) { UpperIsNewer(v, l, n, e, m); }
    }
  }

  lemma UndercutMisleads(v: Version, w: Lowering, v': Version, snap: nat, m: Entry)
    requires NewerAbove(v) && UniqueSeq(VersionEntries(v)) && Lowers(v, w, v') && DropsRightly(v, w, snap)
    requires Undercut(v, w, snap, m)
    ensures var s := if m.ik.seqno <= snap then snap else m.ik.seqno;
            ReadFrom(v', 0, m.ik.ukey, s) != ReadFrom(v, 0, m.ik.ukey, s)
  {
    hide NewerAbove, UniqueSeq, Lowers, Read, LevelEntries, VersionEntries, Speaks, ReadFrom;
    var k, s := m.ik.ukey, if m.ik.seqno <= snap then snap else m.ik.seqno;
    PartsUnique(v, w, v');
    assert Newest(VersionEntries(v), k, s, m);
    ReadIsNewest(VersionEntries(v), k, s, m);
    FirstLevelDecides(v, 0, k, s);
    AloneAtTop(v, w, v', snap, m, s);
    LoweredBounds(v, w, v');
    SameAbove(v, v', 0, w.level, k, s);
    ReadLowered(v, w, v', k, s);
    SameUpTo(w.upper, k, m.ik.seqno, s);
    if !Speaks(w.upper, k, m.ik.seqno) {
      assert Obsolete(v, w, snap, m);
      OnlyLower(w.lower, w.kept, k, m.ik.seqno, s);
      FoundSpeaks(w.lower + w.kept, k, s);
    }
  }

  lemma LoweredBounds(v: Version, w: Lowering, v': Version)
    requires Lowers(v, w, v')
    ensures w.level + 1 < NUM_LEVELS && (forall l :: 0 <= l < w.level ==> v'[l] == v[l])
  {
  }

  /** Nothing kept is visible: the lower level reads as what stayed there. */
  lemma OnlyLower(lower: set<Entry>, kept: set<Entry>, k: UserKey, s: nat, t: nat)
    requires UniqueSeq(lower) && UniqueSeq(lower + kept) && s <= t
    requires forall d :: d in kept ==> !Visible(d, k, t)
    requires forall d :: d in lower && d.ik.ukey == k ==> !(s < d.ik.seqno <= t)
    ensures Read(lower + kept, k, t) == Read(lower, k, s)
  {
    hide Read, UniqueSeq;
    SameRead(lower, k, s, lower + kept, t);
  }

  lemma FoundSpeaks(S: set<Entry>, k: UserKey, s: nat)
    requires Read(S, k, s).Found?
    ensures Speaks(S, k, s)
  {
    var e :| Newest(S, k, s, e);
  }

  // ----- When no reader is -----

  /** A reader for whom nothing above the two levels speaks, and m is the newest version. */
  lemma NewestStays(v: Version, w: Lowering, v': Version, snap: nat, k: UserKey, s: nat, m: Entry)
    requires NewerAbove(v) && UniqueSeq(VersionEntries(v)) && Lowers(v, w, v') && DropsRightly(v, w, snap)
    requires s >= snap && Newest(VersionEntries(v), k, s, m) && !Undercut(v, w, snap, m)
    requires forall l :: 0 <= l < w.level ==> !Speaks(LevelEntries(v[l]), k, s)
    ensures ReadFrom(v', w.level, k, s) == Answer(m)
  {
    hide NewerAbove, UniqueSeq, Read, LevelEntries, VersionEntries, ReadFrom;
    PartsUnique(v, w, v');
    ReadLowered(v, w, v', k, s);
    if m in w.upper {
      assert Newest(w.upper, k, s, m);
      ReadIsNewest(w.upper, k, s, m);
    } else if Speaks(w.upper, k, s) {
      UpperSpeaks(v, w, v', k, s, m);
      SameUpTo(w.upper, k, m.ik.seqno, s);
    } else if m in w.lower + w.kept {
      assert Newest(w.lower + w.kept, k, s, m);
      ReadIsNewest(w.lower + w.kept, k, s, m);
    } else if m in w.moved {
      LostBelow(v, w, v', snap, k, s, m);
    } else {
      DeeperStays(v, w, v', k, s, m);
    }
  }

  /** If an older version speaks in the upper level, the newest one has gone down. */
  lemma UpperSpeaks(v: Version, w: Lowering, v': Version, k: UserKey, s: nat, m: Entry)
    requires NewerAbove(v) && Lowers(v, w, v') && Newest(VersionEntries(v), k, s, m) && m !in w.upper
    requires Speaks(w.upper, k, s) && forall l :: 0 <= l < w.level ==> !Speaks(LevelEntries(v[l]), k, s)
    ensures m in w.moved
  {
    hide NewerAbove, LevelEntries, VersionEntries;
    var e :| e in w.upper && Visible(e, k, s);
    var l := LevelOf(v, m);
    LevelInVersion(v, w.level);
    assert l >= w.level;
    if m in w.lower {
      UpperIsNewer(v, w.level, w.level + 1, e, m);
    } else if l > w.level {
      UpperIsNewer(v, w.level, l, e, m);
    }
  }

  /** A dropped tombstone that is not undercut leaves nothing to read. */
  lemma LostBelow(v: Version, w: Lowering, v': Version, snap: nat, k: UserKey, s: nat, m: Entry)
    requires UniqueSeq(VersionEntries(v)) && Lowers(v, w, v') && DropsRightly(v, w, snap)
    requires s >= snap && Newest(VersionEntries(v), k, s, m) && !Undercut(v, w, snap, m)
    requires m in w.moved && m !in w.lower + w.kept && !Speaks(w.upper, k, s)
    ensures Answer(m) == NotFound
    ensures (if Speaks(w.lower + w.kept, k, s) then Read(w.lower + w.kept, k, s) else ReadFrom(v, w.level + 2, k, s)) == NotFound
  {
    hide UniqueSeq, Read, LevelEntries, VersionEntries, ReadFrom;
    PartsUnique(v, w, v');
    assert !HiddenIn(w.moved, snap, m);
    assert Obsolete(v, w, snap, m);
    OnlyLower(w.lower, w.kept, k, m.ik.seqno, s);
    if !Speaks(w.lower + w.kept, k, s) { SilentFrom(v, w.level + 2, k, s); }
  }

  /** A newest version further down is read as before. */
  lemma DeeperStays(v: Version, w: Lowering, v': Version, k: UserKey, s: nat, m: Entry)
    requires NewerAbove(v) && UniqueSeq(VersionEntries(v)) && Lowers(v, w, v')
    requires Newest(VersionEntries(v), k, s, m) && m !in w.upper + w.lower + w.moved
    requires forall l :: 0 <= l < w.level ==> !Speaks(LevelEntries(v[l]), k, s)
    ensures !Speaks(w.lower + w.kept, k, s) && ReadFrom(v, w.level + 2, k, s) == Answer(m)
  {
    hide NewerAbove, UniqueSeq, Read, LevelEntries, VersionEntries, ReadFrom;
    var n := LevelOf(v, m);
    forall l | 0 <= l < w.level + 2 ensures !Speaks(LevelEntries(v[l]), k, s) {
      if l >= w.level {
        forall e | e in LevelEntries(v[l]) ensures !Visible(e, k, s) {
          LevelInVersion(v, l);
          if Visible(e, k, s) {
            assert n >= w.level + 2;
            UpperIsNewer(v, l, n, e, m);
          }
        }
      }
    }
    FirstLevelDecides(v, w.level + 2, k, s);
    ReadIsNewest(VersionEntries(v), k, s, m);
  }

  lemma ReaderKept(v: Version, w: Lowering, v': Version, snap: nat, k: UserKey, s: nat)
    requires NewerAbove(v) && UniqueSeq(VersionEntries(v)) && Lowers(v, w, v') && DropsRightly(v, w, snap)
    requires NothingUndercut(v, w, snap) && s >= snap
    ensures ReadFrom(v', 0, k, s) == ReadFrom(v, 0, k, s)
  {
    hide NewerAbove, UniqueSeq, Lowers, DropsRightly, Read, LevelEntries, VersionEntries, ReadFrom, Speaks, Undercut;
    LoweredBounds(v, w, v');
    SameAbove(v, v', 0, w.level, k, s);
    if forall l :: 0 <= l < w.level ==> !Speaks(LevelEntries(v[l]), k, s) {
      FirstLevelDecides(v, 0, k, s);
      if m :| Newest(VersionEntries(v), k, s, m) {
        ReadIsNewest(VersionEntries(v), k, s, m);
        NewestStays(v, w, v', snap, k, s, m);
      } else {
        NothingToRead(v, w, v', k, s);
      }
    }
  }

  lemma NothingToRead(v: Version, w: Lowering, v': Version, k: UserKey, s: nat)
    requires UniqueSeq(VersionEntries(v)) && Lowers(v, w, v') && !exists m :: Newest(VersionEntries(v), k, s, m)
    ensures Read(VersionEntries(v), k, s) == NotFound && ReadFrom(v', w.level, k, s) == NotFound
  {
    hide UniqueSeq, Read, LevelEntries, VersionEntries, ReadFrom;
    PartsUnique(v, w, v');
    ReadLowered(v, w, v', k, s);
    forall e | e in VersionEntries(v) ensures !Visible(e, k, s) {
      if Visible(e, k, s) { NewestExists(VersionEntries(v), k, s, e); }
    }
    ReadNothing(VersionEntries(v), k, s);
    forall l | 0 <= l < NUM_LEVELS ensures !Speaks(LevelEntries(v[l]), k, s) { LevelInVersion(v, l); }
    SilentFrom(v, w.level + 2, k, s);
  }

  /** Every search from `snap` on answers as before, exactly when no version that goes down is undercut. */
  lemma SearchesKeptIff(v: Version, w: Lowering, v': Version, snap: nat)
    requires NewerAbove(v) && UniqueSeq(VersionEntries(v)) && Lowers(v, w, v') && DropsRightly(v, w, snap)
    ensures (forall k, s :: s >= snap ==> ReadFrom(v', 0, k, s) == ReadFrom(v, 0, k, s)) <==> NothingUndercut(v, w, snap)
  {
    hide NewerAbove, UniqueSeq, Lowers, DropsRightly, VersionEntries, ReadFrom, Undercut;
    if NothingUndercut(v, w, snap) {
      forall k, s | s >= snap ensures ReadFrom(v', 0, k, s) == ReadFrom(v, 0, k, s) {
        ReaderKept(v, w, v', snap, k, s);
      }
    } else {
      var m :| Undercut(v, w, snap, m);
      UndercutMisleads(v, w, v', snap, m);
    }
  }

  // ----- Compactions and moves -----

  /** The entries of the files of a level that are not chosen. */
  ghost function Left(fs: seq<File>, chosen: seq<File>): set<Entry> {
    set f, e | f in fs && f !in chosen && e in f.entries :: e
  }

  ghost function CompactionLowering(v: Version, c: Compaction, snap: nat, input: seq<Entry>): Lowering
    requires c.level + 1 < NUM_LEVELS
  {
    Lowering(c.level, Left(v[c.level], c.in0), Left(v[c.level + 1], c.in1), Elements(input),
             Elements(Survivors(v, c.level, input, snap, |input|)))
  }

  lemma LevelsBefore(v: Version, c: Compaction, input: seq<Entry>)
    requires GoodInputs(v, c) && MergedInput(c, input)
    ensures LevelEntries(v[c.level]) + LevelEntries(v[c.level + 1])
         == Left(v[c.level], c.in0) + Left(v[c.level + 1], c.in1) + Elements(input)
  {
    hide InSpan, ClosedAtLevelZero;
    forall e | e in input ensures e in LevelEntries(v[c.level]) + LevelEntries(v[c.level + 1]) {
      var h :| (h in c.in0 || h in c.in1) && e in h.entries;
    }
  }

  lemma LevelsAfter(v: Version, c: Compaction, snap: nat, input: seq<Entry>, pieces: seq<seq<Entry>>,
                    outs: seq<File>, v': Version)
    requires Compacted(v, c, snap, input, pieces, outs, v')
    ensures LevelEntries(v'[c.level]) == Left(v[c.level], c.in0)
    ensures LevelEntries(v'[c.level + 1]) == Left(v[c.level + 1], c.in1) + Elements(Survivors(v, c.level, input, snap, |input|))
  {
    var kept := Survivors(v, c.level, input, snap, |input|);
    SurvivorsAre(v, c.level, input, snap, |input|);
    hide Survivors, SortedFiles, UniqueNumbers, GoodInputs, MergedInput;
    forall e | e in LevelEntries(v'[c.level + 1]) ensures e in Left(v[c.level + 1], c.in1) || e in kept {
      var f :| f in v'[c.level + 1] && e in f.entries;
      if f in outs { var h, i := OutputEntry(v, c, snap, input, pieces, outs, v', f, e); }
    }
    forall e | e in kept ensures e in LevelEntries(v'[c.level + 1]) {
      var i :| 0 <= i < |input| && input[i] == e && !Dropped(v, c.level, input, snap, i);
      var o := SurvivorFile(v, c, snap, input, pieces, outs, v', i);
    }
  }

  lemma CompactionLowers(v: Version, c: Compaction, snap: nat, input: seq<Entry>, pieces: seq<seq<Entry>>,
                         outs: seq<File>, v': Version)
    requires Compacted(v, c, snap, input, pieces, outs, v')
    ensures Lowers(v, CompactionLowering(v, c, snap, input), v')
  {
    LevelsBefore(v, c, input);
    LevelsAfter(v, c, snap, input, pieces, outs, v');
    SurvivorsAre(v, c.level, input, snap, |input|);
    hide Survivors, SortedFiles, UniqueNumbers, GoodInputs, MergedInput, Dropped;
  }

  /** A key in range of no deeper file is in none. */
  lemma NotDeeper(v: Version, level: nat, k: UserKey)
    requires BaseLevel(v, level, k)
    ensures forall l, e :: level + 2 <= l < NUM_LEVELS && e in LevelEntries(v[l]) ==> e.ik.ukey != k
  {
    forall l, e | level + 2 <= l < NUM_LEVELS && e in LevelEntries(v[l]) ensures e.ik.ukey != k {
      var f :| f in v[l] && e in f.entries;
      KeyInFile(f, e);
    }
  }

  lemma MergeDropsRightly(v: Version, c: Compaction, snap: nat, input: seq<Entry>)
    requires c.level + 1 < NUM_LEVELS && Sorted(input) && UniqueSeq(Elements(input))
    ensures DropsRightly(v, CompactionLowering(v, c, snap, input), snap)
  {
    var w := CompactionLowering(v, c, snap, input);
    SurvivorsAre(v, c.level, input, snap, |input|);
    hide Survivors, BaseLevel, LevelEntries;
    assert IsKept(v, c.level, input, snap, w.kept);
    forall m | m in w.moved && m !in w.kept ensures HiddenIn(w.moved, snap, m) || Obsolete(v, w, snap, m) {
      var i :| 0 <= i < |input| && input[i] == m;
      MergeDrops(v, c, snap, input, i);
    }
  }

  lemma MergeDrops(v: Version, c: Compaction, snap: nat, input: seq<Entry>, i: nat)
    requires c.level + 1 < NUM_LEVELS && Sorted(input) && UniqueSeq(Elements(input))
    requires i < |input| && Dropped(v, c.level, input, snap, i)
    ensures var w := CompactionLowering(v, c, snap, input);
            HiddenIn(w.moved, snap, input[i]) || Obsolete(v, w, snap, input[i])
  {
    var w := CompactionLowering(v, c, snap, input);
    SurvivorsAre(v, c.level, input, snap, |input|);
    hide Survivors, BaseLevel, LevelEntries;
    assert IsKept(v, c.level, input, snap, w.kept);
    if Hidden(input, snap, i) {
      var j :| 0 <= j < i && input[j].ik.ukey == input[i].ik.ukey && input[j].ik.seqno <= snap;
      NewerFirst(input, j, i);
      assert KeyLess(input[j].ik, input[i].ik) && input[j] in w.moved && input[i] in w.moved;
    } else {
      NotDeeper(v, c.level, input[i].ik.ukey);
      forall d | d in w.kept && d.ik.ukey == input[i].ik.ukey ensures d.ik.seqno > snap {
        NoneKept(v, c.level, input, snap, w.kept, i, d);
      }
    }
  }

  /** Which compactions a client cannot notice, level by level search and all: those that undercut nothing. */
  lemma CompactionUnnoticedIff(v: Version, c: Compaction, snap: nat, input: seq<Entry>, pieces: seq<seq<Entry>>,
                               outs: seq<File>, v': Version)
    requires NewerAbove(v) && UniqueSeq(VersionEntries(v)) && Compacted(v, c, snap, input, pieces, outs, v')
    ensures (forall k, s :: s >= snap ==> ReadFrom(v', 0, k, s) == ReadFrom(v, 0, k, s))
       <==> NothingUndercut(v, CompactionLowering(v, c, snap, input), snap)
  {
    assert GoodInputs(v, c) && MergedInput(c, input) && Sorted(input);
    hide NewerAbove, UniqueSeq, Compacted, VersionEntries, ReadFrom, NothingUndercut, Lowers, DropsRightly, GoodInputs,
      LeftBehind, Survivors, Left;
    EntriesBefore(v, c, input);
    UniqueSubset(VersionEntries(v), Elements(input));
    CompactionLowers(v, c, snap, input, pieces, outs, v');
    MergeDropsRightly(v, c, snap, input);
    SearchesKeptIff(v, CompactionLowering(v, c, snap, input), v', snap);
  }

  ghost function MoveLowering(v: Version, L: nat, f: File): Lowering
    requires L + 1 < NUM_LEVELS
  {
    Lowering(L, Left(v[L], [f]), LevelEntries(v[L + 1]), FileEntries(f), FileEntries(f))
  }

  lemma MoveLowers(v: Version, L: nat, f: File, v': Version)
    requires MovesFile(v, L, f, v')
    ensures Lowers(v, MoveLowering(v, L, f), v')
  {
  }

  /** Which trivial moves a client cannot notice. */
  lemma MoveUnnoticedIff(v: Version, c: Compaction, v': Version, snap: nat)
    requires WellFormed(v) && NewerAbove(v) && UniqueSeq(VersionEntries(v)) && GoodInputs(v, c) && IsTrivialMove(c)
    requires Installs(v, MoveEdit(c.level, c.in0[0]), v')
    ensures (forall k, s :: s >= snap ==> ReadFrom(v', 0, k, s) == ReadFrom(v, 0, k, s))
       <==> NothingUndercut(v, MoveLowering(v, c.level, c.in0[0]), snap)
  {
    hide WellFormed, NewerAbove, UniqueSeq, VersionEntries, ReadFrom, NothingUndercut, Lowers, InSpan, ClosedAtLevelZero,
      Installs, MoveEdit, MovesFile;
    var f := c.in0[0];
    assert f in c.in0;
    MoveEditMoves(v, c.level, f, v');
    MoveLowers(v, c.level, f, v');
    SearchesKeptIff(v, MoveLowering(v, c.level, f), v', snap);
  }
}
