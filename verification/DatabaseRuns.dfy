/** What every run of the database keeps: reads agree with the history of writes, and
    everything written can be recovered. */
module DatabaseRuns {
  import opened DbFormat
  import opened Versions
  import opened Inputs
  import opened Compactions
  import opened VersionEdits
  import opened Recovery
  import opened Database

  /** A file number names one file, at one level. */
  ghost predicate GloballyUnique(v: Version) {
    forall l, m, f, g :: 0 <= l < NUM_LEVELS && 0 <= m < NUM_LEVELS && f in v[l] && g in v[m] && f.number == g.number ==>
      l == m && f == g
  }

  ghost predicate TreeOk(v: Version) {
    WellFormed(v) && NewerAbove(v) && GloballyUnique(v)
  }

  /** A live file has only ever been added at its present level or above it. */
  ghost predicate MovedDown(edits: seq<VersionEdit>, v: Version) {
    forall l, m, f, g ::
      && 0 <= l < NUM_LEVELS && 0 <= m < NUM_LEVELS && f in v[l]
      && g in AllAdded(edits, |edits|, m) && g.number == f.number
      ==> m <= l
  }

  ghost predicate NumbersBelow(edits: seq<VersionEdit>, v: Version, n: nat) {
    && (forall l, f :: 0 <= l < NUM_LEVELS && f in AllAdded(edits, |edits|, l) ==> f.number < n)
    && (forall l, f :: 0 <= l < NUM_LEVELS && f in v[l] ==> f.number < n)
  }

  /** Installing the edits one by one from nothing reaches v. */
  ghost predicate Reaches(edits: seq<VersionEdit>, v: Version) {
    exists vs :: InstallsAll(edits, vs) && vs[0] == EMPTY_VERSION && vs[|edits|] == v
  }

  ghost predicate ManifestOk(edits: seq<VersionEdit>, nextFile: nat, v: Version) {
    && WellLevelled(edits) && NeverReAdds(EMPTY_VERSION, edits) && Reaches(edits, v)
    && MovedDown(edits, v) && NumbersBelow(edits, v, nextFile)
  }

  /** Replaying the live logs yields entries newer than everything in tables. */
  ghost predicate LogsOk(logs: map<nat, seq<Entry>>, m: Manifest, v: Version, dropped: set<Entry>) {
    && LogsInOrder(logs, m.logNumber)
    && (forall d, e :: d in VersionEntries(v) && e in LiveEntries(logs, m.logNumber) ==> d.ik.seqno < e.ik.seqno)
    && (forall d :: d in VersionEntries(v) + dropped ==> d.ik.seqno <= m.lastSequence)
  }

  /** Every entry ever logged is in a table, in a log that is kept and replayed, or was
      dropped by a compaction; and no read from `floor` on can tell that any was dropped. */
  ghost predicate HistoryOk(held: set<Entry>, history: set<Entry>, dropped: set<Entry>, floor: nat) {
    && history == held + dropped
    && UniqueSeq(history)
    && (forall e :: e in history ==> e.ik.seqno < MAX_SEQUENCE_NUMBER)
    && (forall k, s :: s >= floor ==> Read(held, k, s) == Read(history, k, s))
  }

  /** How the memtables mirror the live logs. */
  ghost predicate LogsMirror(db: Db) {
    && db.logfile in db.logs && db.manifest.logNumber <= db.logfile
    && db.logs[db.logfile] == db.mem + db.pending
    && (forall n :: n in db.logs && n >= db.manifest.logNumber && n != db.logfile ==>
          n < db.logfile && forall e :: e in db.logs[n] ==> db.imm.Some? && e in db.imm.value)
    && (db.imm.Some? ==>
          && SeqIncreasing(db.imm.value)
          && forall e :: e in db.imm.value ==>
               exists n :: n in db.logs && db.manifest.logNumber <= n < db.logfile && e in db.logs[n])
  }

  ghost predicate CountersOk(db: Db) {
    && db.manifest.lastSequence <= db.lastSequence < MAX_SEQUENCE_NUMBER
    && db.manifest.nextFile <= db.nextFile && db.logfile < db.nextFile
    && (forall e :: e in db.mem ==> e.ik.seqno <= db.lastSequence)
    && (db.imm.Some? ==> forall e :: e in db.imm.value ==> e.ik.seqno <= db.lastSequence)
    && (forall i :: 0 <= i < |db.pending| ==> db.pending[i].ik.seqno == db.lastSequence + 1 + i)
    && db.lastSequence + |db.pending| < MAX_SEQUENCE_NUMBER
    && db.floor <= db.lastSequence
    && (forall i :: 0 <= i < |db.snapshots| ==> db.floor <= db.snapshots[i] <= db.lastSequence)
    && (forall i, j :: 0 <= i < j < |db.snapshots| ==> db.snapshots[i] <= db.snapshots[j])
  }

  ghost predicate Inv(db: Db) {
    && TreeOk(db.version)
    && ManifestOk(db.manifest.edits, db.manifest.nextFile, db.version)
    && db.manifest.logNumber < db.manifest.nextFile && db.manifest.lastSequence < MAX_SEQUENCE_NUMBER
    && Files(db.version) <= db.tables
    && LogsOk(db.logs, db.manifest, db.version, db.dropped)
    && HistoryOk(Held(db), db.history, db.dropped, db.floor)
    && (db.up ==> LogsMirror(db) && CountersOk(db))
  }

  // ----- Extending the manifest by one edit -----

  lemma {:induction false} AllAddedPrefix(es: seq<VersionEdit>, e: VersionEdit, n: nat, l: nat)
    requires n <= |es|
    ensures AllAdded(es + [e], n, l) == AllAdded(es, n, l)
  {
    if n > 0 { AllAddedPrefix(es, e, n - 1, l); }
  }

  lemma AllAddedAppend(es: seq<VersionEdit>, e: VersionEdit, l: nat)
    ensures AllAdded(es + [e], |es| + 1, l) == AllAdded(es, |es|, l) + AddedAt(e, l)
  {
    AllAddedPrefix(es, e, |es|, l);
  }

  /** The edit brings no number to a level twice. */
  ghost predicate FreshEdit(es: seq<VersionEdit>, e: VersionEdit) {
    forall l :: 0 <= l < NUM_LEVELS ==> FreshAt(AllAdded(es, |es|, l), AddedAt(e, l))
  }

  lemma ExtendNeverReAdds(es: seq<VersionEdit>, e: VersionEdit)
    requires NeverReAdds(EMPTY_VERSION, es) && FreshEdit(es, e)
    ensures NeverReAdds(EMPTY_VERSION, es + [e])
  {
    var es' := es + [e];
    forall i, l, f, g | 0 <= i < |es'| && 0 <= l < NUM_LEVELS && f in AddedAt(es'[i], l) &&
      (g in EMPTY_VERSION[l] || g in AllAdded(es', i, l) || (g in AddedAt(es'[i], l) && g != f))
      ensures f.number != g.number
    {
      AllAddedPrefix(es, e, i, l);
      if i < |es| { assert es'[i] == es[i]; }
    }
  }

  lemma ExtendReaches(es: seq<VersionEdit>, e: VersionEdit, v: Version, v': Version)
    requires Reaches(es, v) && Installs(v, e, v')
    ensures Reaches(es + [e], v')
  {
    var vs :| InstallsAll(es, vs) && vs[0] == EMPTY_VERSION && vs[|es|] == v;
    var vs' := vs + [v'];
    var es' := es + [e];
    forall i | 0 <= i < |es'| ensures Installs(vs'[i], es'[i], vs'[i + 1]) {
      if i < |es| { assert Installs(vs[i], es[i], vs[i + 1]); }
    }
    assert InstallsAll(es', vs') && vs'[0] == EMPTY_VERSION && vs'[|es'|] == v';
  }

  lemma ExtendWellLevelled(es: seq<VersionEdit>, e: VersionEdit)
    requires WellLevelled(es) && WellLevelled([e])
    ensures WellLevelled(es + [e])
  {
    assert [e][0] == e;
  }

  /** The edit adds a number only at or above the level where it then lives. */
  ghost predicate AddsAbove(es: seq<VersionEdit>, e: VersionEdit, v': Version) {
    forall l, m, f: File, g: File ::
      && 0 <= l < NUM_LEVELS && 0 <= m < NUM_LEVELS && f in v'[l] && g.number == f.number
      && (g in AddedAt(e, m) || (f in AddedAt(e, l) && g in AllAdded(es, |es|, m)))
      ==> m <= l
  }

  lemma InstalledFrom(v: Version, e: VersionEdit, v': Version, l: nat, f: File)
    requires Installs(v, e, v') && l < NUM_LEVELS && f in v'[l]
    ensures f in v[l] || f in AddedAt(e, l)
  {
    assert f in FileSet(v'[l]);
  }

  lemma ExtendMovedDown(es: seq<VersionEdit>, v: Version, e: VersionEdit, v': Version)
    requires MovedDown(es, v) && Installs(v, e, v') && AddsAbove(es, e, v')
    ensures MovedDown(es + [e], v')
  {
    var es' := es + [e];
    forall l, m, f, g |
      && 0 <= l < NUM_LEVELS && 0 <= m < NUM_LEVELS && f in v'[l]
      && g in AllAdded(es', |es'|, m) && g.number == f.number
      ensures m <= l
    {
      AllAddedAppend(es, e, m);
      InstalledFrom(v, e, v', l, f);
    }
  }

  lemma ExtendNumbers(es: seq<VersionEdit>, v: Version, nextFile: nat, e: VersionEdit, v': Version, nextFile': nat)
    requires NumbersBelow(es, v, nextFile) && Installs(v, e, v') && nextFile' >= nextFile
    requires forall l, f :: 0 <= l < NUM_LEVELS && f in AddedAt(e, l) ==> f.number < nextFile'
    ensures NumbersBelow(es + [e], v', nextFile')
  {
    forall l ensures AllAdded(es + [e], |es + [e]|, l) == AllAdded(es, |es|, l) + AddedAt(e, l) {
      AllAddedAppend(es, e, l);
    }
    forall l, f | 0 <= l < NUM_LEVELS && f in v'[l] ensures f.number < nextFile' {
      InstalledFrom(v, e, v', l, f);
    }
  }

  lemma ExtendManifest(es: seq<VersionEdit>, nextFile: nat, v: Version, e: VersionEdit, v': Version, nextFile': nat)
    requires ManifestOk(es, nextFile, v) && WellLevelled([e]) && FreshEdit(es, e) && Installs(v, e, v')
    requires nextFile' >= nextFile && AddsAbove(es, e, v')
    requires forall l, f :: 0 <= l < NUM_LEVELS && f in AddedAt(e, l) ==> f.number < nextFile'
    ensures ManifestOk(es + [e], nextFile', v')
  {
    ExtendWellLevelled(es, e);
    ExtendNeverReAdds(es, e);
    ExtendReaches(es, e, v, v');
    ExtendMovedDown(es, v, e, v');
    ExtendNumbers(es, v, nextFile, e, v', nextFile');
  }

  /** Below every earlier number nothing clashes. */
  lemma NewNumbersAreFresh(es: seq<VersionEdit>, nextFile: nat, v: Version, e: VersionEdit)
    requires NumbersBelow(es, v, nextFile)
    requires forall l, f :: 0 <= l < NUM_LEVELS && f in AddedAt(e, l) ==> f.number >= nextFile
    requires forall l, f, g :: 0 <= l < NUM_LEVELS && f in AddedAt(e, l) && g in AddedAt(e, l) && f != g ==> f.number != g.number
    ensures FreshEdit(es, e)
  {
  }

  // ----- Reads -----

  /** A read does not notice entries it cannot see. */
  lemma ReadIgnores(S: set<Entry>, B: set<Entry>, k: UserKey, s: nat)
    requires UniqueSeq(S + B) && forall b :: b in B ==> !Visible(b, k, s)
    ensures Read(S + B, k, s) == Read(S, k, s)
  {
    forall m | Newest(S + B, k, s, m) ensures m in S {}
    ReadAfterDrop(S + B, S, k, s);
  }

  /** Newer entries on top of two databases that answer alike keep them alike. */
  lemma ReadAddNewer(S: set<Entry>, T: set<Entry>, B: set<Entry>, k: UserKey, s: nat)
    requires S <= T && UniqueSeq(T + B) && Read(S, k, s) == Read(T, k, s)
    requires forall t, b :: t in T && b in B ==> t.ik.seqno < b.ik.seqno
    ensures Read(S + B, k, s) == Read(T + B, k, s)
  {
    if b :| b in B && Visible(b, k, s) {
      NewestExists(B, k, s, b);
      var m :| Newest(B, k, s, m);
      assert Newest(S + B, k, s, m) && Newest(T + B, k, s, m);
      ReadIsNewest(S + B, k, s, m);
      ReadIsNewest(T + B, k, s, m);
    } else {
      ReadIgnores(S, B, k, s);
      ReadIgnores(T, B, k, s);
    }
  }

  /** Beyond the newest sequence number all snapshots read alike. */
  lemma ReadSaturates(S: set<Entry>, k: UserKey, s: nat, t: nat)
    requires UniqueSeq(S) && forall e :: e in S ==> e.ik.seqno <= s
    requires s <= t
    ensures Read(S, k, s) == Read(S, k, t)
  {
    assert forall e :: e in S ==> (Visible(e, k, s) <==> Visible(e, k, t));
    if m :| Newest(S, k, s, m) {
      assert Newest(S, k, t, m);
      ReadIsNewest(S, k, s, m);
      ReadIsNewest(S, k, t, m);
    } else {
      forall e | e in S ensures !Visible(e, k, t) {
        if Visible(e, k, t) { NewestExists(S, k, s, e); }
      }
      ReadNothing(S, k, t);
    }
  }

  // ----- Writes, snapshots, memtable switch -----

  lemma HistoryBound(db: Db)
    requires Inv(db) && db.up
    ensures forall e :: e in db.history && e !in db.pending ==> e.ik.seqno <= db.lastSequence
  {
    forall e | e in db.history && e !in db.pending ensures e.ik.seqno <= db.lastSequence {
      if e in Live(db) {
        var n :| n in db.logs && n >= db.manifest.logNumber && e in db.logs[n];
        if n == db.logfile { assert e in db.mem + db.pending; }
      }
    }
  }

  /** Newer entries that go both into what is held and into the history. */
  lemma HistoryGrows(held: set<Entry>, history: set<Entry>, dropped: set<Entry>, floor: nat, B: set<Entry>, last: nat)
    requires HistoryOk(held, history, dropped, floor) && UniqueSeq(B)
    requires forall e :: e in history ==> e.ik.seqno <= last
    requires forall e :: e in B ==> last < e.ik.seqno < MAX_SEQUENCE_NUMBER
    ensures HistoryOk(held + B, history + B, dropped, floor)
  {
    assert UniqueSeq(history + B) by {
      forall d, e | d in history + B && e in history + B && d.ik.seqno == e.ik.seqno ensures d == e {}
    }
    forall k, s | s >= floor ensures Read(held + B, k, s) == Read(history + B, k, s) {
      ReadAddNewer(held, history, B, k, s);
    }
  }

  lemma StampFacts(last: nat, ops: seq<Op>)
    requires last + |ops| < MAX_SEQUENCE_NUMBER
    ensures SeqIncreasing(Stamp(last, ops)) && UniqueSeq(Elements(Stamp(last, ops)))
    ensures forall e :: e in Stamp(last, ops) ==> last < e.ik.seqno < MAX_SEQUENCE_NUMBER
  {
  }

  lemma LiveInHistory(db: Db)
    requires Inv(db)
    ensures forall e :: e in Live(db) ==> e in db.history
  {
  }

  lemma AppendRecordInv(db: Db, ops: seq<Op>, db': Db)
    requires Inv(db) && AppendRecord(db, ops, db')
    ensures Inv(db')
  {
    AppendMirrors(db, ops, db');
    AppendContents(db, ops, db');
    hide TreeOk, ManifestOk, Files, LogsMirror, CountersOk, LogsOk, HistoryOk, Held, Live;
  }

  lemma AppendMirrors(db: Db, ops: seq<Op>, db': Db)
    requires LogsMirror(db) && CountersOk(db) && AppendRecord(db, ops, db')
    ensures LogsMirror(db') && CountersOk(db')
  {
    var batch := Stamp(db.lastSequence, ops);
    assert db.mem + db.pending + batch == db'.mem + db'.pending;
    assert forall n :: n in db.logs && n != db.logfile ==> db'.logs[n] == db.logs[n];
  }

  lemma AppendContents(db: Db, ops: seq<Op>, db': Db)
    requires Inv(db) && AppendRecord(db, ops, db')
    ensures LogsOk(db'.logs, db'.manifest, db'.version, db'.dropped)
    ensures HistoryOk(Held(db'), db'.history, db'.dropped, db'.floor)
  {
    var batch := Stamp(db.lastSequence, ops);
    HistoryBound(db);
    LiveInHistory(db);
    hide TreeOk, ManifestOk, Files, HistoryOk;
    StampFacts(db.lastSequence, ops);
    LogGrows(db.logs, db.logfile, batch, db.manifest.logNumber, db.lastSequence);
    assert Held(db') == Held(db) + Elements(batch);
    HistoryGrows(Held(db), db.history, db.dropped, db.floor, Elements(batch), db.lastSequence);
    AppendKeepsLogsOk(db, batch, db');
  }

  lemma AppendKeepsLogsOk(db: Db, batch: seq<Entry>, db': Db)
    requires LogsOk(db.logs, db.manifest, db.version, db.dropped)
    requires db'.manifest == db.manifest && db'.version == db.version && db'.dropped == db.dropped
    requires LogsInOrder(db'.logs, db.manifest.logNumber)
    requires Live(db') == Live(db) + Elements(batch)
    requires forall e :: e in batch ==> db.manifest.lastSequence < e.ik.seqno
    ensures LogsOk(db'.logs, db'.manifest, db'.version, db'.dropped)
  {
  }

  lemma LogStaysInOrder(logs: map<nat, seq<Entry>>, n: nat, batch: seq<Entry>, minLog: nat, last: nat)
    requires n in logs && n >= minLog && LogsInOrder(logs, minLog)
    requires forall m :: m in logs && m >= minLog ==> m <= n
    requires forall m, e :: m in logs && m >= minLog && e in logs[m] ==> e.ik.seqno <= last
    requires SeqIncreasing(batch) && forall e :: e in batch ==> last < e.ik.seqno
    ensures LogsInOrder(logs[n := logs[n] + batch], minLog)
  {
    var logs' := logs[n := logs[n] + batch];
    AppendIncreasing(logs[n], batch, last);
    forall m, o, d, e | m in logs' && o in logs' && minLog <= m < o && d in logs'[m] && e in logs'[o]
      ensures d.ik.seqno < e.ik.seqno
    {
      assert m != n;
      if o == n && e in batch { assert d.ik.seqno <= last; }
    }
  }

  lemma LogGrows(logs: map<nat, seq<Entry>>, n: nat, batch: seq<Entry>, minLog: nat, last: nat)
    requires n in logs && n >= minLog && LogsInOrder(logs, minLog)
    requires forall m :: m in logs && m >= minLog ==> m <= n
    requires forall e :: e in LiveEntries(logs, minLog) ==> e.ik.seqno <= last
    requires SeqIncreasing(batch) && forall e :: e in batch ==> last < e.ik.seqno
    ensures LogsInOrder(logs[n := logs[n] + batch], minLog)
    ensures LiveEntries(logs[n := logs[n] + batch], minLog) == LiveEntries(logs, minLog) + Elements(batch)
  {
    hide LogsInOrder, SeqIncreasing;
    var logs' := logs[n := logs[n] + batch];
    forall m, e | m in logs && m >= minLog && e in logs[m] ensures e.ik.seqno <= last {
      assert e in LiveEntries(logs, minLog);
    }
    LogStaysInOrder(logs, n, batch, minLog, last);
    forall e ensures e in LiveEntries(logs', minLog) <==> e in LiveEntries(logs, minLog) || e in batch {
      if e in batch { assert e in logs'[n]; }
      if e in LiveEntries(logs, minLog) {
        var m :| m in logs && m >= minLog && e in logs[m];
        assert e in logs'[m];
      }
    }
  }

  lemma AppendIncreasing(a: seq<Entry>, b: seq<Entry>, last: nat)
    requires SeqIncreasing(a) && SeqIncreasing(b)
    requires (forall e :: e in a ==> e.ik.seqno <= last) && forall e :: e in b ==> last < e.ik.seqno
    ensures SeqIncreasing(a + b)
  {
    forall i, j | 0 <= i < j < |a + b| ensures (a + b)[i].ik.seqno < (a + b)[j].ik.seqno {
      if i < |a| <= j { assert (a + b)[i] in a && (a + b)[j] in b; }
    }
  }

  lemma ApplyBatchInv(db: Db, db': Db)
    requires Inv(db) && ApplyBatch(db, db')
    ensures Inv(db')
  {
    ApplyMirrors(db, db');
    hide TreeOk, ManifestOk, LogsOk, HistoryOk, Files, LogsMirror, CountersOk;
    assert Held(db') == Held(db);
  }

  lemma ApplyMirrors(db: Db, db': Db)
    requires LogsMirror(db) && CountersOk(db) && ApplyBatch(db, db')
    ensures LogsMirror(db') && CountersOk(db')
  {
    assert db.mem + db.pending == db'.mem + db'.pending;
  }

  lemma SnapshotInv(db: Db, i: nat, db': Db)
    requires Inv(db) && (GetSnapshot(db, db') || ReleaseSnapshot(db, i, db'))
    ensures Inv(db')
  {
    hide TreeOk, ManifestOk, LogsOk, HistoryOk, Files;
    assert Held(db') == Held(db);
  }

  lemma SwitchMemtableInv(db: Db, db': Db)
    requires Inv(db) && SwitchMemtable(db, db')
    ensures Inv(db')
  {
    hide TreeOk, ManifestOk, Files, HistoryOk;
    assert db.logs[db.logfile] == db.mem + [] == db.mem;
    assert db'.logs[db'.logfile] == [] == db'.mem + db'.pending;
    NewLog(db.logs, db.nextFile, db.manifest.logNumber);
    assert Held(db') == Held(db);
  }

  /** Creating an empty log under a new number changes nothing that is replayed. */
  lemma NewLog(logs: map<nat, seq<Entry>>, n: nat, minLog: nat)
    requires LogsInOrder(logs, minLog) && forall m :: m in logs && m >= minLog ==> m < n
    requires minLog <= n
    ensures LogsInOrder(logs[n := []], minLog)
    ensures LiveEntries(logs[n := []], minLog) == LiveEntries(logs, minLog)
  {
    var logs' := logs[n := []];
    forall e | e in LiveEntries(logs, minLog) ensures e in LiveEntries(logs', minLog) {
      var m :| m in logs && m >= minLog && e in logs[m];
      assert e in logs'[m];
    }
  }

  lemma CrashInv(db: Db, db': Db)
    requires Inv(db) && Crash(db, db')
    ensures Inv(db')
  {
    hide TreeOk, ManifestOk, LogsOk, HistoryOk, Files, LogsMirror, CountersOk;
    assert Held(db') == Held(db);
  }

  lemma SameCounters(db: Db, db': Db)
    requires CountersOk(db) && db' == db.(logs := db'.logs, tables := db'.tables)
    ensures CountersOk(db')
  {
  }

  /** Only logs that recovery ignores have gone. */
  lemma SameLiveLogs(db: Db, db': Db)
    requires LogsMirror(db) && LogsOk(db.logs, db.manifest, db.version, db.dropped)
    requires db' == db.(logs := db'.logs, tables := db'.tables)
    requires forall n :: n in db.logs && n >= db.manifest.logNumber ==> n in db'.logs && db'.logs[n] == db.logs[n]
    requires forall n :: n in db'.logs ==> n in db.logs && n >= db.manifest.logNumber && db'.logs[n] == db.logs[n]
    ensures Live(db') == Live(db)
    ensures LogsMirror(db') && LogsOk(db'.logs, db'.manifest, db'.version, db'.dropped)
  {
    forall e | e in Live(db) ensures e in Live(db') {
      var n :| n in db.logs && n >= db.manifest.logNumber && e in db.logs[n];
      assert e in db'.logs[n];
    }
  }

  lemma DeleteObsoleteFilesInv(db: Db, pinned: set<nat>, db': Db)
    requires Inv(db) && DeleteObsoleteFiles(db, pinned, db')
    ensures Inv(db')
  {
    assert forall n :: n in db.logs && n >= db.manifest.logNumber ==> n in db'.logs && db'.logs[n] == db.logs[n];
    assert forall n :: n in db'.logs ==> n in db.logs && n >= db.manifest.logNumber && db'.logs[n] == db.logs[n];
    SameLiveLogs(db, db');
    hide TreeOk, ManifestOk, HistoryOk, Files, CountersOk, LogsMirror, LogsOk;
    assert Held(db') == Held(db);
    SameCounters(db, db');
  }

  /** With nothing pinned, what is left on disk is what the database needs and no more. */
  lemma DeletionIsComplete(db: Db, db': Db)
    requires Inv(db) && DeleteObsoleteFiles(db, {}, db')
    ensures db'.tables == Files(db.version)
    ensures forall n :: n in db'.logs <==> n in db.logs && n >= db.manifest.logNumber
    ensures Held(db') == Held(db)
  {
    hide TreeOk, ManifestOk, HistoryOk, LogsOk, LogsMirror, CountersOk;
    SameLiveLogs(db, db');
  }

  // ----- Flush -----

  lemma SameFiles(v: Version, e: VersionEdit, v': Version, l: nat)
    requires Installs(v, e, v') && l < NUM_LEVELS && SortedFiles(v[l]) && AddedAt(e, l) == {} && DeletedAt(e, l) == {}
    ensures v'[l] == v[l]
  {
    assert FileSet(v'[l]) == FileSet(v[l]);
    SortedUnique(v'[l], v[l]);
  }

  lemma Inserted(v: Version, e: VersionEdit, v': Version, l: nat, f: File)
    requires Installs(v, e, v') && l < NUM_LEVELS && AddedAt(e, l) == {f} && DeletedAt(e, l) == {}
    ensures LevelGains(v[l], f, v'[l])
  {
    forall g ensures g in v'[l] <==> g in v[l] || g == f {
      assert g in v'[l] <==> g in FileSet(v'[l]);
    }
  }

  ghost predicate LevelGains(fs: seq<File>, f: File, fs': seq<File>) {
    forall g :: g in fs' <==> g in fs || g == f
  }

  ghost predicate LevelLoses(fs: seq<File>, f: File, fs': seq<File>) {
    forall g :: g in fs' <==> g in fs && g != f
  }

  /** v' is v with f added at one level. */
  ghost predicate AddsFile(v: Version, level: nat, f: File, v': Version) {
    && level < NUM_LEVELS
    && (forall l :: 0 <= l < NUM_LEVELS && l != level ==> v'[l] == v[l])
    && LevelGains(v[level], f, v'[level])
    && SortedFiles(v'[level])
  }

  lemma FlushAddsFile(v: Version, es: seq<Entry>, level: nat, f: File, v': Version)
    requires WellFormed(v) && es != [] && level < NUM_LEVELS && Installs(v, FlushEdit(es, level, f), v')
    ensures AddsFile(v, level, f, v')
  {
    var e := FlushEdit(es, level, f);
    assert e.newFiles[0] == (level, f);
    assert AddedAt(e, level) == {f};
    forall l | 0 <= l < NUM_LEVELS && l != level ensures v'[l] == v[l] {
      SameFiles(v, e, v', l);
    }
    Inserted(v, e, v', level, f);
  }

  /** Files of the levels passed on the way down share no user key with f. */
  lemma PassedLevel(fs: seq<File>, f: File, g: File)
    requires g in fs && Clear(fs, f.Smallest().ukey, f.Largest().ukey)
    ensures Disjoint(f, g) && Newer(g, f)
  {
    FileRange(g);
    FileRange(f);
    forall d, e | d in g.entries && e in f.entries ensures d.ik.ukey != e.ik.ukey {
      KeyInFile(g, d);
      KeyInFile(f, e);
    }
  }

  /** A file of new entries, under a new number, at a level it may go to. */
  lemma NewFileTree(v: Version, level: nat, f: File, v': Version)
    requires TreeOk(v) && AddsFile(v, level, f, v') && GoodLevel(v, level, f)
    requires forall l, g :: 0 <= l < NUM_LEVELS && g in v[l] ==> g.number < f.number && Newer(f, g)
    ensures TreeOk(v')
  {
    if level > 0 {
      forall l, g | 0 <= l <= level && g in v[l] ensures Disjoint(f, g) && Newer(g, f) {
        PassedLevel(v[l], f, g);
      }
    }
    hide Newer, Clear;
    NewFileAge(v, level, f, v');
    NewFileStructure(v, level, f, v');
  }

  lemma NewFileStructure(v: Version, level: nat, f: File, v': Version)
    requires WellFormed(v) && GloballyUnique(v) && AddsFile(v, level, f, v')
    requires forall l, g :: 0 <= l < NUM_LEVELS && g in v[l] ==> g.number < f.number
    requires level > 0 ==> forall g :: g in v[level] ==> Disjoint(f, g)
    ensures WellFormed(v') && GloballyUnique(v')
  {
    hide BySmallestKey;
  }

  lemma NewFileAge(v: Version, level: nat, f: File, v': Version)
    requires NewerAbove(v) && AddsFile(v, level, f, v')
    requires forall l, g :: 0 <= l < NUM_LEVELS && g in v[l] ==> g.number < f.number && Newer(f, g)
    requires level > 0 ==> forall l, g :: 0 <= l <= level && g in v[l] ==> Newer(g, f)
    ensures NewerAbove(v')
  {
    forall l, m, g, h | 0 <= l < m < NUM_LEVELS && g in v'[l] && h in v'[m] ensures Newer(g, h) {
      if m == level && h == f {
        assert Newer(g, f);
      } else if l == level && g == f {
        assert Newer(f, h);
      } else {
        assert g in v[l] && h in v[m];
      }
    }
  }

  lemma AddedEntries(v: Version, level: nat, f: File, v': Version)
    requires AddsFile(v, level, f, v')
    ensures VersionEntries(v') == VersionEntries(v) + FileEntries(f)
    ensures Files(v') == Files(v) + {f.number}
  {
    forall l, g | 0 <= l < NUM_LEVELS && g in v[l] ensures g in v'[l] {}
    assert f in v'[level];
  }

  /** The live logs split into the immutable memtable and the current log. */
  lemma LiveSplits(db: Db)
    requires LogsMirror(db)
    ensures Live(db) == (if db.imm.Some? then Elements(db.imm.value) else {}) + Elements(db.logs[db.logfile])
    ensures LiveEntries(db.logs, db.logfile) == Elements(db.logs[db.logfile])
  {
    forall e | e in Live(db)
      ensures (db.imm.Some? && e in db.imm.value) || e in db.logs[db.logfile]
    {
      var n :| n in db.logs && n >= db.manifest.logNumber && e in db.logs[n];
    }
  }

  lemma MirrorBounds(db: Db)
    requires LogsMirror(db)
    ensures db.logfile in db.logs && db.manifest.logNumber <= db.logfile
  {
  }

  lemma ImmBeforeMem(db: Db)
    requires LogsMirror(db) && LogsInOrder(db.logs, db.manifest.logNumber) && db.imm.Some?
    ensures forall d, e :: d in db.imm.value && e in db.logs[db.logfile] ==> d.ik.seqno < e.ik.seqno
  {
  }

  ghost predicate AllNewer(S: set<Entry>, v: Version) {
    forall d, e :: d in VersionEntries(v) && e in S ==> d.ik.seqno < e.ik.seqno
  }

  lemma TableIsNewer(v: Version, f: File, l: nat, g: File)
    requires AllNewer(FileEntries(f), v) && l < NUM_LEVELS && g in v[l]
    ensures Newer(f, g)
  {
    assert forall d :: d in g.entries ==> d in VersionEntries(v);
    assert forall d :: d in f.entries ==> d in FileEntries(f);
  }

  /** What a flush does to the version, whether or not there is anything to write. */
  lemma FlushTree(v: Version, es: seq<Entry>, number: nat, level: nat, f: File, v': Version)
    requires TreeOk(v) && AllNewer(Elements(es), v)
    requires forall l, g :: 0 <= l < NUM_LEVELS && g in v[l] ==> g.number < number
    requires es != [] ==> IsTableOf(f, number, es) && GoodLevel(v, level, f)
    requires Installs(v, FlushEdit(es, level, f), v')
    ensures TreeOk(v')
    ensures VersionEntries(v') == VersionEntries(v) + Elements(es)
    ensures Files(v') == Files(v) + if es == [] then {} else {number}
  {
    if es == [] {
      forall l | 0 <= l < NUM_LEVELS ensures v'[l] == v[l] { SameFiles(v, FlushEdit(es, level, f), v', l); }
      assert v' == v;
    } else {
      FlushAddsFile(v, es, level, f, v');
      AddedEntries(v, level, f, v');
      assert FileEntries(f) == Elements(es);
      hide Installs, Newer, VersionEntries, WellFormed, NewerAbove, GloballyUnique, Files, FileEntries;
      forall l, g | 0 <= l < NUM_LEVELS && g in v[l] ensures g.number < f.number && Newer(f, g) {
        TableIsNewer(v, f, l, g);
      }
      NewFileTree(v, level, f, v');
    }
  }

  lemma FlushManifest(edits: seq<VersionEdit>, nextFile: nat, v: Version, es: seq<Entry>, number: nat,
                      level: nat, f: File, v': Version)
    requires ManifestOk(edits, nextFile, v) && GloballyUnique(v') && nextFile <= number
    requires es != [] ==> IsTableOf(f, number, es) && GoodLevel(v, level, f)
    requires Installs(v, FlushEdit(es, level, f), v')
    ensures ManifestOk(edits + [FlushEdit(es, level, f)], number + 1, v')
  {
    var e := FlushEdit(es, level, f);
    assert WellLevelled([e]);
    assert forall l, g :: 0 <= l < NUM_LEVELS && g in AddedAt(e, l) ==> l == level && g == f && g.number == number;
    NewNumbersAreFresh(edits, nextFile, v, e);
    NewFilesAbove(edits, nextFile, v, e, level, v');
    ExtendManifest(edits, nextFile, v, e, v', number + 1);
  }

  /** New numbers, all at one level. */
  lemma NewFilesAbove(edits: seq<VersionEdit>, nextFile: nat, v: Version, e: VersionEdit, level: nat, v': Version)
    requires NumbersBelow(edits, v, nextFile) && Installs(v, e, v')
    requires forall l, g :: 0 <= l < NUM_LEVELS && g in AddedAt(e, l) ==> l == level && g.number >= nextFile
    ensures AddsAbove(edits, e, v')
  {
    forall l, m, g: File, h: File |
      && 0 <= l < NUM_LEVELS && 0 <= m < NUM_LEVELS && g in v'[l] && h.number == g.number
      && (h in AddedAt(e, m) || (g in AddedAt(e, l) && h in AllAdded(edits, |edits|, m)))
      ensures m <= l
    {
      InstalledFrom(v, e, v', l, g);
    }
  }

  lemma FlushLogs(db: Db, level: nat, f: File, v': Version, db': Db)
    requires LogsOk(db.logs, db.manifest, db.version, db.dropped) && LogsMirror(db) && CountersOk(db)
    requires Flush(db, level, f, v', db')
    requires VersionEntries(v') == VersionEntries(db.version) + Elements(db.imm.value)
    ensures Held(db') == Held(db)
    ensures LogsOk(db'.logs, db'.manifest, v', db'.dropped)
  {
    hide Installs, VersionEntries, Files, GoodLevel, IsTableOf, LogsInOrder, LogsMirror, LiveEntries;
    MirrorBounds(db);
    LiveSplits(db);
    ImmBeforeMem(db);
    NewerFloor(db.logs, db.manifest.logNumber, db.logfile);
    assert db'.manifest.logNumber == db.logfile && db'.logs == db.logs;
    assert Elements(db.logs[db.logfile]) <= Live(db);
  }

  lemma NewerFloor(logs: map<nat, seq<Entry>>, minLog: nat, minLog': nat)
    requires LogsInOrder(logs, minLog) && minLog <= minLog'
    ensures LogsInOrder(logs, minLog')
  {
  }

  lemma FlushMirrors(db: Db, level: nat, f: File, v': Version, db': Db)
    requires LogsMirror(db) && CountersOk(db) && Flush(db, level, f, v', db')
    ensures LogsMirror(db') && CountersOk(db')
  {
    hide Installs, VersionEntries, Files, GoodLevel, IsTableOf;
  }

  lemma ImmIsNewer(db: Db)
    requires LogsMirror(db) && LogsOk(db.logs, db.manifest, db.version, db.dropped) && db.imm.Some?
    ensures AllNewer(Elements(db.imm.value), db.version)
  {
    LiveSplits(db);
  }

  lemma VersionNumbers(edits: seq<VersionEdit>, nextFile: nat, v: Version)
    requires ManifestOk(edits, nextFile, v)
    ensures forall l, g :: 0 <= l < NUM_LEVELS && g in v[l] ==> g.number < nextFile
  {
  }

  lemma FlushInv(db: Db, level: nat, f: File, v': Version, db': Db)
    requires Inv(db) && Flush(db, level, f, v', db')
    ensures Inv(db')
  {
    hide TreeOk, ManifestOk, HistoryOk, LogsOk, LogsMirror, Held, Files, Installs, Live, AllNewer,
      IsTableOf, GoodLevel, LiveEntries, FlushEdit, Elements, VersionEntries;
    ImmIsNewer(db);
    VersionNumbers(db.manifest.edits, db.manifest.nextFile, db.version);
    FlushTree(db.version, db.imm.value, db.nextFile, level, f, v');
    assert GloballyUnique(v') by { TreeParts(v'); }
    FlushManifest(db.manifest.edits, db.manifest.nextFile, db.version, db.imm.value, db.nextFile, level, f, v');
    FlushLogs(db, level, f, v', db');
    FlushMirrors(db, level, f, v', db');
  }

  lemma TreeParts(v: Version)
    requires TreeOk(v)
    ensures WellFormed(v) && NewerAbove(v) && GloballyUnique(v)
  {
  }

  // ----- Trivial move -----

  /** v' is v with f one level further down. */
  ghost predicate MovesFile(v: Version, L: nat, f: File, v': Version) {
    && L + 1 < NUM_LEVELS && f in v[L]
    && (forall l :: 0 <= l < NUM_LEVELS && l != L && l != L + 1 ==> v'[l] == v[l])
    && LevelLoses(v[L], f, v'[L]) && LevelGains(v[L + 1], f, v'[L + 1])
    && SortedFiles(v'[L]) && SortedFiles(v'[L + 1])
  }

  lemma MoveEditMoves(v: Version, L: nat, f: File, v': Version)
    requires WellFormed(v) && L + 1 < NUM_LEVELS && f in v[L] && Installs(v, MoveEdit(L, f), v')
    ensures MovesFile(v, L, f, v')
  {
    var e := MoveEdit(L, f);
    assert e.deletedFiles[0] == (L, f.number) && e.newFiles[0] == (L + 1, f);
    assert DeletedAt(e, L) == {f.number} && AddedAt(e, L) == {};
    assert AddedAt(e, L + 1) == {f} && DeletedAt(e, L + 1) == {};
    forall l | 0 <= l < NUM_LEVELS && l != L && l != L + 1 ensures v'[l] == v[l] {
      SameFiles(v, e, v', l);
    }
    Inserted(v, e, v', L + 1, f);
    forall g ensures g in v'[L] <==> g in v[L] && g != f {
      assert g in v'[L] <==> g in FileSet(v'[L]);
      assert UniqueNumbers(v[L]);
    }
  }

  /** f shares no user key with the level it moves to. */
  lemma MoveIsClear(v: Version, c: Compaction, f: File, g: File)
    requires GoodInputs(v, c) && c.in0 == [f] && c.in1 == [] && g in v[c.level + 1]
    ensures Disjoint(f, g) && Newer(f, g) && Newer(g, f)
  {
    FileRange(f);
    FileRange(g);
    assert f in c.in0;
    assert !InSpan(g, c.in0);
    forall d, e | d in g.entries && e in f.entries ensures d.ik.ukey != e.ik.ukey {
      KeyInFile(g, d);
      KeyInFile(f, e);
    }
  }

  lemma MoveTree(v: Version, c: Compaction, f: File, v': Version)
    requires TreeOk(v) && UniqueSeq(VersionEntries(v))
    requires GoodInputs(v, c) && c.in0 == [f] && c.in1 == [] && MovesFile(v, c.level, f, v')
    requires c.level >= 1 ==> CleanCut(v[c.level], c.in0)
    ensures TreeOk(v')
  {
    var L := c.level;
    forall g | g in v[L + 1] ensures Disjoint(f, g) { MoveIsClear(v, c, f, g); }
    MoveStructure(v, L, f, v');
    forall g | g in v'[L] ensures Newer(g, f) {
      forall d, e | d in g.entries && e in f.entries && d.ik.ukey == e.ik.ukey ensures d.ik.seqno > e.ik.seqno {
        LeftBehindIsNewer(v, c, g, f, d, e);
      }
    }
    hide GoodInputs, CleanCut, WellFormed, GloballyUnique, Newer;
    MoveAge(v, L, f, v');
  }

  lemma MoveStructure(v: Version, L: nat, f: File, v': Version)
    requires WellFormed(v) && GloballyUnique(v) && MovesFile(v, L, f, v')
    requires forall g :: g in v[L + 1] ==> Disjoint(f, g)
    ensures WellFormed(v') && GloballyUnique(v')
  {
    hide BySmallestKey, SortedFiles;
    MoveKeepsUnique(v, L, f, v');
    forall l | 0 <= l < NUM_LEVELS ensures SortedFiles(v'[l]) && UniqueNumbers(v'[l]) {
      assert SortedFiles(v[l]);
    }
    GainsDisjoint(v[L + 1], f, v'[L + 1]);
    forall l | 1 <= l < NUM_LEVELS ensures DisjointFiles(v'[l]) {
      assert DisjointFiles(v[l]);
      if l == L { hide Disjoint; }
    }
  }

  lemma GainsDisjoint(fs: seq<File>, f: File, fs': seq<File>)
    requires DisjointFiles(fs) && LevelGains(fs, f, fs') && forall g :: g in fs ==> Disjoint(f, g)
    ensures DisjointFiles(fs')
  {
  }

  lemma MoveKeepsUnique(v: Version, L: nat, f: File, v': Version)
    requires GloballyUnique(v) && MovesFile(v, L, f, v')
    ensures GloballyUnique(v')
  {
    forall l, m, g, h | 0 <= l < NUM_LEVELS && 0 <= m < NUM_LEVELS && g in v'[l] && h in v'[m] && g.number == h.number
      ensures l == m && g == h
    {
      var l0 := if l == L + 1 && g == f then L else l;
      var m0 := if m == L + 1 && h == f then L else m;
      assert g in v[l0] && h in v[m0];
    }
  }

  lemma MoveAge(v: Version, L: nat, f: File, v': Version)
    requires NewerAbove(v) && MovesFile(v, L, f, v')
    requires forall g :: g in v'[L] ==> Newer(g, f)
    ensures NewerAbove(v')
  {
    forall l, m, g, h | 0 <= l < m < NUM_LEVELS && g in v'[l] && h in v'[m] ensures Newer(g, h) {
      if m == L + 1 && h == f {
        assert l < L ==> g in v[l] && f in v[L];
      } else if l == L + 1 && g == f {
        assert h in v[m] && f in v[L];
      } else {
        assert g in v[l] && h in v[m];
      }
    }
  }

  lemma MoveEntries(v: Version, L: nat, f: File, v': Version)
    requires MovesFile(v, L, f, v')
    ensures VersionEntries(v') == VersionEntries(v) && Files(v') == Files(v)
  {
    forall l, g | 0 <= l < NUM_LEVELS && g in v[l] ensures exists m :: 0 <= m < NUM_LEVELS && g in v'[m] {
      if l == L && g == f { assert g in v'[L + 1]; } else { assert g in v'[l]; }
    }
    forall l, g | 0 <= l < NUM_LEVELS && g in v'[l] ensures exists m :: 0 <= m < NUM_LEVELS && g in v[m] {
      if l == L + 1 && g == f { assert g in v[L]; } else { assert g in v[l]; }
    }
  }

  lemma MoveManifest(edits: seq<VersionEdit>, nextFile: nat, nextFile': nat, v: Version, L: nat, f: File, v': Version)
    requires ManifestOk(edits, nextFile, v) && TreeOk(v') && nextFile' >= nextFile
    requires MovesFile(v, L, f, v') && Installs(v, MoveEdit(L, f), v')
    ensures ManifestOk(edits + [MoveEdit(L, f)], nextFile', v')
  {
    hide TreeOk, Installs, AddedAt, WellLevelled, MovesFile, Reaches, NeverReAdds, MovedDown, GloballyUnique;
    var e := MoveEdit(L, f);
    MoveAdds(v, L, f, v');
    TreeParts(v');
    MoveFresh(edits, v, L, f, e, v');
    ExtendManifest(edits, nextFile, v, e, v', nextFile');
  }

  lemma MoveAdds(v: Version, L: nat, f: File, v': Version)
    requires MovesFile(v, L, f, v')
    ensures f in v[L] && L + 1 < NUM_LEVELS && WellLevelled([MoveEdit(L, f)])
    ensures forall l, g :: 0 <= l < NUM_LEVELS && g in AddedAt(MoveEdit(L, f), l) ==> l == L + 1 && g == f
  {
  }

  lemma MoveFresh(edits: seq<VersionEdit>, v: Version, L: nat, f: File, e: VersionEdit, v': Version)
    requires MovedDown(edits, v) && GloballyUnique(v') && MovesFile(v, L, f, v')
    requires forall l, g :: 0 <= l < NUM_LEVELS && g in AddedAt(e, l) ==> l == L + 1 && g == f
    ensures FreshEdit(edits, e) && AddsAbove(edits, e, v')
  {
    forall m, h | 0 <= m < NUM_LEVELS && h in AllAdded(edits, |edits|, m) && h.number == f.number ensures m <= L {}
    forall l, m, g: File, h: File |
      && 0 <= l < NUM_LEVELS && 0 <= m < NUM_LEVELS && g in v'[l] && h.number == g.number
      && (h in AddedAt(e, m) || (g in AddedAt(e, l) && h in AllAdded(edits, |edits|, m)))
      ensures m <= l
    {
      if h in AddedAt(e, m) { assert h in v'[L + 1]; }
    }
  }

  lemma HeldUnique(db: Db)
    requires Inv(db)
    ensures UniqueSeq(VersionEntries(db.version)) && UniqueSeq(Held(db))
  {
    assert VersionEntries(db.version) <= Held(db) <= db.history;
  }

  /** What a trivial move does to the version. */
  lemma TrivialMoveTree(v: Version, c: Compaction, v': Version)
    requires TreeOk(v) && UniqueSeq(VersionEntries(v)) && GoodInputs(v, c) && IsTrivialMove(c)
    requires c.level >= 1 ==> CleanCut(v[c.level], c.in0)
    requires Installs(v, MoveEdit(c.level, c.in0[0]), v')
    ensures TreeOk(v') && MovesFile(v, c.level, c.in0[0], v')
    ensures VersionEntries(v') == VersionEntries(v) && Files(v') == Files(v)
  {
    var f := c.in0[0];
    assert c.in0 == [f] && f in c.in0;
    MoveEditMoves(v, c.level, f, v');
    MoveTree(v, c, f, v');
    MoveEntries(v, c.level, f, v');
  }

  lemma TrivialMoveInv(db: Db, c: Compaction, v': Version, db': Db)
    requires Inv(db) && TrivialMove(db, c, v', db')
    ensures Inv(db')
  {
    hide TreeOk, HistoryOk, LogsMirror, Files, Installs, LiveEntries, VersionEntries, MovesFile, ManifestOk,
      UniqueSeq, GoodInputs, LogsInOrder, CleanCut;
    HeldUnique(db);
    TrivialMoveTree(db.version, c, v');
    assert Held(db') == Held(db);
    MoveManifest(db.manifest.edits, db.manifest.nextFile, db.nextFile, db.version, c.level, c.in0[0], v');
    SameMirror(db, db');
  }

  /** The guard of a trivial move is exact: a file whose last user key goes on in the next file of
      its level would take newer versions below older ones. */
  lemma MoveAgeIff(v: Version, c: Compaction, v': Version)
    requires TreeOk(v) && UniqueSeq(VersionEntries(v)) && GoodInputs(v, c) && IsTrivialMove(c)
    requires Installs(v, MoveEdit(c.level, c.in0[0]), v')
    ensures NewerAbove(v') <==> (c.level >= 1 ==> CleanCut(v[c.level], c.in0))
  {
    hide TreeOk, WellFormed, UniqueSeq, Installs, MoveEdit, CleanCut, NewerAbove, InSpan, ClosedAtLevelZero, MovesFile;
    var f := c.in0[0];
    assert f in c.in0 && c.in0 == [f];
    if c.level >= 1 && !CleanCut(v[c.level], c.in0) {
      var g := CutThrough(v[c.level], f);
      TreeParts(v);
      MoveEditMoves(v, c.level, f, v');
      MovedUnder(v, c.level, f, g, v');
    } else {
      TrivialMoveTree(v, c, v');
      TreeParts(v');
    }
  }

  lemma CutThrough(fs: seq<File>, f: File) returns (g: File)
    requires !CleanCut(fs, [f])
    ensures g in fs && g != f && KeyLess(f.Largest(), g.Smallest()) && f.Largest().ukey == g.Smallest().ukey
  {
    var h, next :| h in [f] && next in fs && next !in [f] && KeyLess(h.Largest(), next.Smallest())
                   && !(h.Largest().ukey < next.Smallest().ukey);
    g := next;
  }

  lemma MovedUnder(v: Version, L: nat, f: File, g: File, v': Version)
    requires MovesFile(v, L, f, v') && g in v[L] && g != f
    requires KeyLess(f.Largest(), g.Smallest()) && f.Largest().ukey == g.Smallest().ukey
    ensures !NewerAbove(v')
  {
    var d, e := f.entries[|f.entries| - 1], g.entries[0];
    assert d in f.entries && e in g.entries && e.ik.seqno <= d.ik.seqno;
    assert g in v'[L] && f in v'[L + 1] && !Newer(g, f);
  }

  lemma TrivialMoveInvIff(db: Db, c: Compaction, v': Version, db': Db)
    requires Inv(db) && MovesDown(db, c, v', db')
    ensures Inv(db') <==> (c.level >= 1 ==> CleanCut(db.version[c.level], c.in0))
  {
    hide TreeOk, LogsMirror, Files, LiveEntries, VersionEntries, ManifestOk, UniqueSeq, LogsOk,
      LogsInOrder, WellFormed, NewerAbove, CleanCut, Installs, MoveEdit, HistoryOk, InSpan, ClosedAtLevelZero;
    if c.level >= 1 ==> CleanCut(db.version[c.level], c.in0) {
      TrivialMoveInv(db, c, v', db');
    } else if Inv(db') {
      HeldUnique(db);
      MoveAgeIff(db.version, c, v');
      TreeParts(v');
    }
  }

  /** Changing tables and the manifest, but not the log number, leaves the memtables mirrored. */
  lemma SameMirror(db: Db, db': Db)
    requires LogsMirror(db) && db'.logs == db.logs && db'.logfile == db.logfile && db'.mem == db.mem
    requires db'.imm == db.imm && db'.pending == db.pending && db'.manifest.logNumber == db.manifest.logNumber
    ensures LogsMirror(db')
  {
  }

  // ----- Compaction -----

  lemma CompactionEditIs(c: Compaction, outs: seq<File>, l: nat)
    ensures DeletedAt(CompactionEdit(c, outs), l) ==
            (if l == c.level then Numbers(FileSet(c.in0)) else if l == c.level + 1 then Numbers(FileSet(c.in1)) else {})
    ensures AddedAt(CompactionEdit(c, outs), l) == if l == c.level + 1 then FileSet(outs) else {}
  {
    var e := CompactionEdit(c, outs);
    var dels := e.deletedFiles;
    forall i | 0 <= i < |c.in0| ensures (c.level, c.in0[i].number) in dels {
      assert dels[i] == (c.level, c.in0[i].number);
    }
    forall i | 0 <= i < |c.in1| ensures (c.level + 1, c.in1[i].number) in dels {
      assert dels[|c.in0| + i] == (c.level + 1, c.in1[i].number);
    }
    forall p | p in dels
      ensures (p.0 == c.level && p.1 in Numbers(FileSet(c.in0))) || (p.0 == c.level + 1 && p.1 in Numbers(FileSet(c.in1)))
    {
      var i :| 0 <= i < |dels| && dels[i] == p;
      if i < |c.in0| { assert c.in0[i] in FileSet(c.in0); } else { assert c.in1[i - |c.in0|] in FileSet(c.in1); }
    }
    forall i | 0 <= i < |outs| ensures (c.level + 1, outs[i]) in e.newFiles {
      assert e.newFiles[i] == (c.level + 1, outs[i]);
    }
  }

  /** Removing files by their numbers removes exactly those files. */
  lemma RemoveByNumber(fs: seq<File>, gone: seq<File>, added: set<File>, fs': seq<File>)
    requires UniqueNumbers(fs) && (forall f :: f in gone ==> f in fs)
    requires forall f, g :: f in fs && g in added ==> f.number != g.number
    requires FileSet(fs') == set f | f in FileSet(fs) + added && f.number !in Numbers(FileSet(gone)) - Numbers(added)
    ensures forall f :: f in fs' <==> (f in fs && f !in gone) || f in added
  {
    forall f | f in gone ensures f in FileSet(gone) && f.number in Numbers(FileSet(gone)) {}
    forall f ensures f in fs' <==> (f in fs && f !in gone) || f in added {
      assert f in fs' <==> f in FileSet(fs');
    }
  }

  lemma CompactionInstalled(v: Version, c: Compaction, snap: nat, input: seq<Entry>, pieces: seq<seq<Entry>>,
                            outs: seq<File>, number: nat, v': Version)
    requires WellFormed(v) && GloballyUnique(v) && GoodInputs(v, c) && MergedInput(c, input)
    requires Concat(pieces) == Survivors(v, c.level, input, snap, |input|) && OutputFiles(outs, pieces)
    requires forall l, g :: 0 <= l < NUM_LEVELS && g in v[l] ==> g.number < number
    requires forall i :: 0 <= i < |outs| ==> outs[i].number == number + i
    requires Installs(v, CompactionEdit(c, outs), v')
    ensures Compacted(v, c, snap, input, pieces, outs, v') && GloballyUnique(v')
  {
    var e, L := CompactionEdit(c, outs), c.level;
    hide Survivors, Concat, MergedInput, NewerAbove, CompactionEdit;
    forall l ensures
      && DeletedAt(e, l) == (if l == L then Numbers(FileSet(c.in0)) else if l == L + 1 then Numbers(FileSet(c.in1)) else {})
      && AddedAt(e, l) == if l == L + 1 then FileSet(outs) else {}
    {
      CompactionEditIs(c, outs, l);
    }
    hide DeletedAt, AddedAt;
    CompactionLevels(v, c, outs, number, e, v');
  }

  lemma CompactionLevels(v: Version, c: Compaction, outs: seq<File>, number: nat, e: VersionEdit, v': Version)
    requires WellFormed(v) && GloballyUnique(v) && GoodInputs(v, c)
    requires forall l, g :: 0 <= l < NUM_LEVELS && g in v[l] ==> g.number < number
    requires forall i :: 0 <= i < |outs| ==> outs[i].number == number + i
    requires Installs(v, e, v')
    requires forall l ::
      && DeletedAt(e, l) == (if l == c.level then Numbers(FileSet(c.in0)) else if l == c.level + 1 then Numbers(FileSet(c.in1)) else {})
      && AddedAt(e, l) == if l == c.level + 1 then FileSet(outs) else {}
    ensures forall l :: 0 <= l < NUM_LEVELS && l != c.level && l != c.level + 1 ==> v'[l] == v[l]
    ensures forall f :: f in v'[c.level] <==> f in v[c.level] && f !in c.in0
    ensures forall f :: f in v'[c.level + 1] <==> (f in v[c.level + 1] && f !in c.in1) || f in outs
    ensures forall l :: 0 <= l < NUM_LEVELS ==> SortedFiles(v'[l]) && UniqueNumbers(v'[l])
    ensures GloballyUnique(v')
  {
    var L := c.level;
    hide DeletedAt, AddedAt, BySmallestKey;
    assert forall f :: f in outs ==> f.number >= number;
    forall l | 0 <= l < NUM_LEVELS && l != L && l != L + 1 ensures v'[l] == v[l] { SameFiles(v, e, v', l); }
    hide GloballyUnique;
    RemoveByNumber(v[L], c.in0, {}, v'[L]);
    RemoveByNumber(v[L + 1], c.in1, FileSet(outs), v'[L + 1]);
    hide FileSet, UniqueNumbers, Numbers, EditedFiles, SortedFiles, DisjointFiles;
    CompactedUnique(v, c, outs, number, v');
  }

  lemma CompactedUnique(v: Version, c: Compaction, outs: seq<File>, number: nat, v': Version)
    requires GloballyUnique(v) && c.level + 1 < NUM_LEVELS
    requires forall l, g :: 0 <= l < NUM_LEVELS && g in v[l] ==> g.number < number
    requires forall i :: 0 <= i < |outs| ==> outs[i].number == number + i
    requires forall l :: 0 <= l < NUM_LEVELS && l != c.level && l != c.level + 1 ==> v'[l] == v[l]
    requires forall f :: f in v'[c.level] <==> f in v[c.level] && f !in c.in0
    requires forall f :: f in v'[c.level + 1] <==> (f in v[c.level + 1] && f !in c.in1) || f in outs
    ensures GloballyUnique(v') && forall l :: 0 <= l < NUM_LEVELS ==> UniqueNumbers(v'[l])
  {
    forall l, f | 0 <= l < NUM_LEVELS && f in v'[l] ensures f in v[l] || (l == c.level + 1 && f in outs) {}
    UniqueWithOutputs(v, c.level + 1, outs, number, v');
    forall l | 0 <= l < NUM_LEVELS ensures UniqueNumbers(v'[l]) { UniqueAtLevel(v', l); }
  }

  lemma UniqueWithOutputs(v: Version, level: nat, outs: seq<File>, number: nat, v': Version)
    requires GloballyUnique(v)
    requires forall l, g :: 0 <= l < NUM_LEVELS && g in v[l] ==> g.number < number
    requires forall i :: 0 <= i < |outs| ==> outs[i].number == number + i
    requires forall l, f :: 0 <= l < NUM_LEVELS && f in v'[l] ==> f in v[l] || (l == level && f in outs)
    ensures GloballyUnique(v')
  {
    forall f | f in outs ensures f.number >= number {}
    forall l, m, f, g | 0 <= l < NUM_LEVELS && 0 <= m < NUM_LEVELS && f in v'[l] && g in v'[m] && f.number == g.number
      ensures l == m && f == g
    {
      assert f in v[l] || (l == level && f in outs);
      assert g in v[m] || (m == level && g in outs);
      if f !in v[l] || g !in v[m] {
        assert f in outs && g in outs;
        var i :| 0 <= i < |outs| && outs[i] == f;
        var j :| 0 <= j < |outs| && outs[j] == g;
      }
    }
  }

  lemma UniqueAtLevel(v: Version, l: nat)
    requires GloballyUnique(v) && l < NUM_LEVELS
    ensures UniqueNumbers(v[l])
  {
  }

  lemma CompactManifest(edits: seq<VersionEdit>, nextFile: nat, number: nat, v: Version, c: Compaction,
                        outs: seq<File>, v': Version)
    requires ManifestOk(edits, nextFile, v) && nextFile <= number && GoodInputs(v, c)
    requires forall i :: 0 <= i < |outs| ==> outs[i].number == number + i
    requires Installs(v, CompactionEdit(c, outs), v')
    ensures ManifestOk(edits + [CompactionEdit(c, outs)], number + |outs|, v')
  {
    var e := CompactionEdit(c, outs);
    assert WellLevelled([e]);
    forall l, f | 0 <= l < NUM_LEVELS && f in AddedAt(e, l)
      ensures l == c.level + 1 && f in outs && number <= f.number < number + |outs| {
      CompactionEditIs(c, outs, l);
    }
    forall l, f, g | 0 <= l < NUM_LEVELS && f in AddedAt(e, l) && g in AddedAt(e, l) && f != g ensures f.number != g.number {
      var i :| 0 <= i < |outs| && outs[i] == f;
      var j :| 0 <= j < |outs| && outs[j] == g;
    }
    hide CompactionEdit;
    NewNumbersAreFresh(edits, nextFile, v, e);
    NewFilesAbove(edits, nextFile, v, e, c.level + 1, v');
    ExtendManifest(edits, nextFile, v, e, v', number + |outs|);
  }

  /** Dropping entries no read from `snap` on can see keeps the history readable. */
  lemma CompactHistory(V: set<Entry>, V': set<Entry>, live: set<Entry>, history: set<Entry>, dropped: set<Entry>,
                       floor: nat, snap: nat)
    requires HistoryOk(V + live, history, dropped, floor) && V' <= V && floor <= snap
    requires forall k, s :: s >= snap ==> Read(live + V', k, s) == Read(live + V, k, s)
    ensures HistoryOk(V' + live, history, dropped + (V - V'), snap)
  {
    assert V' + live == live + V' && V + live == live + V;
    assert history == V' + live + (dropped + (V - V'));
    forall k, s | s >= snap ensures Read(V' + live, k, s) == Read(history, k, s) {
      assert Read(live + V, k, s) == Read(history, k, s);
    }
  }

  /** What a compaction does to the version and to every read from its snapshot on. */
  lemma CompactTree(v: Version, c: Compaction, snap: nat, input: seq<Entry>, pieces: seq<seq<Entry>>,
                    outs: seq<File>, v': Version, live: set<Entry>)
    requires TreeOk(v) && UniqueSeq(VersionEntries(v) + live)
    requires Compacted(v, c, snap, input, pieces, outs, v') && GloballyUnique(v')
    requires NothingSinks(v, c, snap, input) && NothingUnburied(v, c.level, input, snap, live + LeftBehind(v, c))
    ensures TreeOk(v') && VersionEntries(v') <= VersionEntries(v)
    ensures forall k, s :: s >= snap ==>
              Read(live + VersionEntries(v'), k, s) == Read(live + VersionEntries(v), k, s)
  {
    assert UniqueSeq(live + VersionEntries(v)) && UniqueSeq(VersionEntries(v));
    hide Compacted, VersionEntries, Read, UniqueSeq, WellFormed, NewerAbove, GloballyUnique, NothingSinks,
      NothingUnburied, LeftBehind;
    CompactionKeepsStructure(v, c, snap, input, pieces, outs, v');
    AgeKeptIff(v, c, snap, input, pieces, outs, v');
    CompactionShrinks(v, c, snap, input, pieces, outs, v');
    ReadsKeptIff(v, c, snap, input, pieces, outs, v', live);
  }

  lemma CompactInv(db: Db, c: Compaction, input: seq<Entry>, pieces: seq<seq<Entry>>,
                   outs: seq<File>, v': Version, db': Db)
    requires Inv(db) && Compact(db, c, input, pieces, outs, v', db')
    ensures Inv(db')
  {
    var snap := SmallestSnapshot(db);
    hide TreeOk, HistoryOk, LogsMirror, Files, Installs, LiveEntries, VersionEntries, ManifestOk, UniqueSeq,
      GoodInputs, LogsInOrder, NothingSinks, NothingUnburied, LeftBehind, Concat, Survivors, MergedInput, OutputFiles, Read, CompactionEdit,
      GloballyUnique, Compacted;
    HeldUnique(db);
    VersionNumbers(db.manifest.edits, db.manifest.nextFile, db.version);
    assert WellFormed(db.version) && GloballyUnique(db.version) by { TreeParts(db.version); }
    hide WellFormed;
    CompactionInstalled(db.version, c, snap, input, pieces, outs, db.nextFile, v');
    CompactTree(db.version, c, snap, input, pieces, outs, v', Live(db));
    CompactManifest(db.manifest.edits, db.manifest.nextFile, db.nextFile, db.version, c, outs, v');
    CompactHistory(VersionEntries(db.version), VersionEntries(v'), Live(db), db.history, db.dropped, db.floor, snap);
    CompactTables(db.version, c, snap, input, pieces, outs, v');
    SameMirror(db, db');
    CompactLogs(db, v', db');
  }

  lemma LiveIsNewer(db: Db)
    requires LogsOk(db.logs, db.manifest, db.version, db.dropped)
    ensures AllNewer(Live(db), db.version)
  {
  }

  lemma CompactedBefore(db: Db, c: Compaction, input: seq<Entry>, pieces: seq<seq<Entry>>,
                        outs: seq<File>, v': Version, db': Db)
    requires Inv(db) && CompactsTo(db, c, input, pieces, outs, v', db')
    ensures Compacted(db.version, c, SmallestSnapshot(db), input, pieces, outs, v')
    ensures WellFormed(db.version) && NewerAbove(db.version)
    ensures UniqueSeq(VersionEntries(db.version)) && UniqueSeq(Live(db) + VersionEntries(db.version))
  {
    hide TreeOk, HistoryOk, LogsMirror, Files, Installs, LiveEntries, VersionEntries, ManifestOk, UniqueSeq,
      GoodInputs, LogsInOrder, Concat, Survivors, MergedInput, OutputFiles, CompactionEdit, GloballyUnique, Compacted,
      WellFormed, NewerAbove;
    HeldUnique(db);
    VersionNumbers(db.manifest.edits, db.manifest.nextFile, db.version);
    TreeParts(db.version);
    CompactionInstalled(db.version, c, SmallestSnapshot(db), input, pieces, outs, db.nextFile, v');
    assert Live(db) + VersionEntries(db.version) == Held(db);
  }

  /** The guard of the compaction step is exact: without it the invariant is lost. */
  lemma CompactInvIff(db: Db, c: Compaction, input: seq<Entry>, pieces: seq<seq<Entry>>,
                      outs: seq<File>, v': Version, db': Db)
    requires Inv(db) && CompactsTo(db, c, input, pieces, outs, v', db')
    ensures Inv(db') <==> SafeInputs(db, c, input)
  {
    hide TreeOk, LogsMirror, Files, Installs, LiveEntries, VersionEntries, ManifestOk, UniqueSeq, GoodInputs, LogsOk,
      LogsInOrder, Concat, Survivors, MergedInput, OutputFiles, CompactionEdit, Compacted, WellFormed, NewerAbove,
      NothingSinks, NothingUnburied, LeftBehind, Read;
    var snap, live := SmallestSnapshot(db), Live(db);
    if SafeInputs(db, c, input) {
      CompactInv(db, c, input, pieces, outs, v', db');
    } else if Inv(db') {
      CompactedBefore(db, c, input, pieces, outs, v', db');
      TreeParts(v');
      AgeKeptIff(db.version, c, snap, input, pieces, outs, v');
      assert Held(db') == live + VersionEntries(v') && Held(db) == live + VersionEntries(db.version);
      ReadsKeptIff(db.version, c, snap, input, pieces, outs, v', live);
    }
  }

  /** The oldest moment that a reader may still ask for. */
  ghost predicate OldestReader(db: Db, s: nat) {
    && (s in db.snapshots || s == db.lastSequence)
    && s <= db.lastSequence && forall t :: t in db.snapshots ==> s <= t
  }

  lemma OldestIsSmallest(db: Db, oldest: nat)
    requires CountersOk(db) && OldestReader(db, oldest)
    ensures oldest == SmallestSnapshot(db)
  {
    if db.snapshots != [] { assert db.snapshots[0] in db.snapshots; }
  }

  /** A compaction keeps of its inputs exactly what readers from the oldest one on need. */
  lemma CompactReclaims(db: Db, c: Compaction, input: seq<Entry>, pieces: seq<seq<Entry>>,
                        outs: seq<File>, v': Version, db': Db, oldest: nat)
    requires Inv(db) && CompactsTo(db, c, input, pieces, outs, v', db') && OldestReader(db, oldest)
    ensures forall e :: e in VersionEntries(db'.version) <==>
              e in LeftBehind(db.version, c) || (e in input && Needed(db.version, c.level, input, oldest, e))
  {
    hide TreeOk, ManifestOk, LogsOk, HistoryOk, LogsMirror, LeftBehind, VersionEntries, Needed, UniqueSeq, Compacted;
    CompactedBefore(db, c, input, pieces, outs, v', db');
    OldestIsSmallest(db, oldest);
    CompactionExactly(db.version, c, oldest, input, pieces, outs, v');
  }

  lemma CompactLogs(db: Db, v': Version, db': Db)
    requires LogsOk(db.logs, db.manifest, db.version, db.dropped) && VersionEntries(v') <= VersionEntries(db.version)
    requires db'.logs == db.logs && db'.manifest.logNumber == db.manifest.logNumber
    requires db.manifest.lastSequence <= db'.manifest.lastSequence
    requires db'.dropped == db.dropped + (VersionEntries(db.version) - VersionEntries(v'))
    ensures LogsOk(db'.logs, db'.manifest, v', db'.dropped)
  {
  }

  lemma CompactTables(v: Version, c: Compaction, snap: nat, input: seq<Entry>, pieces: seq<seq<Entry>>,
                      outs: seq<File>, v': Version)
    requires Compacted(v, c, snap, input, pieces, outs, v')
    ensures Files(v') <= Files(v) + (set f | f in outs :: f.number)
  {
    forall l, f | 0 <= l < NUM_LEVELS && f in v'[l] ensures f in v[l] || f in outs {}
  }

  // ----- Reopening -----

  /** Recovery from the manifest arrives at the version that was current. */
  lemma RecoveredIsCurrent(m: Manifest, v: Version, r: Version)
    requires ManifestOk(m.edits, m.nextFile, v) && RecoveredFrom(m, r)
    ensures r == v
  {
    var vs :| InstallsAll(m.edits, vs) && vs[0] == EMPTY_VERSION && vs[|m.edits|] == v;
    if m.edits == [] {
      forall l | 0 <= l < NUM_LEVELS ensures r[l] == [] {
        EmptySet(r[l]);
      }
      assert r == v;
    } else {
      RecoveredVersionIsCurrent(m.edits, vs, r);
    }
  }

  /** Opening never fails for a missing table: what the manifest names is on disk. */
  lemma ReopenFindsEveryTable(db: Db, r: Version)
    requires Inv(db) && RecoveredFrom(db.manifest, r)
    ensures Files(r) <= db.tables && VersionEntries(r) == VersionEntries(db.version)
  {
    RecoveredIsCurrent(db.manifest, db.version, r);
  }

  lemma SnapshotManifest(v: Version, snap: VersionEdit, nextFile: nat)
    requires TreeOk(v) && SnapshotEdit(v, snap)
    requires forall l, g :: 0 <= l < NUM_LEVELS && g in v[l] ==> g.number < nextFile
    ensures ManifestOk([snap], nextFile, v)
  {
    hide NewerAbove;
    forall l | 0 <= l < NUM_LEVELS ensures FileSet(v[l]) == EditedFiles(FileSet(EMPTY_VERSION[l]), snap, l) {
      assert DeletedAt(snap, l) == {};
    }
    assert Installs(EMPTY_VERSION, snap, v);
    var vs := [EMPTY_VERSION, v];
    assert InstallsAll([snap], vs) && vs[0] == EMPTY_VERSION && vs[|[snap]|] == v;
    assert forall l, f :: 0 <= l < NUM_LEVELS && f in AddedAt(snap, l) ==> f in v[l];
    SnapshotNumbers(v, snap, nextFile);
  }

  lemma SnapshotNumbers(v: Version, snap: VersionEdit, nextFile: nat)
    requires GloballyUnique(v)
    requires forall l, g :: 0 <= l < NUM_LEVELS && g in v[l] ==> g.number < nextFile
    requires forall l, f :: 0 <= l < NUM_LEVELS && f in AddedAt(snap, l) ==> f in v[l]
    ensures NeverReAdds(EMPTY_VERSION, [snap]) && MovedDown([snap], v) && NumbersBelow([snap], v, nextFile)
  {
    forall l ensures AllAdded([snap], 1, l) == AddedAt(snap, l) && AllAdded([snap], 0, l) == {} {}
  }

  lemma FrontIncreases(front: seq<Entry>, last: seq<Entry>)
    requires SeqIncreasing(front + last)
    ensures SeqIncreasing(front)
    ensures forall d, e :: d in front && e in last ==> d.ik.seqno < e.ik.seqno
  {
    var all := front + last;
    forall i, j | 0 <= i < j < |front| ensures front[i].ik.seqno < front[j].ik.seqno {
      assert all[i] == front[i] && all[j] == front[j];
    }
    forall d, e | d in front && e in last ensures d.ik.seqno < e.ik.seqno {
      var i :| 0 <= i < |front| && front[i] == d;
      var j :| 0 <= j < |last| && last[j] == e;
      assert all[i] == d && all[|front| + j] == e;
    }
  }

  lemma {:induction false} ChunksInOrder(chunks: seq<seq<Entry>>)
    requires SeqIncreasing(Concat(chunks))
    ensures forall i, e :: 0 <= i < |chunks| && e in chunks[i] ==> e in Concat(chunks)
    ensures forall i, j, d, e :: 0 <= i < j < |chunks| && d in chunks[i] && e in chunks[j] ==> d.ik.seqno < e.ik.seqno
  {
    hide SeqIncreasing;
    if chunks != [] {
      var n := |chunks| - 1;
      FrontIncreases(Concat(chunks[..n]), chunks[n]);
      ChunksInOrder(chunks[..n]);
    }
  }

  /** v' is v with all the files added at level 0. */
  ghost predicate AddsLevelZero(v: Version, files: seq<File>, v': Version) {
    && (forall l :: 1 <= l < NUM_LEVELS ==> v'[l] == v[l])
    && (forall g :: g in v'[0] <==> g in v[0] || g in files)
    && SortedFiles(v'[0])
  }

  lemma LevelZeroEditAdds(v: Version, files: seq<File>, v': Version)
    requires WellFormed(v) && Installs(v, LevelZeroEdit(files), v')
    ensures AddsLevelZero(v, files, v')
    ensures AddedAt(LevelZeroEdit(files), 0) == FileSet(files)
  {
    var e := LevelZeroEdit(files);
    forall i | 0 <= i < |files| ensures (0, files[i]) in e.newFiles { assert e.newFiles[i] == (0, files[i]); }
    assert AddedAt(e, 0) == FileSet(files) && DeletedAt(e, 0) == {};
    forall l | 1 <= l < NUM_LEVELS ensures v'[l] == v[l] { SameFiles(v, e, v', l); }
    forall g ensures g in v'[0] <==> g in v[0] || g in files {
      assert g in v'[0] <==> g in FileSet(v'[0]);
    }
  }

  /** Recovered tables: higher numbers hold newer entries, all newer than the version. */
  ghost predicate NewerFiles(v: Version, files: seq<File>) {
    && (forall f, l, g :: f in files && 0 <= l < NUM_LEVELS && g in v[l] ==> g.number < f.number && Newer(f, g))
    && NewerByNumber(files) && UniqueNumbers(files)
  }

  lemma RecoveredAreNewer(v: Version, files: seq<File>, chunks: seq<seq<Entry>>, nextFile: nat)
    requires SeqIncreasing(Concat(chunks)) && RecoveredTables(files, chunks, nextFile)
    requires AllNewer(Elements(Concat(chunks)), v)
    requires forall l, g :: 0 <= l < NUM_LEVELS && g in v[l] ==> g.number < nextFile
    ensures NewerFiles(v, files)
  {
    hide Newer, AllNewer, SeqIncreasing, Concat, Elements;
    forall i, l, g | 0 <= i < |files| && 0 <= l < NUM_LEVELS && g in v[l]
      ensures g.number < files[i].number && Newer(files[i], g)
    {
      RecoveredNewerThan(v, files, chunks, nextFile, i, l, g);
    }
    forall i, j | 0 <= i < j < |files| ensures files[i].number < files[j].number && Newer(files[j], files[i]) {
      RecoveredRising(files, chunks, nextFile, i, j);
    }
    forall f, g | f in files && g in files && f.number >= g.number ensures f == g || Newer(f, g) {
      var i :| 0 <= i < |files| && files[i] == f;
      var j :| 0 <= j < |files| && files[j] == g;
    }
  }

  lemma RecoveredNewerThan(v: Version, files: seq<File>, chunks: seq<seq<Entry>>, nextFile: nat, i: nat, l: nat, g: File)
    requires SeqIncreasing(Concat(chunks)) && RecoveredTables(files, chunks, nextFile)
    requires AllNewer(Elements(Concat(chunks)), v) && i < |files| && l < NUM_LEVELS && g in v[l]
    ensures Newer(files[i], g)
  {
    ChunksInOrder(chunks);
    assert FileEntries(files[i]) <= Elements(Concat(chunks));
    TableIsNewer(v, files[i], l, g);
  }

  lemma RecoveredRising(files: seq<File>, chunks: seq<seq<Entry>>, nextFile: nat, i: nat, j: nat)
    requires SeqIncreasing(Concat(chunks)) && RecoveredTables(files, chunks, nextFile) && i < j < |files|
    ensures Newer(files[j], files[i])
  {
    ChunksInOrder(chunks);
    assert forall d, e :: d in chunks[i] && e in chunks[j] ==> d.ik.seqno < e.ik.seqno;
  }

  lemma RecoveredTree(v: Version, files: seq<File>, v': Version)
    requires TreeOk(v) && AddsLevelZero(v, files, v') && NewerFiles(v, files)
    ensures TreeOk(v')
  {
    hide BySmallestKey, Disjoint, Newer;
    RecoveredUnique(v, files, v');
    RecoveredAge(v, files, v');
  }

  lemma RecoveredAge(v: Version, files: seq<File>, v': Version)
    requires NewerAbove(v) && AddsLevelZero(v, files, v') && NewerFiles(v, files)
    ensures NewerAbove(v')
  {
    hide Newer, SortedFiles;
    assert NewerByNumber(v'[0]);
    forall l, m, f, g | 0 <= l < m < NUM_LEVELS && f in v'[l] && g in v'[m] ensures Newer(f, g) {
      assert g in v[m];
      assert f in v[l] || (l == 0 && f in files);
    }
  }

  lemma RecoveredUnique(v: Version, files: seq<File>, v': Version)
    requires GloballyUnique(v) && AddsLevelZero(v, files, v') && NewerFiles(v, files)
    requires forall l :: 0 <= l < NUM_LEVELS ==> UniqueNumbers(v[l])
    ensures GloballyUnique(v') && forall l :: 0 <= l < NUM_LEVELS ==> UniqueNumbers(v'[l])
  {
    hide Newer, SortedFiles;
    forall l, f | 0 <= l < NUM_LEVELS && f in v'[l] ensures f in v[l] || (l == 0 && f in files) {}
    forall l, m, f, g | 0 <= l < NUM_LEVELS && 0 <= m < NUM_LEVELS && f in v'[l] && g in v'[m] && f.number == g.number
      ensures l == m && f == g
    {
    }
  }

  lemma RecoveredEntries(v: Version, files: seq<File>, chunks: seq<seq<Entry>>, nextFile: nat, v': Version)
    requires AddsLevelZero(v, files, v') && RecoveredTables(files, chunks, nextFile) && SeqIncreasing(Concat(chunks))
    ensures VersionEntries(v') == VersionEntries(v) + Elements(Concat(chunks))
    ensures Files(v') == Files(v) + set f | f in files :: f.number
  {
    hide SortedFiles, SeqIncreasing, Concat;
    forall l, g | 0 <= l < NUM_LEVELS && g in v[l] ensures g in v'[l] {}
    RecoveredAll(files, chunks, nextFile);
    assert VersionEntries(v') == VersionEntries(v) + LevelEntries(files) by {
      forall e | e in LevelEntries(files) ensures e in VersionEntries(v') {
        var f :| f in files && e in f.entries;
        assert f in v'[0];
      }
      forall l, g, e | 0 <= l < NUM_LEVELS && g in v'[l] && e in g.entries
        ensures e in VersionEntries(v) || e in LevelEntries(files)
      {
        assert g in v[l] || g in files;
      }
    }
  }

  lemma RecoveredAll(files: seq<File>, chunks: seq<seq<Entry>>, nextFile: nat)
    requires RecoveredTables(files, chunks, nextFile) && SeqIncreasing(Concat(chunks))
    ensures LevelEntries(files) == Elements(Concat(chunks))
  {
    ChunksInOrder(chunks);
    forall e | e in Concat(chunks) ensures e in LevelEntries(files) {
      PieceOf(chunks, e);
      var i :| 0 <= i < |chunks| && e in chunks[i];
      assert files[i] in files && e in files[i].entries;
    }
    forall e | e in LevelEntries(files) ensures e in Concat(chunks) {
      var f :| f in files && e in f.entries;
      var i :| 0 <= i < |files| && files[i] == f;
      assert e in chunks[i];
    }
  }

  lemma HistoryFloor(held: set<Entry>, history: set<Entry>, dropped: set<Entry>, floor: nat, last: nat)
    requires HistoryOk(held, history, dropped, floor) && forall e :: e in history ==> e.ik.seqno <= last
    ensures HistoryOk(held, history, dropped, if floor <= last then floor else last)
  {
    forall k, s | floor > last && s >= last ensures Read(held, k, s) == Read(history, k, s) {
      var t := if s >= floor then s else floor;
      assert Read(held, k, t) == Read(history, k, t);
      ReadSaturates(held, k, s, t);
      ReadSaturates(history, k, s, t);
    }
  }

  lemma ReopenManifest(v: Version, snap: VersionEdit, files: seq<File>, chunks: seq<seq<Entry>>, nextFile: nat,
                       newLog: nat, v': Version)
    requires TreeOk(v) && SnapshotEdit(v, snap) && RecoveredTables(files, chunks, nextFile)
    requires forall l, g :: 0 <= l < NUM_LEVELS && g in v[l] ==> g.number < nextFile
    requires newLog > nextFile && forall f :: f in files ==> newLog > f.number
    requires Installs(v, LevelZeroEdit(files), v')
    ensures ManifestOk([snap, LevelZeroEdit(files)], newLog + 1, v')
  {
    var e := LevelZeroEdit(files);
    SnapshotManifest(v, snap, nextFile);
    LevelZeroEditFacts(files, chunks, nextFile, newLog);
    hide LevelZeroEdit, TreeOk, SnapshotEdit, RecoveredTables;
    NewNumbersAreFresh([snap], nextFile, v, e);
    NewFilesAbove([snap], nextFile, v, e, 0, v');
    ExtendManifest([snap], nextFile, v, e, v', newLog + 1);
    assert [snap] + [e] == [snap, e];
  }

  lemma LevelZeroEditFacts(files: seq<File>, chunks: seq<seq<Entry>>, nextFile: nat, newLog: nat)
    requires RecoveredTables(files, chunks, nextFile) && forall f :: f in files ==> newLog > f.number
    ensures WellLevelled([LevelZeroEdit(files)])
    ensures forall l, g :: 0 <= l < NUM_LEVELS && g in AddedAt(LevelZeroEdit(files), l) ==>
              l == 0 && nextFile <= g.number <= newLog
    ensures forall l, f, g ::
              && 0 <= l < NUM_LEVELS && f != g
              && f in AddedAt(LevelZeroEdit(files), l) && g in AddedAt(LevelZeroEdit(files), l)
              ==> f.number != g.number
  {
    var e := LevelZeroEdit(files);
    forall l, g | 0 <= l < NUM_LEVELS && g in AddedAt(e, l) ensures l == 0 && g in files && nextFile <= g.number <= newLog {}
    forall l, f, g | 0 <= l < NUM_LEVELS && f in AddedAt(e, l) && g in AddedAt(e, l) && f != g ensures f.number != g.number {
      var i :| 0 <= i < |files| && files[i] == f;
      var j :| 0 <= j < |files| && files[j] == g;
    }
  }

  lemma ReopenInv(db: Db, r: Version, chunks: seq<seq<Entry>>, maxSequence: nat, files: seq<File>,
                  newLog: nat, snap: VersionEdit, v': Version, db': Db)
    requires Inv(db) && Reopen(db, r, chunks, maxSequence, files, newLog, snap, v', db')
    ensures Inv(db')
  {
    hide TreeOk, ManifestOk, LogsOk, HistoryOk, Files, RecoveredFrom, SnapshotEdit, RecoveredTables, Installs,
      LevelZeroEdit, VersionEntries, SeqIncreasing, IsMaxSequence, Concat, Elements, AllNewer, UniqueSeq, WellFormed,
      GloballyUnique, NewerAbove, NewerFiles, AddsLevelZero, LiveEntries;
    RecoveredIsCurrent(db.manifest, db.version, r);
    VersionNumbers(db.manifest.edits, db.manifest.nextFile, r);
    ReopenManifest(r, snap, files, chunks, db.manifest.nextFile, newLog, v');
    TreeParts(r);
    LevelZeroEditAdds(r, files, v');
    assert Elements(Concat(chunks)) == Live(db) by { ElementsAre(Concat(chunks), Live(db)); }
    LiveIsNewer(db);
    RecoveredAreNewer(r, files, chunks, db.manifest.nextFile);
    RecoveredTree(r, files, v');
    RecoveredEntries(r, files, chunks, db.manifest.nextFile, v');
    ReopenContents(db, Concat(chunks), maxSequence, newLog, v', db');
  }

  lemma ElementsAre(es: seq<Entry>, S: set<Entry>)
    requires forall e :: e in es <==> e in S
    ensures Elements(es) == S
  {
  }

  lemma EmptyLive(logs: map<nat, seq<Entry>>, minLog: nat, newLog: nat)
    requires minLog < newLog && forall n :: n in logs && n >= minLog ==> newLog > n
    ensures LiveEntries(logs[newLog := []], newLog) == {} && LogsInOrder(logs[newLog := []], newLog)
  {
  }

  /** The live logs have moved into tables; the new log is empty. */
  lemma ReopenContents(db: Db, all: seq<Entry>, maxSequence: nat, newLog: nat, v': Version, db': Db)
    requires LogsOk(db.logs, db.manifest, db.version, db.dropped)
    requires HistoryOk(Held(db), db.history, db.dropped, db.floor)
    requires db.manifest.lastSequence < MAX_SEQUENCE_NUMBER
    requires Elements(all) == Live(db) && IsMaxSequence(all, maxSequence)
    requires VersionEntries(v') == VersionEntries(db.version) + Live(db)
    requires db'.logs == db.logs[newLog := []] && db'.manifest.logNumber == newLog
    requires db.manifest.logNumber < newLog && forall n :: n in db.logs && n >= db.manifest.logNumber ==> newLog > n
    requires db'.version == v' && db'.history == db.history && db'.dropped == db.dropped
    requires db'.lastSequence == db'.manifest.lastSequence
          == if db.manifest.lastSequence < maxSequence then maxSequence else db.manifest.lastSequence
    requires db'.floor == if db.floor <= db'.lastSequence then db.floor else db'.lastSequence
    ensures LogsOk(db'.logs, db'.manifest, v', db'.dropped)
    ensures HistoryOk(Held(db'), db'.history, db'.dropped, db'.floor)
    ensures db'.lastSequence < MAX_SEQUENCE_NUMBER
    ensures forall e :: e in db'.history ==> e.ik.seqno <= db'.lastSequence
  {
    hide Read, VersionEntries, UniqueSeq;
    EmptyLive(db.logs, db.manifest.logNumber, newLog);
    assert Held(db') == Held(db);
    assert forall e :: e in all <==> e in Elements(all);
    assert forall e :: e in Live(db) ==> e in db.history;
    hide LogsInOrder, LiveEntries, Elements;
    assert forall e :: e in db.history ==> e in VersionEntries(db.version) || e in Live(db) || e in db.dropped;
    HistoryFloor(Held(db), db.history, db.dropped, db.floor, db'.lastSequence);
  }

  // ----- Whole runs -----

  lemma NoFiles(v: Version)
    requires forall l :: 0 <= l < |v| ==> v[l] == []
    ensures TreeOk(v) && VersionEntries(v) == {} && Files(v) == {}
  {
  }

  lemma EmptyTree()
    ensures TreeOk(EMPTY_VERSION) && VersionEntries(EMPTY_VERSION) == {} && Files(EMPTY_VERSION) == {}
  {
    hide TreeOk, VersionEntries, Files;
    NoFiles(EMPTY_VERSION);
  }

  lemma EmptyManifest(nextFile: nat)
    ensures ManifestOk([], nextFile, EMPTY_VERSION)
  {
    assert InstallsAll([], [EMPTY_VERSION]);
  }

  lemma InitInv(db: Db)
    requires Init(db)
    ensures Inv(db)
  {
    hide TreeOk, ManifestOk, VersionEntries, Files;
    EmptyTree();
    EmptyManifest(2);
    assert Live(db) == {} && Held(db) == {};
  }

  lemma StepInv(db: Db, step: Step, db': Db)
    requires Inv(db) && Next(db, step, db')
    ensures Inv(db')
    ensures db.history <= db'.history
  {
    hide Inv;
    match step
    case AppendRecordStep(ops) => AppendRecordInv(db, ops, db');
    case ApplyBatchStep => ApplyBatchInv(db, db');
    case GetSnapshotStep => SnapshotInv(db, 0, db');
    case ReleaseSnapshotStep(i) => SnapshotInv(db, i, db');
    case SwitchMemtableStep => SwitchMemtableInv(db, db');
    case FlushStep(level, f, v) => FlushInv(db, level, f, v, db');
    case TrivialMoveStep(c, v) => TrivialMoveInv(db, c, v, db');
    case CompactStep(c, input, pieces, outs, v) => CompactInv(db, c, input, pieces, outs, v, db');
    case DeleteObsoleteFilesStep(pinned) => DeleteObsoleteFilesInv(db, pinned, db');
    case CrashStep => CrashInv(db, db');
    case ReopenStep(r, chunks, maxSequence, files, newLog, snap, v) =>
      ReopenInv(db, r, chunks, maxSequence, files, newLog, snap, v, db');
  }

  lemma {:induction false} RunInv(dbs: seq<Db>, steps: seq<Step>, i: nat)
    requires Run(dbs, steps) && i < |dbs|
    ensures Inv(dbs[i])
  {
    hide Inv, Next, Init;
    if i == 0 {
      InitInv(dbs[0]);
    } else {
      RunInv(dbs, steps, i - 1);
      assert Next(dbs[i - 1], steps[i - 1], dbs[i - 1 + 1]);
      StepInv(dbs[i - 1], steps[i - 1], dbs[i]);
    }
  }

  lemma {:induction false} HistoryOnlyGrows(dbs: seq<Db>, steps: seq<Step>, i: nat, j: nat)
    requires Run(dbs, steps) && i <= j < |dbs|
    ensures dbs[i].history <= dbs[j].history
  {
    hide Inv, Next, Init;
    if i < j {
      HistoryOnlyGrows(dbs, steps, i, j - 1);
      RunInv(dbs, steps, j - 1);
      assert Next(dbs[j - 1], steps[j - 1], dbs[j - 1 + 1]);
      StepInv(dbs[j - 1], steps[j - 1], dbs[j]);
    }
  }

  /** An entry is in a table of the current version that is on disk. */
  ghost predicate InTable(db: Db, e: Entry) {
    exists l, f :: 0 <= l < NUM_LEVELS && f in db.version[l] && e in f.entries && f.number in db.tables
  }

  /** An entry is in a log that is kept and that recovery replays. */
  ghost predicate InLiveLog(db: Db, e: Entry) {
    exists n :: n in db.logs && n >= db.manifest.logNumber && e in db.logs[n]
  }

  /** Whatever was logged at some point of a run stays durable through any later flushes,
      compactions, file deletions, crashes and reopens, unless a compaction dropped it. */
  lemma NothingIsLost(dbs: seq<Db>, steps: seq<Step>, i: nat, j: nat, e: Entry)
    requires Run(dbs, steps) && i <= j < |dbs| && e in dbs[i].history
    ensures InTable(dbs[j], e) || InLiveLog(dbs[j], e) || e in dbs[j].dropped
    ensures dbs[j].up && e !in dbs[j].pending ==> e.ik.seqno <= dbs[j].lastSequence
  {
    var db := dbs[j];
    HistoryOnlyGrows(dbs, steps, i, j);
    RunInv(dbs, steps, j);
    if db.up { HistoryBound(db); }
    hide HistoryOk, Run, TreeOk, ManifestOk, LogsOk;
    HeldOrDropped(db, e);
    if e in VersionEntries(db.version) {
      var l, f :| 0 <= l < |db.version| && f in db.version[l] && e in f.entries;
      assert f.number in Files(db.version);
    }
  }

  lemma HeldOrDropped(db: Db, e: Entry)
    requires HistoryOk(Held(db), db.history, db.dropped, db.floor) && e in db.history
    ensures e in VersionEntries(db.version) || e in Live(db) || e in db.dropped
  {
  }

  /** What was dropped, no allowed snapshot can miss: in every reachable open state the
      entries still held answer every read as all entries ever written would. */
  lemma DroppedIsInvisible(dbs: seq<Db>, steps: seq<Step>, i: nat, k: UserKey, s: nat)
    requires Run(dbs, steps) && i < |dbs| && dbs[i].up
    requires s in dbs[i].snapshots || s >= dbs[i].lastSequence
    ensures Read(Held(dbs[i]), k, s) == Read(dbs[i].history, k, s)
  {
    RunInv(dbs, steps, i);
    hide Run, TreeOk, ManifestOk, LogsOk, LogsMirror, Read;
    assert s >= dbs[i].floor;
  }

  /** Reopening never hands out a sequence number that a recovered entry already has. */
  lemma ReopenKeepsSequence(db: Db, r: Version, chunks: seq<seq<Entry>>, maxSequence: nat, files: seq<File>,
                            newLog: nat, snap: VersionEdit, v': Version, db': Db)
    requires Inv(db) && Reopen(db, r, chunks, maxSequence, files, newLog, snap, v', db')
    ensures forall e :: e in db.history ==> e.ik.seqno <= db'.lastSequence
    ensures VersionEntries(v') == Held(db)
  {
    ReopenInv(db, r, chunks, maxSequence, files, newLog, snap, v', db');
    HistoryBound(db');
    hide Inv, HistoryOk, LogsOk, ManifestOk, TreeOk, SnapshotEdit, Installs, RecoveredTables, RecoveredFrom;
    assert db'.pending == [] && db'.history == db.history;
    assert VersionEntries(v') == Held(db) by { ReopenHolds(db, r, chunks, maxSequence, files, newLog, snap, v', db'); }
  }

  lemma ReopenHolds(db: Db, r: Version, chunks: seq<seq<Entry>>, maxSequence: nat, files: seq<File>,
                    newLog: nat, snap: VersionEdit, v': Version, db': Db)
    requires Inv(db) && Reopen(db, r, chunks, maxSequence, files, newLog, snap, v', db')
    ensures VersionEntries(v') == Held(db)
  {
    hide HistoryOk, LogsOk, SnapshotEdit, LiveEntries, NewerAbove, GloballyUnique, Concat, SeqIncreasing,
      VersionEntries, RecoveredTables, RecoveredFrom, ManifestOk, Installs, LevelZeroEdit;
    RecoveredIsCurrent(db.manifest, db.version, r);
    LevelZeroEditAdds(r, files, v');
    RecoveredEntries(r, files, chunks, db.manifest.nextFile, v');
    ElementsAre(Concat(chunks), Live(db));
  }
}
