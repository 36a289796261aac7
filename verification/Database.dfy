/** The whole database as a state machine: writes, memtable switches, flushes, moves,
    compactions, obsolete-file deletion, crashes and reopening. */
module Database {
  import opened Wrappers
  import opened DbFormat
  import opened Versions
  import opened Inputs
  import opened Compactions
  import opened VersionEdits
  import opened Recovery

  /** The manifest log: version edits and the latest of each counter they carry. */
  datatype Manifest = Manifest(edits: seq<VersionEdit>, logNumber: nat, lastSequence: nat, nextFile: nat)

  /** Memory (meaningful while `up`), disk, and a record of the past for stating properties.
      A memtable is kept as its entries in insertion order. */
  datatype Db = Db(
    up: bool, mem: seq<Entry>, imm: Option<seq<Entry>>, pending: seq<Entry>,
    lastSequence: nat, snapshots: seq<nat>, logfile: nat, nextFile: nat,
    logs: map<nat, seq<Entry>>, tables: set<nat>, manifest: Manifest, version: Version,
    history: set<Entry>, dropped: set<Entry>, floor: nat)

  const EMPTY_VERSION: Version := [[], [], [], [], [], [], []]

  datatype Op = Put(key: UserKey, value: string) | Delete(key: UserKey)

  /** MemTableInserter: the i-th operation of a batch gets the i-th next sequence number. */
  function Stamp(last: nat, ops: seq<Op>): seq<Entry> {
    seq(|ops|, i requires 0 <= i < |ops| =>
      match ops[i]
      case Put(k, v) => Entry(InternalKey(k, last + 1 + i, Value), v)
      case Delete(k) => Entry(InternalKey(k, last + 1 + i, Deletion), ""))
  }

  function SmallestSnapshot(db: Db): nat {
    if db.snapshots == [] then db.lastSequence else db.snapshots[0]
  }

  ghost function Live(db: Db): set<Entry> {
    LiveEntries(db.logs, db.manifest.logNumber)
  }

  /** All entries the database still holds, in tables or in logs it would replay. */
  ghost function Held(db: Db): set<Entry> {
    VersionEntries(db.version) + Live(db)
  }

  ghost function Files(v: Version): set<nat> {
    set l, f | 0 <= l < |v| && f in v[l] :: f.number
  }

  // ----- Steps -----

  /** The leader of a write group appends its record to the log ... */
  ghost predicate AppendRecord(db: Db, ops: seq<Op>, db': Db) {
    var batch := Stamp(db.lastSequence, ops);
    && db.up && db.pending == [] && ops != [] && db.logfile in db.logs
    && db.lastSequence + |ops| < MAX_SEQUENCE_NUMBER
    && db' == db.(pending := batch,
                  logs := db.logs[db.logfile := db.logs[db.logfile] + batch],
                  history := db.history + Elements(batch))
  }

  /** ... and then inserts it into the memtable and publishes the new LastSequence. */
  ghost predicate ApplyBatch(db: Db, db': Db) {
    && db.up && db.pending != []
    && db' == db.(mem := db.mem + db.pending, pending := [], lastSequence := db.lastSequence + |db.pending|)
  }

  ghost predicate GetSnapshot(db: Db, db': Db) {
    db.up && db' == db.(snapshots := db.snapshots + [db.lastSequence])
  }

  ghost predicate ReleaseSnapshot(db: Db, i: nat, db': Db) {
    db.up && i < |db.snapshots| && db' == db.(snapshots := db.snapshots[..i] + db.snapshots[i + 1..])
  }

  /** MakeRoomForWrite: a new log, and the full memtable becomes immutable. */
  ghost predicate SwitchMemtable(db: Db, db': Db) {
    && db.up && db.pending == [] && db.imm.None?
    && db' == db.(imm := Some(db.mem), mem := [], logs := db.logs[db.nextFile := []],
                  logfile := db.nextFile, nextFile := db.nextFile + 1)
  }

  /** Where WriteLevel0Table may put a new table. */
  ghost predicate GoodLevel(v: Version, level: nat, f: File) {
    && level <= MAX_MEM_COMPACT_LEVEL
    && (level > 0 ==> forall l :: 0 <= l <= level ==> Clear(v[l], f.Smallest().ukey, f.Largest().ukey))
  }

  ghost predicate IsTableOf(f: File, number: nat, es: seq<Entry>) {
    f.number == number && forall e :: e in f.entries <==> e in es
  }

  function FlushEdit(es: seq<Entry>, level: nat, f: File): VersionEdit {
    VersionEdit([], if es == [] then [] else [(level, f)])
  }

  function AfterFlush(db: Db, level: nat, f: File, v': Version): Db
    requires db.imm.Some?
  {
    db.(imm := None, version := v', nextFile := db.nextFile + 1,
        tables := db.tables + if db.imm.value == [] then {} else {db.nextFile},
        manifest := Manifest(db.manifest.edits + [FlushEdit(db.imm.value, level, f)],
                             db.logfile, db.lastSequence, db.nextFile + 1))
  }

  /** CompactMemTable: the immutable memtable becomes a table, its log obsolete. */
  ghost predicate Flush(db: Db, level: nat, f: File, v': Version, db': Db) {
    && db.up && db.imm.Some?
    && (db.imm.value != [] ==> IsTableOf(f, db.nextFile, db.imm.value) && GoodLevel(db.version, level, f))
    && Installs(db.version, FlushEdit(db.imm.value, level, f), v')
    && db' == AfterFlush(db, level, f, v')
  }

  function MoveEdit(level: nat, f: File): VersionEdit {
    VersionEdit([(level, f.number)], [(level + 1, f)])
  }

  function AfterMove(db: Db, c: Compaction, v': Version): Db
    requires c.in0 != []
  {
    db.(version := v',
        manifest := Manifest(db.manifest.edits + [MoveEdit(c.level, c.in0[0])],
                             db.manifest.logNumber, db.lastSequence, db.nextFile))
  }

  /** BackgroundCompaction's shortcut: one file, nothing below to merge with. */
  ghost predicate MovesDown(db: Db, c: Compaction, v': Version, db': Db) {
    && db.up && GoodInputs(db.version, c) && IsTrivialMove(c)
    && Installs(db.version, MoveEdit(c.level, c.in0[0]), v')
    && db' == AfterMove(db, c, v')
  }

  /** The file must end between user keys. */
  ghost predicate TrivialMove(db: Db, c: Compaction, v': Version, db': Db) {
    MovesDown(db, c, v', db') && (c.level >= 1 ==> CleanCut(db.version[c.level], c.in0))
  }

  /** InstallCompactionResults: AddInputDeletions, then the outputs. */
  function CompactionEdit(c: Compaction, outs: seq<File>): VersionEdit {
    VersionEdit(seq(|c.in0|, i requires 0 <= i < |c.in0| => (c.level, c.in0[i].number)) +
                seq(|c.in1|, i requires 0 <= i < |c.in1| => (c.level + 1, c.in1[i].number)),
                seq(|outs|, i requires 0 <= i < |outs| => (c.level + 1, outs[i])))
  }

  ghost function AfterCompact(db: Db, c: Compaction, outs: seq<File>, v': Version): Db {
    db.(version := v', nextFile := db.nextFile + |outs|,
        tables := db.tables + (set f | f in outs :: f.number),
        manifest := Manifest(db.manifest.edits + [CompactionEdit(c, outs)],
                             db.manifest.logNumber, db.lastSequence, db.nextFile + |outs|),
        dropped := db.dropped + (VersionEntries(db.version) - VersionEntries(v')),
        floor := SmallestSnapshot(db))
  }

  ghost predicate CompactsTo(db: Db, c: Compaction, input: seq<Entry>, pieces: seq<seq<Entry>>,
                             outs: seq<File>, v': Version, db': Db) {
    && db.up && GoodInputs(db.version, c) && MergedInput(c, input)
    && Concat(pieces) == Survivors(db.version, c.level, input, SmallestSnapshot(db), |input|)
    && OutputFiles(outs, pieces)
    && (forall i :: 0 <= i < |outs| ==> outs[i].number == db.nextFile + i)
    && Installs(db.version, CompactionEdit(c, outs), v')
    && db' == AfterCompact(db, c, outs, v')
  }

  /** No entry may pass an older version of its key on the way down, and no dropped tombstone may
      leave a value uncovered. */
  ghost predicate SafeInputs(db: Db, c: Compaction, input: seq<Entry>) {
    && NothingSinks(db.version, c, SmallestSnapshot(db), input)
    && NothingUnburied(db.version, c.level, input, SmallestSnapshot(db), Live(db) + LeftBehind(db.version, c))
  }

  ghost predicate Compact(db: Db, c: Compaction, input: seq<Entry>, pieces: seq<seq<Entry>>,
                          outs: seq<File>, v': Version, db': Db) {
    CompactsTo(db, c, input, pieces, outs, v', db') && SafeInputs(db, c, input)
  }

  /** DeleteObsoleteFiles: logs before the manifest's log number, and tables that are neither
      in the current version nor pinned by an older one or by pending outputs. */
  ghost predicate DeleteObsoleteFiles(db: Db, pinned: set<nat>, db': Db) {
    && db.up
    && db' == db.(logs := map n | n in db.logs && n >= db.manifest.logNumber :: db.logs[n],
                  tables := db.tables * (Files(db.version) + pinned))
  }

  /** The process dies: whatever memory held is gone. */
  ghost predicate Crash(db: Db, db': Db) {
    && db.up && !db'.up
    && db'.logs == db.logs && db'.tables == db.tables && db'.manifest == db.manifest && db'.version == db.version
    && db'.history == db.history && db'.dropped == db.dropped && db'.floor == db.floor
  }

  /** What VersionSet::Recover rebuilds from the manifest, all edits in one builder. */
  ghost predicate RecoveredFrom(m: Manifest, r: Version) {
    && WellLevelled(m.edits)
    && forall l :: 0 <= l < NUM_LEVELS ==>
         SortedFiles(r[l]) && FileSet(r[l]) == BatchedFiles(EMPTY_VERSION, m.edits, |m.edits|, l)
  }

  /** WriteSnapshot: one edit that adds every file of a version. */
  ghost predicate SnapshotEdit(r: Version, e: VersionEdit) {
    && WellLevelled([e]) && e.deletedFiles == []
    && forall l :: 0 <= l < NUM_LEVELS ==> AddedAt(e, l) == FileSet(r[l])
  }

  ghost predicate RecoveredTables(files: seq<File>, chunks: seq<seq<Entry>>, nextFile: nat) {
    && |files| == |chunks|
    && (forall i :: 0 <= i < |files| ==>
          files[i].number > nextFile && forall e :: e in files[i].entries <==> e in chunks[i])
    && (forall i, j :: 0 <= i < j < |files| ==> files[i].number < files[j].number)
  }

  function LevelZeroEdit(files: seq<File>): VersionEdit {
    VersionEdit([], seq(|files|, i requires 0 <= i < |files| => (0, files[i])))
  }

  function AfterReopen(db: Db, maxSequence: nat, files: seq<File>, newLog: nat, snap: VersionEdit, v': Version): Db {
    var last := if db.manifest.lastSequence < maxSequence then maxSequence else db.manifest.lastSequence;
    Db(true, [], None, [], last, [], newLog, newLog + 1, db.logs[newLog := []],
       db.tables + (set f | f in files :: f.number),
       Manifest([snap, LevelZeroEdit(files)], newLog, last, newLog + 1), v',
       db.history, db.dropped, if db.floor <= last then db.floor else last)
  }

  /** DB::Open on existing files. */
  ghost predicate Reopen(db: Db, r: Version, chunks: seq<seq<Entry>>, maxSequence: nat, files: seq<File>,
                         newLog: nat, snap: VersionEdit, v': Version, db': Db) {
    && !db.up && RecoveredFrom(db.manifest, r) && Files(r) <= db.tables
    && SeqIncreasing(Concat(chunks)) && (forall e :: e in Concat(chunks) <==> e in Live(db))
    && IsMaxSequence(Concat(chunks), maxSequence)
    && RecoveredTables(files, chunks, db.manifest.nextFile)
    && newLog > db.manifest.nextFile && (forall f :: f in files ==> newLog > f.number)
    && (forall n :: n in db.logs && n >= db.manifest.logNumber ==> newLog > n)
    && SnapshotEdit(r, snap) && Installs(r, LevelZeroEdit(files), v')
    && db' == AfterReopen(db, maxSequence, files, newLog, snap, v')
  }

  datatype Step =
    | AppendRecordStep(ops: seq<Op>)
    | ApplyBatchStep
    | GetSnapshotStep
    | ReleaseSnapshotStep(i: nat)
    | SwitchMemtableStep
    | FlushStep(level: nat, f: File, v: Version)
    | TrivialMoveStep(c: Compaction, v: Version)
    | CompactStep(c: Compaction, input: seq<Entry>, pieces: seq<seq<Entry>>, outs: seq<File>, v: Version)
    | DeleteObsoleteFilesStep(pinned: set<nat>)
    | CrashStep
    | ReopenStep(r: Version, chunks: seq<seq<Entry>>, maxSequence: nat, files: seq<File>, newLog: nat,
                 snap: VersionEdit, v: Version)

  ghost predicate Next(db: Db, step: Step, db': Db) {
    match step
    case AppendRecordStep(ops) => AppendRecord(db, ops, db')
    case ApplyBatchStep => ApplyBatch(db, db')
    case GetSnapshotStep => GetSnapshot(db, db')
    case ReleaseSnapshotStep(i) => ReleaseSnapshot(db, i, db')
    case SwitchMemtableStep => SwitchMemtable(db, db')
    case FlushStep(level, f, v) => Flush(db, level, f, v, db')
    case TrivialMoveStep(c, v) => TrivialMove(db, c, v, db')
    case CompactStep(c, input, pieces, outs, v) => Compact(db, c, input, pieces, outs, v, db')
    case DeleteObsoleteFilesStep(pinned) => DeleteObsoleteFiles(db, pinned, db')
    case CrashStep => Crash(db, db')
    case ReopenStep(r, chunks, maxSequence, files, newLog, snap, v) =>
      Reopen(db, r, chunks, maxSequence, files, newLog, snap, v, db')
  }

  /** NewDB: nothing but a manifest with the initial counters. */
  ghost predicate Init(db: Db) {
    && !db.up && db.logs == map[] && db.tables == {} && db.manifest == Manifest([], 0, 0, 2)
    && db.version == EMPTY_VERSION && db.history == {} && db.dropped == {} && db.floor == 0
  }

  ghost predicate Run(dbs: seq<Db>, steps: seq<Step>) {
    && |dbs| == |steps| + 1 && Init(dbs[0])
    && forall i :: 0 <= i < |steps| ==> Next(dbs[i], steps[i], dbs[i + 1])
  }
}
