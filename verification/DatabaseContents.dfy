/** What a client of the database sees: a plain map that puts set and deletes clear. */
module DatabaseContents {
  import opened DbFormat
  import opened Database
  import opened DatabaseRuns
  import DatabaseReads
  import DatabaseScans

  type Contents = map<UserKey, string>

  function ApplyOp(m: Contents, op: Op): Contents {
    match op
    case Put(k, v) => m[k := v]
    case Delete(k) => m - {k}
  }

  function ApplyOps(m: Contents, ops: seq<Op>): Contents {
    if ops == [] then m else ApplyOp(ApplyOps(m, ops[..|ops| - 1]), ops[|ops| - 1])
  }

  function Lookup(m: Contents, k: UserKey): Result {
    if k in m then Found(m[k]) else NotFound
  }

  // ----- The maps of a run, from the operations that clients issued -----

  /** All batches that reached the log. */
  ghost function Logged(steps: seq<Step>): Contents {
    if steps == [] then map[]
    else
      var n := |steps| - 1;
      if steps[n].AppendRecordStep? then ApplyOps(Logged(steps[..n]), steps[n].ops) else Logged(steps[..n])
  }

  /** The batches a reader may see: a logged batch appears when it has been applied, or replayed. */
  ghost function Published(steps: seq<Step>): Contents {
    if steps == [] then map[]
    else
      var n := |steps| - 1;
      if steps[n].ApplyBatchStep? || steps[n].ReopenStep? then Logged(steps[..n]) else Published(steps[..n])
  }

  /** For every live snapshot, the map as it was when the snapshot was taken. */
  ghost function Taken(steps: seq<Step>): seq<Contents> {
    if steps == [] then []
    else
      var n := |steps| - 1;
      var before := Taken(steps[..n]);
      match steps[n]
      case GetSnapshotStep => before + [Published(steps[..n])]
      case ReleaseSnapshotStep(i) => if i < |before| then before[..i] + before[i + 1..] else before
      case ReopenStep(_, _, _, _, _, _, _) => []
      case _ => before
  }

  /** Reads at s answer as the map does. */
  ghost predicate Shows(S: set<Entry>, s: nat, m: Contents) {
    forall k :: Read(S, k, s) == Lookup(m, k)
  }

  ghost predicate Tracks(db: Db, steps: seq<Step>) {
    && Shows(db.history, MAX_SEQUENCE_NUMBER, Logged(steps))
    && (db.up ==> Shows(db.history, db.lastSequence, Published(steps)) && SnapshotsShow(db, Taken(steps)))
    && (db.up && db.pending == [] ==> Published(steps) == Logged(steps))
  }

  ghost predicate SnapshotsShow(db: Db, taken: seq<Contents>) {
    && |taken| == |db.snapshots|
    && forall i :: 0 <= i < |taken| ==> Shows(db.history, db.snapshots[i], taken[i])
  }

  // ----- One operation, one batch -----

  /** One more entry, newer than all others, is one more operation. */
  lemma OneMore(S: set<Entry>, m: Contents, op: Op, e: Entry)
    requires UniqueSeq(S + {e}) && Shows(S, MAX_SEQUENCE_NUMBER, m)
    requires forall d :: d in S ==> d.ik.seqno < e.ik.seqno
    requires e.ik.seqno < MAX_SEQUENCE_NUMBER && e.ik.ukey == op.key
    requires Answer(e) == Lookup(ApplyOp(m, op), op.key)
    ensures Shows(S + {e}, MAX_SEQUENCE_NUMBER, ApplyOp(m, op))
  {
    hide Read;
    forall k ensures Read(S + {e}, k, MAX_SEQUENCE_NUMBER) == Lookup(ApplyOp(m, op), k) {
      if k == op.key {
        assert Newest(S + {e}, k, MAX_SEQUENCE_NUMBER, e);
        ReadIsNewest(S + {e}, k, MAX_SEQUENCE_NUMBER, e);
      } else {
        ReadIgnores(S, {e}, k, MAX_SEQUENCE_NUMBER);
      }
    }
  }

  /** A stamped batch on top of older entries. */
  lemma {:induction false} BatchShows(S: set<Entry>, last: nat, ops: seq<Op>, m: Contents)
    requires UniqueSeq(S) && Shows(S, MAX_SEQUENCE_NUMBER, m) && forall d :: d in S ==> d.ik.seqno <= last
    requires last + |ops| < MAX_SEQUENCE_NUMBER
    ensures Shows(S + Elements(Stamp(last, ops)), MAX_SEQUENCE_NUMBER, ApplyOps(m, ops))
    decreases |ops|
  {
    hide Shows, UniqueSeq, Stamp;
    if ops == [] {
      assert S + Elements(Stamp(last, ops)) == S by { StampSplits(last, ops); }
    } else {
      var n := |ops| - 1;
      var older := S + Elements(Stamp(last, ops[..n]));
      BatchShows(S, last, ops[..n], m);
      StampSplits(last, ops);
      var e := Stamp(last, ops)[n];
      StampIsNewer(S, last, ops[..n], e);
      assert S + Elements(Stamp(last, ops)) == older + {e};
      OneMore(older, ApplyOps(m, ops[..n]), ops[n], e);
    }
  }

  /** The last operation of a batch gets the last entry. */
  lemma StampSplits(last: nat, ops: seq<Op>)
    ensures |Stamp(last, ops)| == |ops|
    ensures ops != [] ==>
              var n := |ops| - 1;
              var e := Stamp(last, ops)[n];
              && Elements(Stamp(last, ops)) == Elements(Stamp(last, ops[..n])) + {e}
              && e.ik.seqno == last + |ops| && e.ik.ukey == ops[n].key
              && forall m :: Answer(e) == Lookup(ApplyOp(m, ops[n]), ops[n].key)
  {
    if ops != [] {
      var n := |ops| - 1;
      assert Stamp(last, ops) == Stamp(last, ops[..n]) + [Stamp(last, ops)[n]];
    }
  }

  lemma StampIsNewer(S: set<Entry>, last: nat, ops: seq<Op>, e: Entry)
    requires UniqueSeq(S) && (forall d :: d in S ==> d.ik.seqno <= last) && last + |ops| < MAX_SEQUENCE_NUMBER
    requires e.ik.seqno == last + |ops| + 1
    ensures forall d :: d in S + Elements(Stamp(last, ops)) ==> d.ik.seqno < e.ik.seqno
    ensures UniqueSeq(S + Elements(Stamp(last, ops)) + {e})
  {
    StampFacts(last, ops);
    assert forall d :: d in Stamp(last, ops) ==> d.ik.seqno <= last + |ops|;
  }

  /** Entries above s change nothing at s. */
  lemma NotYet(S: set<Entry>, B: set<Entry>, s: nat, m: Contents)
    requires UniqueSeq(S + B) && Shows(S, s, m) && forall b :: b in B ==> s < b.ik.seqno
    ensures Shows(S + B, s, m)
  {
    hide Read;
    forall k ensures Read(S + B, k, s) == Lookup(m, k) {
      ReadIgnores(S, B, k, s);
    }
  }

  lemma AllVisible(S: set<Entry>, s: nat, m: Contents)
    requires UniqueSeq(S) && Shows(S, MAX_SEQUENCE_NUMBER, m) && forall d :: d in S ==> d.ik.seqno <= s
    requires s <= MAX_SEQUENCE_NUMBER
    ensures Shows(S, s, m)
  {
    hide Read;
    forall k ensures Read(S, k, s) == Lookup(m, k) {
      ReadSaturates(S, k, s, MAX_SEQUENCE_NUMBER);
    }
  }

  // ----- Steps -----

  lemma HistoryUnique(db: Db)
    requires Inv(db)
    ensures UniqueSeq(db.history)
    ensures db.up ==> db.lastSequence < MAX_SEQUENCE_NUMBER && forall i :: 0 <= i < |db.snapshots| ==> db.snapshots[i] <= db.lastSequence
  {
  }

  lemma AppendFacts(db: Db, ops: seq<Op>, db': Db)
    requires Inv(db) && AppendRecord(db, ops, db')
    ensures UniqueSeq(db.history) && UniqueSeq(db'.history) && |Stamp(db.lastSequence, ops)| > 0
    ensures forall i :: 0 <= i < |db.snapshots| ==> db.snapshots[i] <= db.lastSequence
    ensures forall e :: e in db.history ==> e.ik.seqno <= db.lastSequence
    ensures forall e :: e in Stamp(db.lastSequence, ops) ==> db.lastSequence < e.ik.seqno
  {
    hide Inv;
    AppendRecordInv(db, ops, db');
    HistoryUnique(db);
    HistoryUnique(db');
    HistoryBound(db);
  }

  lemma AppendTracks(db: Db, steps: seq<Step>, ops: seq<Op>, db': Db)
    requires Inv(db) && Tracks(db, steps) && AppendRecord(db, ops, db')
    ensures Tracks(db', steps + [AppendRecordStep(ops)])
  {
    hide Inv, Shows, Stamp, UniqueSeq;
    AppendFacts(db, ops, db');
    var batch := Stamp(db.lastSequence, ops);
    assert (steps + [AppendRecordStep(ops)])[..|steps|] == steps;
    BatchShows(db.history, db.lastSequence, ops, Logged(steps));
    NotYet(db.history, Elements(batch), db.lastSequence, Published(steps));
    forall i | 0 <= i < |db.snapshots| ensures Shows(db'.history, db.snapshots[i], Taken(steps)[i]) {
      NotYet(db.history, Elements(batch), db.snapshots[i], Taken(steps)[i]);
    }
  }

  /** After a step that leaves nothing pending, all that was logged is visible. */
  lemma NowVisible(db: Db, steps: seq<Step>)
    requires Inv(db) && db.up && db.pending == [] && Shows(db.history, MAX_SEQUENCE_NUMBER, Logged(steps))
    ensures Shows(db.history, db.lastSequence, Logged(steps))
  {
    HistoryUnique(db);
    HistoryBound(db);
    hide Inv, Shows;
    AllVisible(db.history, db.lastSequence, Logged(steps));
  }

  /** Nothing that a client sees has changed. */
  ghost predicate Quiet(db: Db, db': Db) {
    && db'.history == db.history && db'.up == db.up && db'.lastSequence == db.lastSequence
    && db'.snapshots == db.snapshots && db'.pending == db.pending
  }

  lemma BackgroundIsQuiet(db: Db, step: Step, db': Db)
    requires Next(db, step, db')
    requires step.SwitchMemtableStep? || step.FlushStep? || step.TrivialMoveStep? || step.CompactStep? || step.DeleteObsoleteFilesStep?
    ensures Quiet(db, db')
  {
  }

  lemma QuietTracks(db: Db, steps: seq<Step>, step: Step, db': Db)
    requires Tracks(db, steps) && Quiet(db, db')
    requires step.SwitchMemtableStep? || step.FlushStep? || step.TrivialMoveStep? || step.CompactStep? || step.DeleteObsoleteFilesStep?
    ensures Tracks(db', steps + [step])
  {
    hide Shows;
    assert (steps + [step])[..|steps|] == steps;
  }

  lemma SnapshotTracks(db: Db, steps: seq<Step>, step: Step, db': Db)
    requires Tracks(db, steps) && Next(db, step, db') && (step.GetSnapshotStep? || step.ReleaseSnapshotStep?)
    ensures Tracks(db', steps + [step])
  {
    hide Shows;
    assert (steps + [step])[..|steps|] == steps;
  }

  lemma PublishTracks(db: Db, steps: seq<Step>, step: Step, db': Db)
    requires Inv(db') && Tracks(db, steps) && Next(db, step, db') && (step.ApplyBatchStep? || step.ReopenStep?)
    ensures Tracks(db', steps + [step])
  {
    hide Shows, Inv, RecoveredFrom, SnapshotEdit;
    assert (steps + [step])[..|steps|] == steps;
    NowVisible(db', steps);
  }

  lemma CrashTracks(db: Db, steps: seq<Step>, db': Db)
    requires Tracks(db, steps) && Crash(db, db')
    ensures Tracks(db', steps + [CrashStep])
  {
    hide Shows;
    assert (steps + [CrashStep])[..|steps|] == steps;
  }

  lemma StepTracks(db: Db, steps: seq<Step>, step: Step, db': Db)
    requires Inv(db) && Tracks(db, steps) && Next(db, step, db')
    ensures Tracks(db', steps + [step])
  {
    hide Inv, Tracks;
    if step.AppendRecordStep? {
      AppendTracks(db, steps, step.ops, db');
    } else if step.ApplyBatchStep? || step.ReopenStep? {
      StepInv(db, step, db');
      PublishTracks(db, steps, step, db');
    } else if step.GetSnapshotStep? || step.ReleaseSnapshotStep? {
      SnapshotTracks(db, steps, step, db');
    } else if step.CrashStep? {
      CrashTracks(db, steps, db');
    } else {
      BackgroundIsQuiet(db, step, db');
      QuietTracks(db, steps, step, db');
    }
  }

  /** In every state of every run, reads of the history answer as the map of the operations issued:
      at LastSequence, and at every live snapshot as the map was then. */
  lemma {:induction false} RunTracks(dbs: seq<Db>, steps: seq<Step>)
    requires Run(dbs, steps)
    ensures Inv(dbs[|steps|]) && Tracks(dbs[|steps|], steps)
    decreases |steps|
  {
    RunInv(dbs, steps, |steps|);
    hide Inv;
    if steps == [] {
      forall k ensures Read(dbs[0].history, k, MAX_SEQUENCE_NUMBER) == NotFound {}
    } else {
      var n := |steps| - 1;
      hide Tracks, Next, Init;
      RunTracks(dbs[..n + 1], steps[..n]);
      assert steps == steps[..n] + [steps[n]];
      StepTracks(dbs[n], steps[..n], steps[n], dbs[n + 1]);
    }
  }

  // ----- What clients read -----

  /** The database after a run. */
  ghost predicate After(db: Db, dbs: seq<Db>, steps: seq<Step>) {
    Run(dbs, steps) && db == dbs[|steps|] && db.up
  }

  /** Get without a snapshot. */
  method Get(db: Db, k: UserKey, ghost dbs: seq<Db>, ghost steps: seq<Step>) returns (r: Result)
    requires After(db, dbs, steps)
    ensures r == Lookup(Published(steps), k)
  {
    RunTracks(dbs, steps);
    hide Inv, Read, Run;
    r := DatabaseReads.Get(db, k, db.lastSequence);
  }

  /** Get at the i-th live snapshot. */
  method GetAt(db: Db, i: nat, k: UserKey, ghost dbs: seq<Db>, ghost steps: seq<Step>) returns (r: Result)
    requires After(db, dbs, steps) && i < |db.snapshots|
    ensures i < |Taken(steps)| && r == Lookup(Taken(steps)[i], k)
  {
    RunTracks(dbs, steps);
    hide Inv, Read, Run;
    r := DatabaseReads.Get(db, k, db.snapshots[i]);
  }

  /** The pairs of the map in ascending order. */
  ghost predicate Lists(pairs: seq<(UserKey, string)>, m: Contents) {
    && (forall i, j :: 0 <= i < j < |pairs| ==> pairs[i].0 < pairs[j].0)
    && (forall k, v :: (k, v) in pairs <==> k in m && m[k] == v)
  }

  lemma ScanLists(S: set<Entry>, s: nat, m: Contents, pairs: seq<(UserKey, string)>)
    requires Shows(S, s, m) && DatabaseScans.IsScan(S, s, pairs)
    ensures Lists(pairs, m)
  {
    hide Read;
    forall k, v ensures (k, v) in pairs <==> k in m && m[k] == v {
      assert Read(S, k, s) == Lookup(m, k);
    }
  }

  /** A scan in either direction. */
  method Scan(db: Db, backward: bool, ghost dbs: seq<Db>, ghost steps: seq<Step>) returns (pairs: seq<(UserKey, string)>)
    requires After(db, dbs, steps)
    ensures Lists(pairs, Published(steps))
  {
    RunTracks(dbs, steps);
    hide Inv, Read, Run, DatabaseScans.IsScan, Lists, Shows;
    if backward {
      pairs := DatabaseScans.ScanBackward(db, db.lastSequence);
    } else {
      pairs := DatabaseScans.Scan(db, db.lastSequence);
    }
    ScanLists(db.history, db.lastSequence, Published(steps), pairs);
  }

  /** A scan at the i-th live snapshot. */
  method ScanAt(db: Db, i: nat, backward: bool, ghost dbs: seq<Db>, ghost steps: seq<Step>) returns (pairs: seq<(UserKey, string)>)
    requires After(db, dbs, steps) && i < |db.snapshots|
    ensures i < |Taken(steps)| && Lists(pairs, Taken(steps)[i])
  {
    RunTracks(dbs, steps);
    hide Inv, Read, Run, DatabaseScans.IsScan, Lists, Shows;
    if backward {
      pairs := DatabaseScans.ScanBackward(db, db.snapshots[i]);
    } else {
      pairs := DatabaseScans.Scan(db, db.snapshots[i]);
    }
    ScanLists(db.history, db.snapshots[i], Taken(steps)[i], pairs);
  }
}
