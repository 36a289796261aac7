/** Point reads of an open database: memtables, then the levels. */
module DatabaseReads {
  import opened Wrappers
  import opened DbFormat
  import opened Versions
  import opened Recovery
  import opened Database
  import opened DatabaseRuns

  /** MemTable::Get: seek the lookup key among the memtable's entries in key order. */
  function MemGet(mem: seq<Entry>, k: UserKey, s: nat): (hit: Option<Entry>)
    requires SeqIncreasing(mem)
    ensures hit.Some? ==> Newest(Elements(mem), k, s, hit.value)
    ensures hit.None? ==> forall e :: e in mem ==> !Visible(e, k, s)
  {
    hide Newest, SortedGet;
    assert Elements(SortEntries(mem)) == Elements(mem);
    SortedGet(SortEntries(mem), k, s)
  }

  /** Layers searched in turn, each newer than all that follow: the first hit decides. */
  lemma FirstLayerWins(top: set<Entry>, rest: set<Entry>, k: UserKey, s: nat, e: Entry)
    requires UniqueSeq(top + rest) && Newest(top, k, s, e)
    requires forall t, r :: t in top && r in rest ==> r.ik.seqno < t.ik.seqno
    ensures Read(top + rest, k, s) == Answer(e)
  {
    assert Newest(top + rest, k, s, e);
    ReadIsNewest(top + rest, k, s, e);
  }

  lemma SilentLayer(top: set<Entry>, rest: set<Entry>, k: UserKey, s: nat)
    requires UniqueSeq(top + rest) && forall e :: e in top ==> !Visible(e, k, s)
    ensures Read(top + rest, k, s) == Read(rest, k, s)
  {
    assert top + rest == rest + top;
    ReadIgnores(rest, top, k, s);
  }

  /** The layers of an open database, from the newest. */
  lemma Layers(db: Db)
    requires Inv(db) && db.up
    ensures SeqIncreasing(db.mem) && (db.imm.Some? ==> SeqIncreasing(db.imm.value))
    ensures Held(db) == Elements(db.pending) + (Elements(db.mem) + (ImmEntries(db) + VersionEntries(db.version)))
    ensures forall t, r :: t in Elements(db.mem) && r in ImmEntries(db) + VersionEntries(db.version) ==> r.ik.seqno < t.ik.seqno
    ensures forall t, r :: t in ImmEntries(db) && r in VersionEntries(db.version) ==> r.ik.seqno < t.ik.seqno
  {
    LiveSplits(db);
    if db.imm.Some? { ImmBeforeMem(db); }
    hide TreeOk, ManifestOk, HistoryOk, VersionEntries;
    var log := db.logs[db.logfile];
    assert log == db.mem + db.pending;
    assert SeqIncreasing(log);
    assert forall i :: 0 <= i < |db.mem| ==> db.mem[i] == log[i];
    assert Elements(log) == Elements(db.mem) + Elements(db.pending);
  }

  ghost function ImmEntries(db: Db): set<Entry> {
    if db.imm.Some? then Elements(db.imm.value) else {}
  }

  lemma ReadableFromHeld(db: Db, k: UserKey, s: nat)
    requires Inv(db) && db.up && (s in db.snapshots || s == db.lastSequence)
    ensures Read(Held(db), k, s) == Read(db.history, k, s)
    ensures forall e :: e in Elements(db.pending) ==> !Visible(e, k, s)
    ensures UniqueSeq(Held(db)) && WellFormed(db.version) && NewerAbove(db.version) && NewerByNumber(db.version[0])
  {
    HeldUnique(db);
    TreeParts(db.version);
    hide TreeOk, ManifestOk, LogsOk, LogsMirror, Read;
    assert db.floor <= s <= db.lastSequence;
  }

  /** DBImpl::Get: memtable, then immutable memtable, then the levels. It answers from the
      history of all writes, at LastSequence and at every live snapshot. */
  method Get(db: Db, k: UserKey, s: nat) returns (r: Result)
    requires Inv(db) && db.up
    requires s in db.snapshots || s == db.lastSequence
    ensures r == Read(db.history, k, s)
  {
    hide Inv, Read, VersionEntries, Held, WellFormed, NewerAbove, NewerByNumber, Newest, Visible, Elements, Speaks, ReadFrom;
    Layers(db);
    ReadableFromHeld(db, k, s);
    ghost var V, I, M := VersionEntries(db.version), ImmEntries(db), Elements(db.mem);
    UniqueParts(Elements(db.pending), M, I, V);
    hide UniqueSeq;
    SilentLayer(Elements(db.pending), M + (I + V), k, s);
    var hit := MemGet(db.mem, k, s);
    if hit.Some? {
      FirstLayerWins(M, I + V, k, s, hit.value);
      return Answer(hit.value);
    }
    SilentMem(db.mem, k, s);
    SilentLayer(M, I + V, k, s);
    if db.imm.Some? {
      hit := MemGet(db.imm.value, k, s);
      if hit.Some? {
        FirstLayerWins(I, V, k, s, hit.value);
        return Answer(hit.value);
      }
      SilentMem(db.imm.value, k, s);
    }
    SilentLayer(I, V, k, s);
    FirstLevelDecides(db.version, 0, k, s);
    r := Versions.Get(db.version, k, s);
  }

  lemma SilentMem(mem: seq<Entry>, k: UserKey, s: nat)
    requires forall e :: e in mem ==> !Visible(e, k, s)
    ensures forall e :: e in Elements(mem) ==> !Visible(e, k, s)
  {
  }

  lemma UniqueParts(P: set<Entry>, M: set<Entry>, I: set<Entry>, V: set<Entry>)
    requires UniqueSeq(P + (M + (I + V)))
    ensures UniqueSeq(M + (I + V)) && UniqueSeq(I + V) && UniqueSeq(V)
  {
  }
}
