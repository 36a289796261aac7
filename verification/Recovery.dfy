/** Building tables from memtables, and replaying write-ahead logs on open. */
module Recovery {
  import opened DbFormat
  import opened Versions
  import opened Compactions

  /** Entries in the order a log receives them: strictly increasing sequence numbers. */
  ghost predicate SeqIncreasing(es: seq<Entry>) {
    forall i, j :: 0 <= i < j < |es| ==> es[i].ik.seqno < es[j].ik.seqno
  }

  /** The memtable hands its entries to BuildTable in internal-key order. */
  function SortEntries(es: seq<Entry>): (r: seq<Entry>)
    requires SeqIncreasing(es)
    ensures Sorted(r) && |r| == |es|
    ensures forall d :: d in r <==> d in es
  {
    if es == [] then []
    else
      var n := |es| - 1;
      assert es == es[..n] + [es[n]];
      assert forall d :: d in es[..n] ==> d.ik.seqno < es[n].ik.seqno;
      InsertEntry(SortEntries(es[..n]), es[n])
  }

  ghost predicate Bounded(es: seq<Entry>) {
    forall e :: e in es ==> e.ik.seqno <= MAX_SEQUENCE_NUMBER
  }

  /** BuildTable for a non-empty memtable. */
  function BuildTable(number: nat, size: nat, es: seq<Entry>): (f: File)
    requires es != [] && SeqIncreasing(es) && Bounded(es)
    ensures f.number == number && forall e :: e in f.entries <==> e in es
  {
    FileMeta(number, size, SortEntries(es))
  }

  ghost predicate Increasing(ns: seq<nat>) {
    forall i, j :: 0 <= i < j < |ns| ==> ns[i] < ns[j]
  }

  function InsertNumber(ns: seq<nat>, n: nat): (r: seq<nat>)
    requires Increasing(ns) && n !in ns
    ensures Increasing(r)
    ensures forall m :: m in r <==> m == n || m in ns
  {
    if ns == [] || n < ns[0] then [n] + ns
    else
      var rest := InsertNumber(ns[1..], n);
      assert forall m :: m in ns <==> m == ns[0] || m in ns[1..];
      assert forall i :: 0 <= i < |rest| ==> rest[i] in rest;
      [ns[0]] + rest
  }

  /** Logs numbered later hold only newer entries. */
  ghost predicate LogsInOrder(logs: map<nat, seq<Entry>>, minLog: nat) {
    && (forall n :: n in logs && n >= minLog ==> SeqIncreasing(logs[n]))
    && (forall m, n, d, e :: m in logs && n in logs && minLog <= m < n && d in logs[m] && e in logs[n] ==>
          d.ik.seqno < e.ik.seqno)
  }

  /** Everything in the logs that recovery replays. */
  ghost function LiveEntries(logs: map<nat, seq<Entry>>, minLog: nat): set<Entry> {
    set n, e | n in logs && n >= minLog && e in logs[n] :: e
  }

  /** Non-empty pieces of an entry sequence, in order. */
  ghost predicate Chunks(chunks: seq<seq<Entry>>, all: seq<Entry>) {
    Concat(chunks) == all && forall c :: c in chunks ==> c != []
  }

  /** max is the largest of a start value and the sequence numbers of es. */
  ghost predicate MaxFrom(start: nat, es: seq<Entry>, max: nat) {
    && max >= start && (forall e :: e in es ==> e.ik.seqno <= max)
    && (max == start || exists e :: e in es && e.ik.seqno == max)
  }

  lemma MaxOfNone(start: nat)
    ensures MaxFrom(start, [], start)
  {
  }

  lemma MaxGrows(start: nat, es: seq<Entry>, max: nat, e: Entry)
    requires MaxFrom(start, es, max)
    ensures MaxFrom(start, es + [e], if e.ik.seqno > max then e.ik.seqno else max)
  {
    if e.ik.seqno > max {
      assert e in es + [e];
    } else if max != start {
      var d :| d in es && d.ik.seqno == max;
      assert d in es + [e];
    }
  }

  /** RecoverLogFile: replay one log into memtables; a full memtable becomes a chunk at
      once, the last one at the end. When a memtable is full is the parameter spill. */
  method RecoverLogFile(log: seq<Entry>, spill: nat -> bool, maxSequence: nat)
    returns (chunks: seq<seq<Entry>>, max: nat)
    ensures Chunks(chunks, log)
    ensures MaxFrom(maxSequence, log, max)
  {
    hide MaxFrom;
    MaxOfNone(maxSequence);
    chunks, max := [], maxSequence;
    var mem: seq<Entry> := [];
    var i := 0;
    while i < |log|
      invariant 0 <= i <= |log|
      invariant Concat(chunks) + mem == log[..i]
      invariant forall c :: c in chunks ==> c != []
      invariant MaxFrom(maxSequence, log[..i], max)
    {
      assert log[..i + 1] == log[..i] + [log[i]];
      mem := mem + [log[i]];
      MaxGrows(maxSequence, log[..i], max, log[i]);
      if log[i].ik.seqno > max {
        max := log[i].ik.seqno;
      }
      if spill(i) {
        ConcatAppend(chunks, mem);
        chunks, mem := chunks + [mem], [];
      }
      i := i + 1;
    }
    assert log[..i] == log;
    if mem != [] {
      ConcatAppend(chunks, mem);
      chunks := chunks + [mem];
    }
  }

  lemma {:induction false} ConcatMany(xs: seq<seq<Entry>>, ys: seq<seq<Entry>>)
    ensures Concat(xs + ys) == Concat(xs) + Concat(ys)
  {
    if ys == [] {
      assert xs + ys == xs;
    } else {
      var n := |ys| - 1;
      ConcatMany(xs, ys[..n]);
      assert xs + ys == (xs + ys[..n]) + [ys[n]];
      ConcatAppend(xs + ys[..n], ys[n]);
      assert Concat(xs) + Concat(ys) == Concat(xs) + Concat(ys[..n]) + ys[n];
    }
  }

  /** The logs to replay, in the order in which they were generated. */
  method SortLogs(children: seq<nat>, minLog: nat) returns (logs: seq<nat>)
    requires forall i, j :: 0 <= i < j < |children| ==> children[i] != children[j]
    ensures Increasing(logs)
    ensures forall n :: n in logs <==> n in children && n >= minLog
  {
    logs := [];
    var i := 0;
    while i < |children|
      invariant 0 <= i <= |children| && Increasing(logs)
      invariant forall n :: n in logs <==> n in children[..i] && n >= minLog
    {
      assert children[..i + 1] == children[..i] + [children[i]];
      if children[i] >= minLog { logs := InsertNumber(logs, children[i]); }
      i := i + 1;
    }
    assert children[..i] == children;
  }

  /** What has been replayed after the first i logs. */
  ghost predicate Replayed(logs: map<nat, seq<Entry>>, order: seq<nat>, i: nat, all: seq<Entry>)
    requires i <= |order| && forall n :: n in order ==> n in logs
  {
    && SeqIncreasing(all)
    && forall e :: e in all <==> exists j :: 0 <= j < i && e in logs[order[j]]
  }

  lemma ReplayOneMore(logs: map<nat, seq<Entry>>, minLog: nat, order: seq<nat>, i: nat, all: seq<Entry>)
    requires i < |order| && (forall n :: n in order ==> n in logs && n >= minLog) && Increasing(order)
    requires LogsInOrder(logs, minLog) && Replayed(logs, order, i, all)
    ensures Replayed(logs, order, i + 1, all + logs[order[i]])
  {
    var log := logs[order[i]];
    assert order[i] in order;
    forall d, e | d in all && e in log ensures d.ik.seqno < e.ik.seqno {
      var j :| 0 <= j < i && d in logs[order[j]];
      assert order[j] in order && order[j] < order[i];
    }
    forall a, b | 0 <= a < b < |all + log| ensures (all + log)[a].ik.seqno < (all + log)[b].ik.seqno {
      if a < |all| <= b {
        assert (all + log)[a] in all && (all + log)[b] in log;
      }
    }
    forall e ensures e in all + log <==> exists j :: 0 <= j < i + 1 && e in logs[order[j]] {
      if j :| 0 <= j < i + 1 && e in logs[order[j]] {
        assert j < i ==> e in all;
      }
    }
  }

  ghost predicate IsMaxSequence(all: seq<Entry>, max: nat) {
    && (forall e :: e in all ==> e.ik.seqno <= max)
    && (max == 0 || exists e :: e in all && e.ik.seqno == max)
  }

  lemma MaxOfBoth(all: seq<Entry>, before: nat, log: seq<Entry>, max: nat)
    requires IsMaxSequence(all, before) && MaxFrom(before, log, max)
    ensures IsMaxSequence(all + log, max)
  {
    if max != 0 {
      var e :| (e in all || e in log) && e.ik.seqno == max;
      assert e in all + log;
    }
  }

  lemma MoreChunks(chunks: seq<seq<Entry>>, all: seq<Entry>, more: seq<seq<Entry>>, log: seq<Entry>)
    requires Chunks(chunks, all) && Chunks(more, log)
    ensures Chunks(chunks + more, all + log)
  {
    ConcatMany(chunks, more);
  }

  lemma NothingReplayed(logs: map<nat, seq<Entry>>, order: seq<nat>)
    requires forall n :: n in order ==> n in logs
    ensures Replayed(logs, order, 0, []) && Chunks([], []) && IsMaxSequence([], 0)
  {
  }

  lemma ReplayedAll(logs: map<nat, seq<Entry>>, minLog: nat, order: seq<nat>, all: seq<Entry>)
    requires forall n :: n in order <==> n in logs && n >= minLog
    requires Replayed(logs, order, |order|, all)
    ensures SeqIncreasing(all) && forall e :: e in all <==> e in LiveEntries(logs, minLog)
  {
    forall e | e in LiveEntries(logs, minLog) ensures e in all {
      var n :| n in logs && n >= minLog && e in logs[n];
      assert n in order;
    }
    forall e | e in all ensures e in LiveEntries(logs, minLog) {
      var j :| 0 <= j < |order| && e in logs[order[j]];
      assert order[j] in order;
    }
  }

  /** DBImpl::Recover: find the live logs, sort them, replay each in turn. */
  method RecoverLogs(logs: map<nat, seq<Entry>>, children: seq<nat>, minLog: nat, spill: (nat, nat) -> bool)
    returns (chunks: seq<seq<Entry>>, maxSequence: nat)
    requires forall n :: n in children <==> n in logs
    requires forall i, j :: 0 <= i < j < |children| ==> children[i] != children[j]
    requires LogsInOrder(logs, minLog)
    ensures SeqIncreasing(Concat(chunks)) && Chunks(chunks, Concat(chunks))
    ensures forall e :: e in Concat(chunks) <==> e in LiveEntries(logs, minLog)
    ensures IsMaxSequence(Concat(chunks), maxSequence)
  {
    hide LogsInOrder, SeqIncreasing, LiveEntries, Replayed, IsMaxSequence;
    var order := SortLogs(children, minLog);
    chunks, maxSequence := [], 0;
    NothingReplayed(logs, order);
    ghost var all: seq<Entry> := [];
    var i := 0;
    while i < |order|
      invariant 0 <= i <= |order|
      invariant Chunks(chunks, all) && Replayed(logs, order, i, all)
      invariant IsMaxSequence(all, maxSequence)
    {
      var n := order[i];
      assert n in order;
      var more, max := RecoverLogFile(logs[n], (j: nat) => spill(n, j), maxSequence);
      ReplayOneMore(logs, minLog, order, i, all);
      MoreChunks(chunks, all, more, logs[n]);
      MaxOfBoth(all, maxSequence, logs[n], max);
      chunks, maxSequence, all := chunks + more, max, all + logs[n];
      i := i + 1;
    }
    ReplayedAll(logs, minLog, order, all);
    assert Chunks(chunks, Concat(chunks));
  }
}
