/**
 * Group commit: writers queue up, the one in front writes for as many as it can take along.
 *
 * A writer is known by its place in the order of arrival. The state changes in the steps between
 * which the mutex is free, so any number of writers may arrive, and any reader may look at the last
 * sequence number, between two steps of the leader.
 */
module GroupCommit {
  import opened Wrappers
  import opened WriteBatches

  /** A call of Write; a NULL batch asks for a compaction. */
  datatype Writer = Writer(batch: Option<seq<Op>>, size: nat, sync: bool)

  datatype Status = Ok | Error

  datatype LogRecord = LogRecord(first: nat, ops: seq<Op>, synced: bool)

  // ----- Choosing the group -----

  function Batches(ws: seq<Writer>): seq<Op> {
    if ws == [] then []
    else
      var w := ws[|ws| - 1];
      Batches(ws[..|ws| - 1]) + if w.batch.Some? then w.batch.value else []
  }

  function Sizes(ws: seq<Writer>): nat {
    if ws == [] then 0
    else
      var w := ws[|ws| - 1];
      Sizes(ws[..|ws| - 1]) + if w.batch.Some? then w.size else 0
  }

  /** A group may grow to 1 MB, or only by 128 KB if its first batch is small. */
  function MaxSize(first: nat): nat {
    if first <= 0x2_0000 then first + 0x2_0000 else 0x10_0000
  }

  predicate Joins(queue: seq<Writer>, i: nat)
    requires 0 < i < |queue|
  {
    && (queue[i].sync ==> queue[0].sync)
    && (queue[i].batch.Some? ==> Sizes(queue[..i]) + queue[i].size <= MaxSize(queue[0].size))
  }

  /** The longest run of writers from the front in which each may join those before it. */
  ghost predicate IsGroup(queue: seq<Writer>, n: nat) {
    && 0 < n <= |queue|
    && (forall i :: 0 < i < n ==> Joins(queue, i))
    && (n < |queue| ==> !Joins(queue, n))
  }

  method BuildBatchGroup(queue: seq<Writer>) returns (n: nat, updates: seq<Op>)
    requires queue != [] && queue[0].batch.Some?
    ensures IsGroup(queue, n) && updates == Batches(queue[..n])
  {
    var first := queue[0];
    updates := first.batch.value;
    var size := first.size;
    var maxSize := 0x10_0000;
    if size <= 0x2_0000 {
      maxSize := size + 0x2_0000;
    }
    n := 1;
    OneWriter(queue);
    while n < |queue|
      invariant 0 < n <= |queue| && forall i :: 0 < i < n ==> Joins(queue, i)
      invariant size == Sizes(queue[..n]) && updates == Batches(queue[..n])
    {
      var w := queue[n];
      assert queue[..n + 1][..n] == queue[..n];
      if w.sync && !first.sync {
        break;
      }
      if w.batch.Some? {
        size := size + w.size;
        if size > maxSize {
          break;
        }
        updates := updates + w.batch.value;
      }
      n := n + 1;
    }
  }

  lemma OneWriter(queue: seq<Writer>)
    requires queue != [] && queue[0].batch.Some?
    ensures Batches(queue[..1]) == queue[0].batch.value && Sizes(queue[..1]) == queue[0].size
  {
    assert queue[..1][..0] == [];
    assert Batches([]) == [];
  }

  // ----- The state machine -----

  /** What the leader is doing: nothing, or writing for the first n in the queue. */
  datatype Stage =
    | Idle
    | Leading(n: nat, first: nat, ops: seq<Op>, logged: bool, synced: bool, inserted: nat, status: Status, syncError: bool)

  /** Writers that have been answered are a prefix of those that arrived; the rest are the queue.
      `starts` records the sequence number at which each batch of a group begins. */
  datatype State = State(
    arrived: seq<Writer>,
    acks: seq<Status>,
    starts: seq<Option<nat>>,
    log: seq<LogRecord>,
    mem: seq<(nat, Op)>,
    lastSequence: nat,
    backgroundError: bool,
    stage: Stage
  )

  datatype Step =
    | Arrive(w: Writer)
    | NoRoom
    | AnswerNull
    | Lead(n: nat)
    | AppendLog(ok: bool)
    | SyncLog(ok: bool)
    | InsertOne
    | Finish

  ghost predicate Init(s: State) {
    && s.arrived == [] && s.acks == [] && s.starts == [] && s.log == [] && s.mem == []
    && !s.backgroundError && s.stage == Idle
  }

  function Queue(s: State): seq<Writer> {
    if |s.acks| <= |s.arrived| then s.arrived[|s.acks|..] else []
  }

  function GroupStarts(first: nat, ws: seq<Writer>): (r: seq<Option<nat>>)
    ensures |r| == |ws|
  {
    seq(|ws|, i requires 0 <= i < |ws| => if ws[i].batch.Some? then Some(first + |Batches(ws[..i])|) else None)
  }

  /** Copies of one status, for every writer of a group. */
  function Answers(status: Status, n: nat): (r: seq<Status>)
    ensures |r| == n && forall i :: 0 <= i < n ==> r[i] == status
  {
    seq(n, i => status)
  }

  ghost predicate Next(s: State, s': State, step: Step) {
    match step
    case Arrive(w) =>
      s' == s.(arrived := s.arrived + [w])
    case NoRoom =>
      // MakeRoomForWrite failed: only the front writer is answered
      s.stage.Idle? && Queue(s) != []
      && s' == s.(acks := s.acks + [Error], starts := s.starts + [None])
    case AnswerNull =>
      s.stage.Idle? && Queue(s) != [] && !s.backgroundError && Queue(s)[0].batch.None?
      && s' == s.(acks := s.acks + [Ok], starts := s.starts + [None])
    case Lead(n) =>
      s.stage.Idle? && IsGroup(Queue(s), n) && !s.backgroundError && Queue(s)[0].batch.Some?
      && s' == s.(starts := s.starts + GroupStarts(s.lastSequence + 1, Queue(s)[..n]),
                  stage := Leading(n, s.lastSequence + 1, Batches(Queue(s)[..n]), false, false, 0, Ok, false))
    case AppendLog(ok) =>
      s.stage.Leading? && !s.stage.logged && s.stage.status.Ok?
      && s' == if ok then
                 s.(log := s.log + [LogRecord(s.stage.first, s.stage.ops, false)], stage := s.stage.(logged := true))
               else
                 s.(stage := s.stage.(status := Error))
    case SyncLog(ok) =>
      s.stage.Leading? && s.stage.logged && !s.stage.synced && s.stage.status.Ok? && s.stage.inserted == 0
      && Queue(s) != [] && Queue(s)[0].sync && s.log != []
      && s' == if ok then
                 s.(log := s.log[|s.log| - 1 := LogRecord(s.stage.first, s.stage.ops, true)],
                    stage := s.stage.(synced := true))
               else
                 s.(stage := s.stage.(status := Error, syncError := true))
    case InsertOne =>
      s.stage.Leading? && s.stage.logged && s.stage.status.Ok? && s.stage.inserted < |s.stage.ops|
      && Queue(s) != [] && (Queue(s)[0].sync ==> s.stage.synced)
      && s' == s.(mem := s.mem + [(s.stage.first + s.stage.inserted, s.stage.ops[s.stage.inserted])],
                  stage := s.stage.(inserted := s.stage.inserted + 1))
    case Finish =>
      s.stage.Leading? && Queue(s) != []
      && (s.stage.status.Ok? ==> s.stage.logged && s.stage.inserted == |s.stage.ops| && (Queue(s)[0].sync ==> s.stage.synced))
      && s' == s.(acks := s.acks + Answers(s.stage.status, s.stage.n),
                  lastSequence := s.lastSequence + |s.stage.ops|,
                  backgroundError := s.backgroundError || s.stage.syncError,
                  stage := Idle)
  }

  // ----- What every run keeps -----

  /** The writers that have a place in `starts`: the answered ones and the group at work. */
  function GroupSize(stage: Stage): nat {
    if stage.Leading? then stage.n else 0
  }

  ghost predicate Shape(s: State) {
    && |s.acks| + GroupSize(s.stage) <= |s.arrived|
    && |s.starts| == |s.acks| + GroupSize(s.stage)
  }

  /** Writer i's batch was given the range from a on. */
  ghost predicate Assigned(s: State, i: nat, a: nat) {
    i < |s.starts| && i < |s.arrived| && s.starts[i] == Some(a) && s.arrived[i].batch.Some?
  }

  function BatchOf(s: State, i: nat): seq<Op>
    requires i < |s.arrived|
  {
    if s.arrived[i].batch.Some? then s.arrived[i].batch.value else []
  }

  /** Ranges follow the order of arrival and do not meet. */
  ghost predicate RangesInOrder(s: State) {
    forall i: nat, j: nat, a: nat, b: nat :: i < j && Assigned(s, i, a) && Assigned(s, j, b) ==> a + |BatchOf(s, i)| <= b
  }

  /** Answered batches are at or below the last sequence number, the group's are above it. */
  ghost predicate RangesAroundLast(s: State) {
    forall i: nat, a: nat :: Assigned(s, i, a) ==>
      if i < |s.acks| then a + |BatchOf(s, i)| <= s.lastSequence + 1 else s.lastSequence < a
  }

  ghost predicate LogCovers(log: seq<LogRecord>, r: nat, a: nat, ops: seq<Op>, sync: bool) {
    && r < |log| && log[r].first <= a && a + |ops| <= log[r].first + |log[r].ops|
    && log[r].ops[a - log[r].first..a - log[r].first + |ops|] == ops
    && (sync ==> log[r].synced)
  }

  ghost predicate InLog(log: seq<LogRecord>, a: nat, ops: seq<Op>, sync: bool) {
    exists r: nat :: LogCovers(log, r, a, ops, sync)
  }

  ghost predicate InMem(mem: seq<(nat, Op)>, a: nat, ops: seq<Op>) {
    forall k :: 0 <= k < |ops| ==> (a + k, ops[k]) in mem
  }

  /** A batch answered with Ok is in the log, synced if its writer asked for it, and in memory. */
  ghost predicate Answered(s: State, i: nat)
    requires i < |s.acks| <= |s.arrived|
  {
    s.acks[i].Ok? && s.arrived[i].batch.Some? ==>
      exists a: nat :: Assigned(s, i, a) && InLog(s.log, a, BatchOf(s, i), s.arrived[i].sync) && InMem(s.mem, a, BatchOf(s, i))
  }

  ghost predicate AllAnswered(s: State)
    requires |s.acks| <= |s.arrived|
  {
    forall i :: 0 <= i < |s.acks| ==> Answered(s, i)
  }

  /** The sequence numbers below which everything in the log lies. */
  function LogEnd(s: State): nat {
    s.lastSequence + 1 + if s.stage.Leading? && s.stage.logged then |s.stage.ops| else 0
  }

  function MemEnd(s: State): nat {
    s.lastSequence + 1 + if s.stage.Leading? then s.stage.inserted else 0
  }

  ghost predicate LogInOrder(s: State) {
    && (forall r, q :: 0 <= r < q < |s.log| ==> s.log[r].first + |s.log[r].ops| <= s.log[q].first)
    && (forall r :: 0 <= r < |s.log| ==> s.log[r].first + |s.log[r].ops| <= LogEnd(s))
  }

  ghost predicate MemInOrder(s: State) {
    && (forall k, l :: 0 <= k < l < |s.mem| ==> s.mem[k].0 < s.mem[l].0)
    && (forall k :: 0 <= k < |s.mem| ==> s.mem[k].0 < MemEnd(s))
  }

  /** A record of the log holds this operation under this sequence number. */
  ghost predicate FromLog(log: seq<LogRecord>, n: nat, op: Op) {
    exists r :: 0 <= r < |log| && log[r].first <= n < log[r].first + |log[r].ops| && log[r].ops[n - log[r].first] == op
  }

  /** Nothing is in memory that is not in the log. */
  ghost predicate WriteAhead(s: State) {
    forall k :: 0 <= k < |s.mem| ==> FromLog(s.log, s.mem[k].0, s.mem[k].1)
  }

  ghost predicate LeaderState(s: State)
    requires Shape(s)
  {
    s.stage.Leading? ==>
      var g, ws := s.stage, s.arrived[|s.acks|..|s.acks| + s.stage.n];
      && g.n > 0 && g.first == s.lastSequence + 1 && g.ops == Batches(ws)
      && s.starts[|s.acks|..] == GroupStarts(g.first, ws)
      && (forall i :: 0 < i < g.n && ws[i].sync ==> ws[0].sync)
      && (g.logged ==> s.log != [] && s.log[|s.log| - 1] == LogRecord(g.first, g.ops, g.synced))
      && (g.synced ==> g.logged)
      && g.inserted <= |g.ops| && (g.inserted > 0 ==> g.logged)
      && forall k :: 0 <= k < g.inserted ==> (g.first + k, g.ops[k]) in s.mem
  }

  ghost predicate Inv(s: State) {
    && Shape(s) && RangesInOrder(s) && RangesAroundLast(s)
    && AllAnswered(s) && LogInOrder(s) && MemInOrder(s) && WriteAhead(s) && LeaderState(s)
  }

  // ----- Batches of a group -----

  lemma {:induction false} BatchesPrefix(ws: seq<Writer>, i: nat)
    requires i <= |ws|
    ensures Batches(ws[..i]) <= Batches(ws)
  {
    if i == |ws| {
      assert ws[..i] == ws;
    } else {
      var n := |ws| - 1;
      assert ws[..n][..i] == ws[..i];
      BatchesPrefix(ws[..n], i);
    }
  }

  /** Where the batch of writer i lies among the operations of the group. */
  lemma BatchLies(ws: seq<Writer>, i: nat)
    requires i < |ws| && ws[i].batch.Some?
    ensures var off, b := |Batches(ws[..i])|, ws[i].batch.value;
            && off + |b| == |Batches(ws[..i + 1])| <= |Batches(ws)|
            && Batches(ws)[off..off + |b|] == b
  {
    assert ws[..i + 1][..i] == ws[..i];
    BatchesPrefix(ws, i + 1);
  }

  lemma BatchesMonotone(ws: seq<Writer>, i: nat, j: nat)
    requires i <= j <= |ws|
    ensures |Batches(ws[..i])| <= |Batches(ws[..j])|
  {
    assert ws[..j][..i] == ws[..i];
    BatchesPrefix(ws[..j], i);
  }

  // ----- Steps -----

  /** Records are only added, or turn from not synced to synced. */
  ghost predicate LogGrows(log: seq<LogRecord>, log': seq<LogRecord>) {
    && |log| <= |log'|
    && forall r :: 0 <= r < |log| ==>
         log'[r].first == log[r].first && log'[r].ops == log[r].ops && (log[r].synced ==> log'[r].synced)
  }

  ghost predicate Grows(s: State, s': State) {
    && s.acks <= s'.acks && s.arrived <= s'.arrived && s.starts <= s'.starts
    && LogGrows(s.log, s'.log) && s.mem <= s'.mem
  }

  lemma InLogStays(log: seq<LogRecord>, log': seq<LogRecord>, a: nat, ops: seq<Op>, sync: bool)
    requires LogGrows(log, log') && InLog(log, a, ops, sync)
    ensures InLog(log', a, ops, sync)
  {
    var r: nat :| LogCovers(log, r, a, ops, sync);
    assert log'[r].first == log[r].first && log'[r].ops == log[r].ops;
    assert LogCovers(log', r, a, ops, sync);
  }

  lemma InMemStays(mem: seq<(nat, Op)>, mem': seq<(nat, Op)>, a: nat, ops: seq<Op>)
    requires mem <= mem' && InMem(mem, a, ops)
    ensures InMem(mem', a, ops)
  {
    forall k | 0 <= k < |ops| ensures (a + k, ops[k]) in mem' {
      assert (a + k, ops[k]) in mem;
    }
  }

  lemma AnsweredStays(s: State, s': State, i: nat)
    requires i < |s.acks| <= |s.arrived| && Grows(s, s') && |s'.acks| <= |s'.arrived| && Answered(s, i)
    ensures Answered(s', i)
  {
    hide InLog, InMem, LogGrows;
    if s.acks[i].Ok? && s.arrived[i].batch.Some? {
      var b, sync := BatchOf(s, i), s.arrived[i].sync;
      var a: nat :| Assigned(s, i, a) && InLog(s.log, a, b, sync) && InMem(s.mem, a, b);
      InLogStays(s.log, s'.log, a, b, sync);
      InMemStays(s.mem, s'.mem, a, b);
      assert Assigned(s', i, a);
    }
  }

  lemma AllAnsweredStays(s: State, s': State)
    requires |s.acks| <= |s.arrived| && Grows(s, s') && |s'.acks| <= |s'.arrived| && AllAnswered(s)
    requires forall i :: |s.acks| <= i < |s'.acks| ==> Answered(s', i)
    ensures AllAnswered(s')
  {
    forall i | 0 <= i < |s.acks| ensures Answered(s', i) { AnsweredStays(s, s', i); }
  }

  lemma WriteAheadStays(s: State, s': State)
    requires WriteAhead(s) && LogGrows(s.log, s'.log) && s.mem <= s'.mem
    requires forall k :: |s.mem| <= k < |s'.mem| ==> FromLog(s'.log, s'.mem[k].0, s'.mem[k].1)
    ensures WriteAhead(s')
  {
    forall k | 0 <= k < |s.mem| ensures FromLog(s'.log, s'.mem[k].0, s'.mem[k].1) {
      assert s'.mem[k] == s.mem[k] && FromLog(s.log, s.mem[k].0, s.mem[k].1);
    }
  }

  /** A step that assigns no range and answers nobody keeps the ranges. */
  lemma RangesStay(s: State, s': State)
    requires Shape(s) && Shape(s') && RangesInOrder(s) && RangesAroundLast(s)
    requires s'.starts == s.starts && s.arrived <= s'.arrived && |s'.acks| == |s.acks| && s'.lastSequence == s.lastSequence
    ensures RangesInOrder(s') && RangesAroundLast(s')
  {
    assert forall i: nat, a: nat :: Assigned(s', i, a) ==> Assigned(s, i, a) && BatchOf(s', i) == BatchOf(s, i);
  }

  lemma ArriveInv(s: State, s': State, w: Writer)
    requires Inv(s) && Next(s, s', Arrive(w))
    ensures Inv(s')
  {
    hide RangesInOrder, RangesAroundLast, Batches, Answered, GroupStarts, FromLog, WriteAhead;
    RangesStay(s, s');
    WriteAheadStays(s, s');
    AllAnsweredStays(s, s');
    if s.stage.Leading? {
      assert s'.arrived[|s.acks|..|s.acks| + s.stage.n] == s.arrived[|s.acks|..|s.acks| + s.stage.n];
    }
  }

  lemma AnswerFrontInv(s: State, s': State, step: Step)
    requires Inv(s) && Next(s, s', step) && (step.NoRoom? || step.AnswerNull?)
    ensures Inv(s')
  {
    assert forall i: nat, a: nat :: Assigned(s', i, a) ==> Assigned(s, i, a) && BatchOf(s', i) == BatchOf(s, i);
    assert Queue(s)[0] == s.arrived[|s.acks|];
    WriteAheadStays(s, s');
    AllAnsweredStays(s, s');
  }

  /** What a new group adds to the ranges. */
  lemma LeadAssigns(s: State, s': State, n: nat, i: nat, a: nat)
    requires Shape(s) && Next(s, s', Lead(n)) && 0 < n <= |Queue(s)| && Assigned(s', i, a)
    ensures BatchOf(s', i) == BatchOf(s, i)
    ensures var k, ws := |s.acks|, Queue(s)[..n];
            if i < k then Assigned(s, i, a)
            else i - k < n && a == s.lastSequence + 1 + |Batches(ws[..i - k])| && ws[i - k] == s.arrived[i]
  {
    hide Batches, IsGroup;
    var k, ws := |s.acks|, Queue(s)[..n];
    if i >= k { assert s'.starts[i] == GroupStarts(s.lastSequence + 1, ws)[i - k]; }
  }

  lemma LeadPair(s: State, s': State, n: nat, i: nat, j: nat, a: nat, b: nat)
    requires Shape(s) && RangesInOrder(s) && RangesAroundLast(s) && Next(s, s', Lead(n)) && 0 < n <= |Queue(s)|
    requires i < j && Assigned(s', i, a) && Assigned(s', j, b)
    ensures a + |BatchOf(s', i)| <= b
  {
    hide Batches, IsGroup;
    LeadAssigns(s, s', n, i, a);
    LeadAssigns(s, s', n, j, b);
    hide Next, Assigned, GroupStarts;
    var ws, k := Queue(s)[..n], |s.acks|;
    if i >= k {
      BatchLies(ws, i - k);
      BatchesMonotone(ws, i - k + 1, j - k);
    }
  }

  /** The ranges of a new group follow each other and everything before. */
  lemma LeadRanges(s: State, s': State, n: nat)
    requires Shape(s) && RangesInOrder(s) && RangesAroundLast(s) && Next(s, s', Lead(n)) && 0 < n <= |Queue(s)|
    ensures Shape(s') && RangesInOrder(s') && RangesAroundLast(s')
  {
    hide Batches, IsGroup, GroupStarts;
    forall i: nat, j: nat, a: nat, b: nat | i < j && Assigned(s', i, a) && Assigned(s', j, b)
      ensures a + |BatchOf(s', i)| <= b
    {
      LeadPair(s, s', n, i, j, a, b);
    }
    forall i: nat, a: nat | Assigned(s', i, a)
      ensures if i < |s.acks| then a + |BatchOf(s', i)| <= s.lastSequence + 1 else s.lastSequence < a
    {
      LeadAssigns(s, s', n, i, a);
    }
  }

  lemma GroupBounds(queue: seq<Writer>, n: nat)
    requires IsGroup(queue, n)
    ensures 0 < n <= |queue|
    ensures forall i :: 0 < i < n && queue[i].sync ==> queue[0].sync
  {
    forall i | 0 < i < n ensures queue[i].sync ==> queue[0].sync { assert Joins(queue, i); }
  }

  lemma LeadInv(s: State, s': State, n: nat)
    requires Inv(s) && Next(s, s', Lead(n))
    ensures Inv(s')
  {
    hide RangesInOrder, RangesAroundLast, IsGroup, Batches, Answered, WriteAhead, FromLog;
    GroupBounds(Queue(s), n);
    LeadRanges(s, s', n);
    WriteAheadStays(s, s');
    AllAnsweredStays(s, s');
    assert s'.arrived[|s.acks|..|s.acks| + n] == Queue(s)[..n];
    assert s'.starts[|s.acks|..] == GroupStarts(s.lastSequence + 1, Queue(s)[..n]);
  }

  lemma AppendLogInv(s: State, s': State, ok: bool)
    requires Inv(s) && Next(s, s', AppendLog(ok))
    ensures Inv(s')
  {
    hide RangesInOrder, RangesAroundLast, Batches, Answered, GroupStarts, FromLog, WriteAhead;
    RangesStay(s, s');
    WriteAheadStays(s, s');
    AllAnsweredStays(s, s');
  }

  lemma SyncLogInv(s: State, s': State, ok: bool)
    requires Inv(s) && Next(s, s', SyncLog(ok))
    ensures Inv(s')
  {
    hide RangesInOrder, RangesAroundLast, AllAnswered, GroupStarts, FromLog, WriteAhead, LogInOrder, MemInOrder, LeaderState;
    assert s.log != [] && s.log[|s.log| - 1] == LogRecord(s.stage.first, s.stage.ops, s.stage.synced) by { LeaderLogged(s); }
    assert LogGrows(s.log, s'.log);
    RangesStay(s, s');
    WriteAheadStays(s, s');
    AllAnsweredStays(s, s');
    SyncKeepsLog(s, s', ok);
    SyncKeepsLeader(s, s', ok);
  }

  lemma LeaderLogged(s: State)
    requires Shape(s) && LeaderState(s) && s.stage.Leading? && s.stage.logged
    ensures s.log != [] && s.log[|s.log| - 1] == LogRecord(s.stage.first, s.stage.ops, s.stage.synced)
    ensures s.stage.first == s.lastSequence + 1 && s.stage.inserted <= |s.stage.ops|
  {
    hide Batches, GroupStarts;
  }

  lemma SyncKeepsLog(s: State, s': State, ok: bool)
    requires Next(s, s', SyncLog(ok)) && LogInOrder(s) && MemInOrder(s) && Shape(s) && LeaderState(s)
    ensures LogInOrder(s') && MemInOrder(s')
  {
    hide Batches, GroupStarts;
  }

  lemma SyncKeepsLeader(s: State, s': State, ok: bool)
    requires Next(s, s', SyncLog(ok)) && Shape(s) && Shape(s') && LeaderState(s)
    ensures LeaderState(s')
  {
    hide Batches, GroupStarts;
  }

  lemma LastRecordHolds(log: seq<LogRecord>, n: nat)
    requires log != []
    requires var last := log[|log| - 1]; last.first <= n < last.first + |last.ops|
    ensures var last := log[|log| - 1]; FromLog(log, n, last.ops[n - last.first])
  {
  }

  lemma InsertOneInv(s: State, s': State)
    requires Inv(s) && Next(s, s', InsertOne)
    ensures Inv(s')
  {
    hide RangesInOrder, RangesAroundLast, AllAnswered, GroupStarts, FromLog, WriteAhead, LogInOrder, MemInOrder, LeaderState;
    RangesStay(s, s');
    LeaderLogged(s);
    LastRecordHolds(s.log, s.stage.first + s.stage.inserted);
    WriteAheadStays(s, s');
    AllAnsweredStays(s, s');
    InsertKeepsOrder(s, s');
    InsertKeepsLeader(s, s');
  }

  lemma InsertKeepsOrder(s: State, s': State)
    requires Next(s, s', InsertOne) && LogInOrder(s) && MemInOrder(s) && Shape(s) && LeaderState(s)
    ensures LogInOrder(s') && MemInOrder(s')
  {
    hide Batches, GroupStarts;
  }

  lemma InsertKeepsLeader(s: State, s': State)
    requires Next(s, s', InsertOne) && Shape(s) && Shape(s') && LeaderState(s)
    ensures LeaderState(s')
  {
    hide Batches, GroupStarts;
    var g := s'.stage;
    forall k | 0 <= k < g.inserted ensures (g.first + k, g.ops[k]) in s'.mem {
      if k < s.stage.inserted { assert (s.stage.first + k, s.stage.ops[k]) in s.mem; }
    }
  }

  /** The last record covers every batch of the group it was written for. */
  lemma GroupInLog(log: seq<LogRecord>, first: nat, ws: seq<Writer>, synced: bool, j: nat, sync: bool)
    requires j < |ws| && ws[j].batch.Some? && (sync ==> synced)
    requires log != [] && log[|log| - 1] == LogRecord(first, Batches(ws), synced)
    ensures InLog(log, first + |Batches(ws[..j])|, ws[j].batch.value, sync)
  {
    hide Batches;
    BatchLies(ws, j);
    assert LogCovers(log, |log| - 1, first + |Batches(ws[..j])|, ws[j].batch.value, sync);
  }

  lemma GroupInMem(mem: seq<(nat, Op)>, first: nat, ws: seq<Writer>, j: nat)
    requires j < |ws| && ws[j].batch.Some?
    requires forall k :: 0 <= k < |Batches(ws)| ==> (first + k, Batches(ws)[k]) in mem
    ensures InMem(mem, first + |Batches(ws[..j])|, ws[j].batch.value)
  {
    hide Batches;
    BatchLies(ws, j);
    var off, b := |Batches(ws[..j])|, ws[j].batch.value;
    forall k | 0 <= k < |b| ensures (first + off + k, b[k]) in mem {
      assert b[k] == Batches(ws)[off + k];
      assert (first + (off + k), Batches(ws)[off + k]) in mem;
    }
  }

  /** What the leader has done for its group when the group ends with Ok. */
  lemma GroupDone(s: State, s': State, ws: seq<Writer>, i: nat)
    requires Shape(s) && LeaderState(s) && Next(s, s', Finish) && |s.acks| <= i < |s'.acks|
    requires s'.acks[i].Ok? && s.arrived[i].batch.Some?
    requires ws == s.arrived[|s.acks|..|s.acks| + s.stage.n]
    ensures i - |s.acks| < |ws| && ws[i - |s.acks|] == s.arrived[i]
    ensures s'.arrived == s.arrived && s'.log == s.log && s'.mem == s.mem
    ensures Assigned(s', i, s.stage.first + |Batches(ws[..i - |s.acks|])|)
    ensures s.log != [] && s.log[|s.log| - 1] == LogRecord(s.stage.first, Batches(ws), s.stage.synced)
    ensures forall k :: 0 <= k < |Batches(ws)| ==> (s.stage.first + k, Batches(ws)[k]) in s.mem
    ensures s.arrived[i].sync ==> s.stage.synced
  {
    hide Batches;
    var k := |s.acks|;
    assert s.starts[i] == s.starts[k..][i - k];
    assert Queue(s)[0] == ws[0];
  }

  /** Every batch of a group that ends with Ok is logged and inserted. */
  lemma GroupAnswered(s: State, s': State, i: nat)
    requires Shape(s) && LeaderState(s) && Next(s, s', Finish) && |s.acks| <= i < |s'.acks|
    ensures |s'.acks| <= |s'.arrived| && Answered(s', i)
  {
    hide Batches, InLog, InMem, LeaderState;
    var k := |s.acks|;
    var ws := s.arrived[k..k + s.stage.n];
    if s'.acks[i].Ok? && s.arrived[i].batch.Some? {
      GroupDone(s, s', ws, i);
      GroupInLog(s.log, s.stage.first, ws, s.stage.synced, i - k, s.arrived[i].sync);
      GroupInMem(s.mem, s.stage.first, ws, i - k);
    }
  }

  lemma FinishRanges(s: State, s': State)
    requires Inv(s) && Next(s, s', Finish)
    ensures Shape(s') && RangesInOrder(s') && RangesAroundLast(s')
  {
    hide LogInOrder, MemInOrder, AllAnswered, Batches;
    var k := |s.acks|;
    var ws := s.arrived[k..k + s.stage.n];
    assert forall i: nat, a: nat :: Assigned(s', i, a) <==> Assigned(s, i, a);
    forall i: nat, a: nat | Assigned(s', i, a) && i >= k
      ensures a + |BatchOf(s', i)| <= s'.lastSequence + 1
    {
      assert s.starts[i] == s.starts[k..][i - k];
      BatchLies(ws, i - k);
    }
  }

  lemma FinishInv(s: State, s': State)
    requires Inv(s) && Next(s, s', Finish)
    ensures Inv(s')
  {
    hide RangesInOrder, RangesAroundLast, Batches, Answered, GroupStarts, FromLog, WriteAhead;
    FinishRanges(s, s');
    forall i | |s.acks| <= i < |s'.acks| ensures Answered(s', i) { GroupAnswered(s, s', i); }
    WriteAheadStays(s, s');
    AllAnsweredStays(s, s');
  }

  lemma StepInv(s: State, s': State, step: Step)
    requires Inv(s) && Next(s, s', step)
    ensures Inv(s')
  {
    hide Inv, Next;
    match step
    case Arrive(w) => ArriveInv(s, s', w);
    case NoRoom => AnswerFrontInv(s, s', step);
    case AnswerNull => AnswerFrontInv(s, s', step);
    case Lead(n) => LeadInv(s, s', n);
    case AppendLog(ok) => AppendLogInv(s, s', ok);
    case SyncLog(ok) => SyncLogInv(s, s', ok);
    case InsertOne => InsertOneInv(s, s');
    case Finish => FinishInv(s, s');
  }

  // ----- Runs -----

  ghost predicate Run(states: seq<State>, steps: seq<Step>) {
    && |states| == |steps| + 1 && Init(states[0])
    && forall i :: 0 <= i < |steps| ==> Next(states[i], states[i + 1], steps[i])
  }

  /** Every state of every interleaving satisfies the invariant. */
  lemma {:induction false} RunInv(states: seq<State>, steps: seq<Step>, i: nat)
    requires Run(states, steps) && i < |states|
    ensures Inv(states[i])
  {
    hide Inv, Next, Init;
    if i == 0 {
      InitInv(states[0]);
    } else {
      RunInv(states, steps, i - 1);
      assert Next(states[i - 1], states[i - 1 + 1], steps[i - 1]);
      StepInv(states[i - 1], states[i], steps[i - 1]);
    }
  }

  lemma InitInv(s: State)
    requires Init(s)
    ensures Inv(s)
  {
  }

  /** Answers, ranges and log records, once given, stay; the last sequence number never falls. */
  lemma {:induction false} RunGrows(states: seq<State>, steps: seq<Step>, i: nat, j: nat)
    requires Run(states, steps) && i <= j < |states|
    ensures Grows(states[i], states[j]) && states[i].lastSequence <= states[j].lastSequence
    decreases j - i
  {
    hide Inv, Next, Init, LogGrows;
    if i < j {
      RunGrows(states, steps, i, j - 1);
      RunInv(states, steps, j - 1);
      assert Next(states[j - 1], states[j - 1 + 1], steps[j - 1]);
      StepGrows(states[j - 1], states[j], steps[j - 1]);
      LogGrowsOn(states[i].log, states[j - 1].log, states[j].log);
    } else {
      LogGrowsOn(states[i].log, states[i].log, states[i].log);
    }
  }

  lemma LogGrowsOn(a: seq<LogRecord>, b: seq<LogRecord>, c: seq<LogRecord>)
    ensures LogGrows(a, a)
    ensures LogGrows(a, b) && LogGrows(b, c) ==> LogGrows(a, c)
  {
  }

  lemma StepGrows(s: State, s': State, step: Step)
    requires Inv(s) && Next(s, s', step)
    ensures Grows(s, s') && s.lastSequence <= s'.lastSequence
  {
    hide RangesInOrder, RangesAroundLast, AllAnswered, MemInOrder, WriteAhead, Batches, GroupStarts, IsGroup;
  }

  // ----- What a caller may rely on -----

  /** An acknowledged batch is in exactly one log record, and in memory exactly once, whole,
      under sequence numbers that are all at or below what a reader may take. */
  lemma AcknowledgedOnce(states: seq<State>, steps: seq<Step>, t: nat, i: nat) returns (a: nat, r: nat)
    requires Run(states, steps) && t < |states|
    requires i < |states[t].acks| && i < |states[t].arrived|
    requires states[t].acks[i].Ok? && states[t].arrived[i].batch.Some?
    ensures var s := states[t];
            var b := BatchOf(s, i);
            && Assigned(s, i, a) && a + |b| <= s.lastSequence + 1
            && LogCovers(s.log, r, a, b, s.arrived[i].sync)
            && (b != [] ==> forall q: nat :: LogCovers(s.log, q, a, b, false) ==> q == r)
            && forall k :: 0 <= k < |b| ==> OnceInMem(s.mem, a + k, b[k])
  {
    hide Inv;
    RunInv(states, steps, t);
    hide Run;
    a, r := StateAcknowledged(states[t], i);
  }

  lemma StateAcknowledged(s: State, i: nat) returns (a: nat, r: nat)
    requires Inv(s) && i < |s.acks| && s.acks[i].Ok? && s.arrived[i].batch.Some?
    ensures var b := BatchOf(s, i);
            && Assigned(s, i, a) && a + |b| <= s.lastSequence + 1
            && LogCovers(s.log, r, a, b, s.arrived[i].sync)
            && (b != [] ==> forall q: nat :: LogCovers(s.log, q, a, b, false) ==> q == r)
            && forall k :: 0 <= k < |b| ==> OnceInMem(s.mem, a + k, b[k])
  {
    hide MemInOrder, LogInOrder, WriteAhead, LeaderState, RangesInOrder, LogCovers, OnceInMem;
    var b, sync := BatchOf(s, i), s.arrived[i].sync;
    assert Answered(s, i);
    a :| Assigned(s, i, a) && InLog(s.log, a, b, sync) && InMem(s.mem, a, b);
    r :| LogCovers(s.log, r, a, b, sync);
    forall q: nat | b != [] && LogCovers(s.log, q, a, b, false) ensures q == r { OneRecord(s, q, r, a, b, sync); }
    forall k | 0 <= k < |b| ensures OnceInMem(s.mem, a + k, b[k]) {
      assert (a + k, b[k]) in s.mem;
      OneEntry(s, a + k, b[k]);
    }
  }

  /** Exactly one entry in memory has this sequence number, and it is this operation. */
  ghost predicate OnceInMem(mem: seq<(nat, Op)>, n: nat, op: Op) {
    exists k :: 0 <= k < |mem| && mem[k] == (n, op) && forall l :: 0 <= l < |mem| && mem[l].0 == n ==> l == k
  }

  lemma OneEntry(s: State, n: nat, op: Op)
    requires MemInOrder(s) && (n, op) in s.mem
    ensures OnceInMem(s.mem, n, op)
  {
    var k :| 0 <= k < |s.mem| && s.mem[k] == (n, op);
    forall l | 0 <= l < |s.mem| && s.mem[l].0 == n ensures l == k {}
  }

  lemma OneRecord(s: State, q: nat, r: nat, a: nat, b: seq<Op>, sync: bool)
    requires LogInOrder(s) && b != [] && LogCovers(s.log, q, a, b, false) && LogCovers(s.log, r, a, b, sync)
    ensures q == r
  {
  }

  /** Whenever a reader takes the last sequence number, it sees all of a batch or none of it. */
  lemma NoBatchIsSplit(states: seq<State>, steps: seq<Step>, t: nat, i: nat, a: nat)
    requires Run(states, steps) && t < |states| && Assigned(states[t], i, a)
    ensures var s := states[t];
            a + |BatchOf(s, i)| <= s.lastSequence + 1 || s.lastSequence < a
  {
    RunInv(states, steps, t);
    hide Run, MemInOrder, LogInOrder, WriteAhead, LeaderState, RangesInOrder, AllAnswered;
  }

  /** Batches get disjoint ranges in the order their writers arrived. */
  lemma RangesFollowArrival(states: seq<State>, steps: seq<Step>, t: nat, i: nat, j: nat, a: nat, b: nat)
    requires Run(states, steps) && t < |states| && i < j
    requires Assigned(states[t], i, a) && Assigned(states[t], j, b)
    ensures a + |BatchOf(states[t], i)| <= b
  {
    RunInv(states, steps, t);
    hide Run, MemInOrder, LogInOrder, WriteAhead, LeaderState, RangesAroundLast, AllAnswered;
  }

  /** A sync write that was acknowledged is in a record its leader synced. */
  lemma SyncedWhenAcknowledged(states: seq<State>, steps: seq<Step>, t: nat, i: nat) returns (r: nat)
    requires Run(states, steps) && t < |states|
    requires i < |states[t].acks| && i < |states[t].arrived| && states[t].acks[i].Ok?
    requires states[t].arrived[i].batch.Some? && states[t].arrived[i].sync
    ensures r < |states[t].log| && states[t].log[r].synced
    ensures exists a: nat :: Assigned(states[t], i, a) && LogCovers(states[t].log, r, a, BatchOf(states[t], i), true)
  {
    var a: nat;
    a, r := AcknowledgedOnce(states, steps, t, i);
    hide Run;
  }

  /** Whatever is in memory is in the log: the log is written ahead. */
  lemma LogIsWrittenAhead(states: seq<State>, steps: seq<Step>, t: nat, k: nat)
    requires Run(states, steps) && t < |states| && k < |states[t].mem|
    ensures FromLog(states[t].log, states[t].mem[k].0, states[t].mem[k].1)
  {
    RunInv(states, steps, t);
    hide Run, MemInOrder, LogInOrder, LeaderState, RangesAroundLast, RangesInOrder, AllAnswered, FromLog;
  }
}
