/** How group commits end: what a failed sync means for all later writers, why a writer is told of an
    error, and which sequence numbers every batch gets. */
module GroupOutcomes {
  import opened Wrappers
  import opened WriteBatches
  import opened GroupCommit

  // ----- After a failed sync -----

  /** The log is not to be trusted: all answers from the n-th on are errors, and log and memory stay as they are. */
  ghost predicate Doomed(s: State, n: nat, log: seq<LogRecord>, mem: seq<(nat, Op)>) {
    && s.log == log && s.mem == mem && n <= |s.acks|
    && (forall i :: n <= i < |s.acks| ==> s.acks[i].Error?)
    && if s.stage.Idle? then s.backgroundError else s.stage.status.Error? && s.stage.syncError
  }

  lemma DoomedStep(s: State, s': State, step: Step, n: nat, log: seq<LogRecord>, mem: seq<(nat, Op)>)
    requires Doomed(s, n, log, mem) && Next(s, s', step)
    ensures Doomed(s', n, log, mem)
  {
    hide IsGroup, GroupStarts, Batches;
  }

  /** Once a sync has failed, nobody who had not been answered by then is ever told Ok, and nothing more
      is logged or inserted. */
  lemma {:induction false} NothingAfterFailedSync(states: seq<State>, steps: seq<Step>, t: nat, u: nat)
    requires Run(states, steps) && t < |steps| && steps[t] == SyncLog(false) && t < u < |states|
    ensures Doomed(states[u], |states[t].acks|, states[t].log, states[t].mem)
    decreases u
  {
    hide Next, Init;
    assert Next(states[u - 1], states[u - 1 + 1], steps[u - 1]);
    if u == t + 1 {
      FailedSync(states[t], states[u]);
    } else {
      NothingAfterFailedSync(states, steps, t, u - 1);
      DoomedStep(states[u - 1], states[u], steps[u - 1], |states[t].acks|, states[t].log, states[t].mem);
    }
  }

  lemma FailedSync(s: State, s': State)
    requires Next(s, s', SyncLog(false))
    ensures Doomed(s', |s.acks|, s.log, s.mem)
  {
  }

  // ----- Why a writer is told of an error -----

  /** Step u failed writer i: no room was made for it, or the log of its group could not be written or synced. */
  ghost predicate Fails(s: State, step: Step, i: nat) {
    || (step.NoRoom? && i == |s.acks|)
    || ((step == AppendLog(false) || step == SyncLog(false)) && |s.acks| <= i < |s.acks| + GroupSize(s.stage))
  }

  ghost predicate FailedBefore(states: seq<State>, steps: seq<Step>, t: nat, i: nat)
    requires |states| == |steps| + 1 && t < |states|
  {
    exists u :: 0 <= u < t && Fails(states[u], steps[u], i)
  }

  ghost predicate ErrorsHaveReasons(states: seq<State>, steps: seq<Step>, t: nat)
    requires |states| == |steps| + 1 && t < |states|
  {
    var s := states[t];
    && (forall i :: 0 <= i < |s.acks| && s.acks[i].Error? ==> FailedBefore(states, steps, t, i))
    && (s.stage.Leading? && s.stage.status.Error? ==>
          forall i :: |s.acks| <= i < |s.acks| + s.stage.n ==> FailedBefore(states, steps, t, i))
  }

  lemma Later(states: seq<State>, steps: seq<Step>, t: nat, i: nat)
    requires |states| == |steps| + 1 && t + 1 < |states|
    ensures FailedBefore(states, steps, t, i) || Fails(states[t], steps[t], i) ==> FailedBefore(states, steps, t + 1, i)
  {
  }

  lemma {:induction false} ErrorsAreDeserved(states: seq<State>, steps: seq<Step>, t: nat)
    requires Run(states, steps) && t < |states|
    ensures ErrorsHaveReasons(states, steps, t)
  {
    hide Next, Init, FailedBefore, Fails;
    if t == 0 {
      Nobody(states[0]);
    } else {
      ErrorsAreDeserved(states, steps, t - 1);
      assert Next(states[t - 1], states[t - 1 + 1], steps[t - 1]);
      forall i: nat ensures FailedBefore(states, steps, t - 1, i) || Fails(states[t - 1], steps[t - 1], i) ==> FailedBefore(states, steps, t, i) {
        Later(states, steps, t - 1, i);
      }
      OneMoreStep(states, steps, t - 1);
    }
  }

  lemma Nobody(s: State)
    requires Init(s)
    ensures s.acks == [] && s.stage.Idle?
  {
  }

  lemma OneMoreStep(states: seq<State>, steps: seq<Step>, t: nat)
    requires |states| == |steps| + 1 && t + 1 < |states| && ErrorsHaveReasons(states, steps, t)
    requires Next(states[t], states[t + 1], steps[t])
    requires forall i: nat :: FailedBefore(states, steps, t, i) || Fails(states[t], steps[t], i) ==> FailedBefore(states, steps, t + 1, i)
    ensures ErrorsHaveReasons(states, steps, t + 1)
  {
    hide FailedBefore, IsGroup, Batches, GroupStarts;
    var s, s', u := states[t], states[t + 1], t + 1;
    forall i: nat | i < |s'.acks| && s'.acks[i].Error? ensures FailedBefore(states, steps, u, i) {
      assert FailedBefore(states, steps, t, i) || Fails(s, steps[t], i);
    }
    forall i: nat | s'.stage.Leading? && s'.stage.status.Error? && |s'.acks| <= i < |s'.acks| + s'.stage.n
      ensures FailedBefore(states, steps, u, i)
    {
      assert FailedBefore(states, steps, t, i) || Fails(s, steps[t], i);
    }
  }

  // ----- Which sequence numbers a batch gets -----

  /** The operations of the writers before i that were given numbers. */
  ghost function OpsBefore(s: State, i: nat): nat
    requires i <= |s.starts| && |s.starts| <= |s.arrived|
  {
    if i == 0 then 0 else OpsBefore(s, i - 1) + if s.starts[i - 1].Some? then |BatchOf(s, i - 1)| else 0
  }

  /** Numbers are given out without gaps, from the one after `start` on, in the order of arrival. */
  ghost predicate Dense(s: State, start: nat) {
    && |s.acks| <= |s.starts| <= |s.arrived|
    && (forall i :: 0 <= i < |s.starts| && s.starts[i].Some? ==> s.starts[i].value == start + 1 + OpsBefore(s, i))
    && s.lastSequence == start + OpsBefore(s, |s.acks|)
  }

  lemma {:induction false} OpsBeforeStays(s: State, s': State, i: nat)
    requires i <= |s.starts| <= |s.arrived| && |s'.starts| <= |s'.arrived| && s.starts <= s'.starts && s.arrived <= s'.arrived
    ensures OpsBefore(s', i) == OpsBefore(s, i)
  {
    if i > 0 { OpsBeforeStays(s, s', i - 1); }
  }

  /** A group's starts follow on. */
  lemma {:induction false} GroupFollows(s: State, first: nat, ws: seq<Writer>, k: nat, j: nat)
    requires |s.starts| <= |s.arrived| && k + |ws| <= |s.starts| && j <= |ws|
    requires s.arrived[k..k + |ws|] == ws && s.starts[k..k + |ws|] == GroupStarts(first, ws)
    ensures OpsBefore(s, k + j) == OpsBefore(s, k) + |Batches(ws[..j])|
  {
    hide GroupStarts;
    if j == 0 {
      assert ws[..0] == [];
    } else {
      GroupFollows(s, first, ws, k, j - 1);
      assert ws[..j][..j - 1] == ws[..j - 1];
      assert s.arrived[k + j - 1] == ws[j - 1];
      assert s.starts[k + j - 1] == GroupStarts(first, ws)[j - 1];
      StartAt(first, ws, j - 1);
    }
  }

  lemma StartAt(first: nat, ws: seq<Writer>, j: nat)
    requires j < |ws|
    ensures GroupStarts(first, ws)[j] == if ws[j].batch.Some? then Some(first + |Batches(ws[..j])|) else None
  {
    hide Batches;
  }

  lemma LeadDense(s: State, s': State, n: nat, start: nat)
    requires Inv(s) && Inv(s') && Dense(s, start) && Next(s, s', Lead(n))
    ensures Dense(s', start)
  {
    hide RangesInOrder, RangesAroundLast, AllAnswered, LogInOrder, MemInOrder, WriteAhead, LeaderState, IsGroup, GroupStarts, Batches;
    var k, ws, first := |s.acks|, Queue(s)[..n], s.lastSequence + 1;
    assert s'.arrived[k..k + n] == ws && s'.starts[k..k + n] == GroupStarts(first, ws);
    forall i | 0 <= i < |s'.starts| ensures s'.starts[i].Some? ==> s'.starts[i].value == start + 1 + OpsBefore(s', i) {
      if i < |s.starts| {
        OpsBeforeStays(s, s', i);
      } else {
        OpsBeforeStays(s, s', k);
        GroupFollows(s', first, ws, k, i - k);
        StartAt(first, ws, i - k);
        assert s'.starts[i] == GroupStarts(first, ws)[i - k];
      }
    }
    OpsBeforeStays(s, s', k);
  }

  /** The operations of the group at work are those of its writers. */
  lemma GroupCounts(s: State)
    requires Shape(s) && LeaderState(s) && s.stage.Leading?
    ensures OpsBefore(s, |s.acks| + s.stage.n) == OpsBefore(s, |s.acks|) + |s.stage.ops|
  {
    hide GroupStarts, Batches;
    var k, n := |s.acks|, s.stage.n;
    var ws := s.arrived[k..k + n];
    assert s.starts[k..k + n] == s.starts[k..];
    GroupFollows(s, s.stage.first, ws, k, n);
    assert ws[..n] == ws;
  }

  lemma FinishDense(s: State, s': State, start: nat)
    requires Inv(s) && Dense(s, start) && Next(s, s', Finish)
    ensures Dense(s', start)
  {
    hide RangesInOrder, RangesAroundLast, AllAnswered, LogInOrder, MemInOrder, WriteAhead, LeaderState;
    GroupCounts(s);
    forall i | 0 <= i <= |s.starts| ensures OpsBefore(s', i) == OpsBefore(s, i) { OpsBeforeStays(s, s', i); }
  }

  lemma OtherDense(s: State, s': State, step: Step, start: nat)
    requires Inv(s) && Dense(s, start) && Next(s, s', step) && !step.Lead? && !step.Finish?
    ensures Dense(s', start)
  {
    hide RangesInOrder, RangesAroundLast, AllAnswered, LogInOrder, MemInOrder, WriteAhead, LeaderState;
    forall i | 0 <= i <= |s.starts| ensures OpsBefore(s', i) == OpsBefore(s, i) { OpsBeforeStays(s, s', i); }
  }

  /** In every state of every run: each batch that was taken up has exactly the numbers after all operations
      taken up before it, and readers may see exactly the operations of the writers that were answered. */
  lemma {:induction false} NumbersAreDense(states: seq<State>, steps: seq<Step>, t: nat)
    requires Run(states, steps) && t < |states|
    ensures Dense(states[t], states[0].lastSequence)
  {
    hide Inv, Next, Dense;
    RunInv(states, steps, t);
    if t == 0 {
      assert Dense(states[0], states[0].lastSequence) by { Start(states[0]); }
    } else {
      NumbersAreDense(states, steps, t - 1);
      RunInv(states, steps, t - 1);
      assert Next(states[t - 1], states[t - 1 + 1], steps[t - 1]);
      var s, s', start := states[t - 1], states[t], states[0].lastSequence;
      match steps[t - 1]
      case Lead(n) => LeadDense(s, s', n, start);
      case Finish => FinishDense(s, s', start);
      case _ => OtherDense(s, s', steps[t - 1], start);
    }
  }

  lemma Start(s: State)
    requires Init(s)
    ensures Dense(s, s.lastSequence)
  {
  }
}
