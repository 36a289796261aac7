/** An iterator over several sorted runs: MergingIterator and the children it drives. */
module MergingIterators {
  import opened DbFormat

  // ----- A child: a sorted run and a position in it -----

  /** A position equal to the length means that the child is not valid, at either end. */
  function LastPosition(n: nat): nat {
    if n == 0 then 0 else n - 1
  }

  function StepBack(p: nat, n: nat): nat
    requires p < n
  {
    if p == 0 then n else p - 1
  }

  // ----- The sorted union of the runs -----

  /** `merged` holds every entry of every run once, in key order. */
  ghost predicate Merges(runs: seq<seq<Entry>>, merged: seq<Entry>) {
    && Sorted(merged)
    && (forall i :: 0 <= i < |runs| ==> Sorted(runs[i]))
    && (forall i, j :: 0 <= i < |runs| && 0 <= j < |runs[i]| ==> runs[i][j] in merged)
    && (forall e :: e in merged ==> exists i :: 0 <= i < |runs| && e in runs[i])
    && (forall i, k, e :: 0 <= i < k < |runs| && e in runs[i] ==> e !in runs[k])
  }

  /** No two entries of the runs carry the same internal key. */
  ghost predicate DistinctKeys(runs: seq<seq<Entry>>) {
    && (forall i :: 0 <= i < |runs| ==> Sorted(runs[i]))
    && (forall i, k, d, e :: 0 <= i < k < |runs| && d in runs[i] && e in runs[k] ==>
         KeyLess(d.ik, e.ik) || KeyLess(e.ik, d.ik))
  }

  function InsertAll(es: seq<Entry>, run: seq<Entry>): (r: seq<Entry>)
    requires Sorted(es) && Sorted(run)
    requires forall d, e :: d in es && e in run ==> KeyLess(d.ik, e.ik) || KeyLess(e.ik, d.ik)
    ensures Sorted(r) && forall d :: d in r <==> d in es || d in run
    decreases |run|
  {
    if run == [] then es
    else
      var last := run[|run| - 1];
      var rest := run[..|run| - 1];
      assert forall d :: d in run <==> d in rest || d == last;
      InsertEntry(InsertAll(es, rest), last)
  }

  ghost predicate InRuns(runs: seq<seq<Entry>>, e: Entry) {
    exists i :: 0 <= i < |runs| && e in runs[i]
  }

  ghost function MergeRuns(runs: seq<seq<Entry>>): (r: seq<Entry>)
    requires DistinctKeys(runs)
    ensures Sorted(r)
    ensures forall e :: e in r <==> InRuns(runs, e)
  {
    if runs == [] then []
    else
      FewerRuns(runs);
      InsertAll(MergeRuns(runs[..|runs| - 1]), runs[|runs| - 1])
  }

  lemma FewerRuns(runs: seq<seq<Entry>>)
    requires DistinctKeys(runs) && runs != []
    ensures var rest, last := runs[..|runs| - 1], runs[|runs| - 1];
            && DistinctKeys(rest) && Sorted(last)
            && (forall e :: InRuns(runs, e) <==> InRuns(rest, e) || e in last)
            && forall d, e :: InRuns(rest, d) && e in last ==> KeyLess(d.ik, e.ik) || KeyLess(e.ik, d.ik)
  {
    hide Sorted;
    var n := |runs| - 1;
    var rest := runs[..n];
    assert forall i :: 0 <= i < n ==> rest[i] == runs[i];
    forall e ensures InRuns(runs, e) <==> InRuns(rest, e) || e in runs[n] {
      if i :| 0 <= i < n && e in runs[i] { assert e in rest[i]; }
    }
  }

  lemma {:induction false} MergeRunsMerges(runs: seq<seq<Entry>>)
    requires DistinctKeys(runs)
    ensures Merges(runs, MergeRuns(runs))
  {
  }

  // ----- Ranks: a key comparison is a comparison of indices in the union -----

  ghost function Rank(merged: seq<Entry>, e: Entry): (r: nat)
    requires e in merged
    ensures r < |merged| && merged[r] == e
  {
    var r :| 0 <= r < |merged| && merged[r] == e;
    r
  }

  lemma RankOrder(merged: seq<Entry>, d: Entry, e: Entry)
    requires Sorted(merged) && d in merged && e in merged
    ensures KeyLess(d.ik, e.ik) <==> Rank(merged, d) < Rank(merged, e)
    ensures d == e <==> Rank(merged, d) == Rank(merged, e)
  {
  }

  ghost predicate InUnion(run: seq<Entry>, merged: seq<Entry>) {
    forall j :: 0 <= j < |run| ==> run[j] in merged
  }

  /** Child positions when moving forward: the first entry of rank at least b. */
  ghost predicate Ahead(run: seq<Entry>, p: nat, merged: seq<Entry>, b: int)
    requires InUnion(run, merged)
  {
    && p <= |run|
    && (forall j :: 0 <= j < p ==> Rank(merged, run[j]) < b)
    && (forall j :: p <= j < |run| ==> b <= Rank(merged, run[j]))
  }

  /** Child positions when moving backward: the last entry of rank at most b. */
  ghost predicate Behind(run: seq<Entry>, p: nat, merged: seq<Entry>, b: int)
    requires InUnion(run, merged)
  {
    && p <= |run|
    && (p < |run| ==>
         && (forall j :: 0 <= j <= p ==> Rank(merged, run[j]) <= b)
         && (forall j :: p < j < |run| ==> b < Rank(merged, run[j])))
    && (p == |run| ==> forall j :: 0 <= j < |run| ==> b < Rank(merged, run[j]))
  }

  ghost predicate AllInUnion(runs: seq<seq<Entry>>, merged: seq<Entry>) {
    forall i :: 0 <= i < |runs| ==> InUnion(runs[i], merged)
  }

  ghost predicate AllAhead(runs: seq<seq<Entry>>, pos: seq<nat>, merged: seq<Entry>, b: int)
    requires |pos| == |runs| && AllInUnion(runs, merged)
  {
    forall i :: 0 <= i < |runs| ==> Ahead(runs[i], pos[i], merged, b)
  }

  ghost predicate AllBehind(runs: seq<seq<Entry>>, pos: seq<nat>, merged: seq<Entry>, b: int)
    requires |pos| == |runs| && AllInUnion(runs, merged)
  {
    forall i :: 0 <= i < |runs| ==> Behind(runs[i], pos[i], merged, b)
  }

  lemma MergesInUnion(runs: seq<seq<Entry>>, merged: seq<Entry>)
    requires Merges(runs, merged)
    ensures AllInUnion(runs, merged)
  {
  }

  /** The run that holds rank b, and where. */
  lemma Owner(runs: seq<seq<Entry>>, merged: seq<Entry>, b: nat) returns (i: nat, j: nat)
    requires Merges(runs, merged) && b < |merged|
    ensures i < |runs| && j < |runs[i]| && runs[i][j] == merged[b] && Rank(merged, runs[i][j]) == b
  {
    var e := merged[b];
    assert e in merged;
    i :| 0 <= i < |runs| && e in runs[i];
    j :| 0 <= j < |runs[i]| && runs[i][j] == merged[b];
  }

  lemma RanksIncrease(run: seq<Entry>, merged: seq<Entry>, j: nat, k: nat)
    requires Sorted(run) && Sorted(merged) && InUnion(run, merged) && j < k < |run|
    ensures Rank(merged, run[j]) < Rank(merged, run[k])
  {
    RankOrder(merged, run[j], run[k]);
  }

  lemma AheadNext(run: seq<Entry>, p: nat, merged: seq<Entry>, b: int)
    requires Sorted(run) && Sorted(merged) && InUnion(run, merged) && Ahead(run, p, merged, b)
    ensures p < |run| && Rank(merged, run[p]) == b ==> Ahead(run, p + 1, merged, b + 1)
    ensures (p < |run| ==> Rank(merged, run[p]) != b) ==> Ahead(run, p, merged, b + 1)
  {
    forall j, k | 0 <= j < k < |run| ensures Rank(merged, run[j]) < Rank(merged, run[k]) {
      RanksIncrease(run, merged, j, k);
    }
  }

  lemma BehindPrev(run: seq<Entry>, p: nat, merged: seq<Entry>, b: int)
    requires Sorted(run) && Sorted(merged) && InUnion(run, merged) && Behind(run, p, merged, b)
    ensures p < |run| && Rank(merged, run[p]) == b ==> Behind(run, StepBack(p, |run|), merged, b - 1)
    ensures (p < |run| ==> Rank(merged, run[p]) != b) ==> Behind(run, p, merged, b - 1)
  {
    forall j, k | 0 <= j < k < |run| ensures Rank(merged, run[j]) < Rank(merged, run[k]) {
      RanksIncrease(run, merged, j, k);
    }
  }

  /** Seeking a run to the key of rank b puts it ahead of b. */
  lemma SeekIsAhead(run: seq<Entry>, target: InternalKey, merged: seq<Entry>, b: nat)
    requires Sorted(run) && Sorted(merged) && InUnion(run, merged)
    requires b == FirstAtLeast(merged, target)
    ensures Ahead(run, FirstAtLeast(run, target), merged, b)
  {
    var p := FirstAtLeast(run, target);
    forall j | 0 <= j < |run| ensures KeyLess(run[j].ik, target) <==> Rank(merged, run[j]) < b {
      BelowTarget(merged, target, Rank(merged, run[j]));
    }
    forall j | p <= j < |run| ensures !KeyLess(run[j].ik, target) {
      if j > p { assert KeyLess(run[p].ik, run[j].ik); }
    }
  }

  lemma BelowTarget(es: seq<Entry>, target: InternalKey, r: nat)
    requires Sorted(es) && r < |es|
    ensures KeyLess(es[r].ik, target) <==> r < FirstAtLeast(es, target)
  {
    var p := FirstAtLeast(es, target);
    if r > p { assert KeyLess(es[p].ik, es[r].ik); }
  }

  lemma SeekToOwnKey(es: seq<Entry>, b: nat)
    requires Sorted(es) && b < |es|
    ensures FirstAtLeast(es, es[b].ik) == b
  {
    BelowTarget(es, es[b].ik, b);
    if b > 0 { BelowTarget(es, es[b].ik, b - 1); }
  }

  /** One step back from where a seek to rank b landed is behind b - 1. */
  lemma AheadThenBack(run: seq<Entry>, p: nat, merged: seq<Entry>, b: int)
    requires InUnion(run, merged) && Ahead(run, p, merged, b)
    ensures Behind(run, if p < |run| then StepBack(p, |run|) else LastPosition(|run|), merged, b - 1)
  {
  }

  // ----- Choosing a child -----

  predicate ChildValid(runs: seq<seq<Entry>>, pos: seq<nat>, i: int) {
    0 <= i < |runs| && i < |pos| && pos[i] < |runs[i]|
  }

  function ChildKey(runs: seq<seq<Entry>>, pos: seq<nat>, i: int): InternalKey
    requires ChildValid(runs, pos, i)
  {
    runs[i][pos[i]].ik
  }

  ghost predicate IsSmallest(runs: seq<seq<Entry>>, pos: seq<nat>, n: nat, s: int) {
    if s == -1 then forall k :: 0 <= k < n ==> !ChildValid(runs, pos, k)
    else
      && ChildValid(runs, pos, s)
      && forall k :: 0 <= k < n && ChildValid(runs, pos, k) ==> !KeyLess(ChildKey(runs, pos, k), ChildKey(runs, pos, s))
  }

  ghost predicate IsLargest(runs: seq<seq<Entry>>, pos: seq<nat>, from: int, s: int) {
    if s == -1 then forall k :: from <= k < |runs| ==> !ChildValid(runs, pos, k)
    else
      && ChildValid(runs, pos, s)
      && forall k :: from <= k < |runs| && ChildValid(runs, pos, k) ==> !KeyLess(ChildKey(runs, pos, s), ChildKey(runs, pos, k))
  }

  method FindSmallest(runs: seq<seq<Entry>>, pos: seq<nat>) returns (smallest: int)
    requires |pos| == |runs|
    ensures IsSmallest(runs, pos, |runs|, smallest)
  {
    smallest := -1;
    for i := 0 to |runs|
      invariant IsSmallest(runs, pos, i, smallest)
    {
      if pos[i] < |runs[i]| {
        if smallest == -1 {
          smallest := i;
        } else if KeyLess(ChildKey(runs, pos, i), ChildKey(runs, pos, smallest)) {
          smallest := i;
        }
      }
    }
  }

  method FindLargest(runs: seq<seq<Entry>>, pos: seq<nat>) returns (largest: int)
    requires |pos| == |runs|
    ensures IsLargest(runs, pos, 0, largest)
  {
    largest := -1;
    var i := |runs| - 1;
    while i >= 0
      invariant -1 <= i < |runs|
      invariant IsLargest(runs, pos, i + 1, largest)
    {
      if pos[i] < |runs[i]| {
        if largest == -1 {
          largest := i;
        } else if KeyLess(ChildKey(runs, pos, largest), ChildKey(runs, pos, i)) {
          largest := i;
        }
      }
      i := i - 1;
    }
  }

  /** With every child ahead of b, the smallest child is the entry of rank b. */
  lemma SmallestHasRank(runs: seq<seq<Entry>>, pos: seq<nat>, merged: seq<Entry>, b: nat, s: int)
    requires Merges(runs, merged) && AllInUnion(runs, merged) && |pos| == |runs| && b <= |merged|
    requires AllAhead(runs, pos, merged, b) && IsSmallest(runs, pos, |runs|, s)
    ensures s == -1 <==> b == |merged|
    ensures s != -1 ==> ChildValid(runs, pos, s) && runs[s][pos[s]] == merged[b]
  {
    if s != -1 {
      assert Ahead(runs[s], pos[s], merged, b);
      assert b <= Rank(merged, runs[s][pos[s]]);
    }
    if b < |merged| {
      var i, j := Owner(runs, merged, b);
      assert Ahead(runs[i], pos[i], merged, b);
      if pos[i] < j { RanksIncrease(runs[i], merged, pos[i], j); }
      assert ChildValid(runs, pos, i) && runs[i][pos[i]] == merged[b];
      RankOrder(merged, runs[i][pos[i]], runs[s][pos[s]]);
    }
  }

  lemma LargestHasRank(runs: seq<seq<Entry>>, pos: seq<nat>, merged: seq<Entry>, b: int, s: int)
    requires Merges(runs, merged) && AllInUnion(runs, merged) && |pos| == |runs| && -1 <= b < |merged|
    requires AllBehind(runs, pos, merged, b) && IsLargest(runs, pos, 0, s)
    ensures s == -1 <==> b == -1
    ensures s != -1 ==> ChildValid(runs, pos, s) && runs[s][pos[s]] == merged[b]
  {
    if s != -1 {
      assert Behind(runs[s], pos[s], merged, b);
      assert Rank(merged, runs[s][pos[s]]) <= b;
    }
    if b >= 0 {
      var i, j := Owner(runs, merged, b);
      assert Behind(runs[i], pos[i], merged, b);
      if pos[i] < |runs[i]| && j < pos[i] { RanksIncrease(runs[i], merged, j, pos[i]); }
      assert ChildValid(runs, pos, i) && runs[i][pos[i]] == merged[b];
      RankOrder(merged, runs[s][pos[s]], runs[i][pos[i]]);
    }
  }

  class MergingIterator {
    const runs: seq<seq<Entry>>
    ghost const merged: seq<Entry>
    var pos: seq<nat>
    var current: int
    var forward: bool

    /** The index in the sorted union; its length when the iterator is not valid. */
    ghost var at: nat

    ghost predicate Valid()
      reads this
      ensures Valid() ==> at <= |merged| && (IsValid() <==> at < |merged|)
    {
      && Merges(runs, merged) && AllInUnion(runs, merged)
      && |pos| == |runs| && at <= |merged|
      && (current == -1 <==> at == |merged|)
      && (current != -1 ==>
           && 0 <= current < |runs| && pos[current] < |runs[current]|
           && runs[current][pos[current]] == merged[at]
           && (if forward then AllAhead(runs, pos, merged, at) else AllBehind(runs, pos, merged, at)))
    }

    constructor (runs: seq<seq<Entry>>)
      requires DistinctKeys(runs)
      ensures Valid() && this.runs == runs && merged == MergeRuns(runs) && at == |merged|
    {
      this.runs := runs;
      pos := seq(|runs|, i requires 0 <= i < |runs| => |runs[i]|);
      current := -1;
      forward := true;
      merged := MergeRuns(runs);
      at := |MergeRuns(runs)|;
      MergeRunsMerges(runs);
      MergesInUnion(runs, MergeRuns(runs));
    }

    predicate IsValid()
      reads this
    {
      current != -1
    }

    function Current(): (e: Entry)
      requires Valid() && IsValid()
      reads this
      ensures at < |merged| && e == merged[at]
    {
      runs[current][pos[current]]
    }

    method SeekToFirst()
      requires Valid()
      modifies this
      ensures Valid() && at == 0
    {
      hide Merges, AllInUnion;
      var firsts: seq<nat> := [];
      for i := 0 to |runs|
        invariant |firsts| == i && forall k :: 0 <= k < i ==> firsts[k] == 0
      {
        firsts := firsts + [0];
      }
      pos := firsts;
      assert AllAhead(runs, pos, merged, 0);
      current := FindSmallest(runs, pos);
      forward := true;
      SmallestHasRank(runs, pos, merged, 0, current);
      at := 0;
    }

    method SeekToLast()
      requires Valid()
      modifies this
      ensures Valid() && at == LastPosition(|merged|)
    {
      hide Merges, AllInUnion;
      var lasts: seq<nat> := [];
      for i := 0 to |runs|
        invariant |lasts| == i && forall k :: 0 <= k < i ==> lasts[k] == LastPosition(|runs[k]|)
      {
        lasts := lasts + [LastPosition(|runs[i]|)];
      }
      pos := lasts;
      assert AllBehind(runs, pos, merged, |merged| - 1);
      current := FindLargest(runs, pos);
      forward := false;
      LargestHasRank(runs, pos, merged, |merged| - 1, current);
      at := LastPosition(|merged|);
    }

    method Seek(target: InternalKey)
      requires Valid()
      modifies this
      ensures Valid() && at == FirstAtLeast(merged, target)
    {
      hide Merges, AllInUnion, Ahead;
      var found: seq<nat> := [];
      for i := 0 to |runs|
        invariant |found| == i && forall k :: 0 <= k < i ==> found[k] == FirstAtLeast(runs[k], target)
      {
        found := found + [FirstAtLeast(runs[i], target)];
      }
      pos := found;
      ghost var b := FirstAtLeast(merged, target);
      AllSeek(runs, pos, target, merged);
      current := FindSmallest(runs, pos);
      forward := true;
      SmallestHasRank(runs, pos, merged, b, current);
      at := b;
    }

    method Next()
      requires Valid() && IsValid()
      modifies this
      ensures Valid() && at == old(at) + 1
    {
      hide Merges, AllInUnion, Ahead, Behind, FirstAtLeast;
      if !forward {
        var key := Current().ik;
        var turned := pos;
        for i := 0 to |runs|
          invariant |turned| == |pos|
          invariant forall k :: 0 <= k < |pos| ==> turned[k] == if k < i && k != current then TurnForward(runs[k], key) else pos[k]
        {
          if i != current {
            turned := turned[i := TurnForward(runs[i], key)];
          }
        }
        TurnedForward(runs, pos, turned, current, merged, at);
        pos := turned;
        forward := true;
      }
      StepsForward(runs, pos, current, merged, at);
      pos := pos[current := pos[current] + 1];
      current := FindSmallest(runs, pos);
      SmallestHasRank(runs, pos, merged, at + 1, current);
      at := at + 1;
    }

    method Prev()
      requires Valid() && IsValid()
      modifies this
      ensures Valid() && at == StepBack(old(at), |merged|)
    {
      hide Merges, AllInUnion, Ahead, Behind, FirstAtLeast;
      if forward {
        var key := Current().ik;
        var turned := pos;
        for i := 0 to |runs|
          invariant |turned| == |pos|
          invariant forall k :: 0 <= k < |pos| ==> turned[k] == if k < i && k != current then TurnBack(runs[k], key) else pos[k]
        {
          if i != current {
            turned := turned[i := TurnBack(runs[i], key)];
          }
        }
        TurnedBack(runs, pos, turned, current, merged, at);
        pos := turned;
        forward := false;
      }
      StepsBack(runs, pos, current, merged, at);
      pos := pos[current := StepBack(pos[current], |runs[current]|)];
      current := FindLargest(runs, pos);
      LargestHasRank(runs, pos, merged, at - 1, current);
      at := StepBack(at, |merged|);
    }
  }

  /** What Next does to each other child after moving backward. */
  function TurnForward(run: seq<Entry>, key: InternalKey): (p: nat)
    ensures p <= |run|
  {
    var p := FirstAtLeast(run, key);
    if p < |run| && !KeyLess(key, run[p].ik) && !KeyLess(run[p].ik, key) then p + 1 else p
  }

  /** What Prev does to each other child after moving forward. */
  function TurnBack(run: seq<Entry>, key: InternalKey): (p: nat)
    ensures p <= |run|
  {
    var p := FirstAtLeast(run, key);
    if p < |run| then StepBack(p, |run|) else LastPosition(|run|)
  }

  lemma AllSeek(runs: seq<seq<Entry>>, pos: seq<nat>, target: InternalKey, merged: seq<Entry>)
    requires Merges(runs, merged) && AllInUnion(runs, merged) && |pos| == |runs|
    requires forall k :: 0 <= k < |runs| ==> pos[k] == FirstAtLeast(runs[k], target)
    ensures AllAhead(runs, pos, merged, FirstAtLeast(merged, target))
  {
    hide Ahead, InUnion;
    forall i | 0 <= i < |runs| ensures Ahead(runs[i], pos[i], merged, FirstAtLeast(merged, target)) {
      SeekIsAhead(runs[i], target, merged, FirstAtLeast(merged, target));
    }
  }

  lemma OtherRunsMissRank(runs: seq<seq<Entry>>, merged: seq<Entry>, c: int, i: nat, at: nat)
    requires Merges(runs, merged) && AllInUnion(runs, merged) && at < |merged|
    requires 0 <= c < |runs| && merged[at] in runs[c] && i < |runs| && i != c
    ensures forall j :: 0 <= j < |runs[i]| ==> Rank(merged, runs[i][j]) != at
  {
    forall j | 0 <= j < |runs[i]| ensures Rank(merged, runs[i][j]) != at {
      assert runs[i][j] in runs[i];
    }
  }

  lemma OwnPosition(run: seq<Entry>, p: nat, merged: seq<Entry>, at: nat)
    requires Sorted(run) && Sorted(merged) && InUnion(run, merged)
    requires p < |run| && at < |merged| && run[p] == merged[at]
    ensures Rank(merged, run[p]) == at
    ensures Ahead(run, p, merged, at) && Behind(run, p, merged, at)
  {
    forall j, k | 0 <= j < k < |run| ensures Rank(merged, run[j]) < Rank(merged, run[k]) {
      RanksIncrease(run, merged, j, k);
    }
  }

  lemma TurnedForward(runs: seq<seq<Entry>>, pos: seq<nat>, turned: seq<nat>, c: int, merged: seq<Entry>, at: nat)
    requires Merges(runs, merged) && AllInUnion(runs, merged) && |turned| == |pos| == |runs|
    requires at < |merged| && ChildValid(runs, pos, c) && runs[c][pos[c]] == merged[at]
    requires forall k :: 0 <= k < |pos| ==> turned[k] == if k != c then TurnForward(runs[k], merged[at].ik) else pos[k]
    ensures AllAhead(runs, turned, merged, at)
  {
    hide Ahead, Behind, InUnion, FirstAtLeast;
    SeekToOwnKey(merged, at);
    forall i | 0 <= i < |runs| ensures Ahead(runs[i], turned[i], merged, at) {
      if i == c {
        OwnPosition(runs[c], pos[c], merged, at);
      } else {
        SeekIsAhead(runs[i], merged[at].ik, merged, at);
        OtherRunsMissRank(runs, merged, c, i, at);
        NoEqualKey(runs[i], merged, at);
      }
    }
  }

  /** A run without the entry of rank `at` has no entry with its key either. */
  lemma NoEqualKey(run: seq<Entry>, merged: seq<Entry>, at: nat)
    requires Sorted(merged) && InUnion(run, merged) && at < |merged|
    requires forall j :: 0 <= j < |run| ==> Rank(merged, run[j]) != at
    ensures TurnForward(run, merged[at].ik) == FirstAtLeast(run, merged[at].ik)
  {
    var p := FirstAtLeast(run, merged[at].ik);
    if p < |run| { RankOrder(merged, merged[at], run[p]); }
  }

  lemma TurnedBack(runs: seq<seq<Entry>>, pos: seq<nat>, turned: seq<nat>, c: int, merged: seq<Entry>, at: nat)
    requires Merges(runs, merged) && AllInUnion(runs, merged) && |turned| == |pos| == |runs|
    requires at < |merged| && ChildValid(runs, pos, c) && runs[c][pos[c]] == merged[at]
    requires forall k :: 0 <= k < |pos| ==> turned[k] == if k != c then TurnBack(runs[k], merged[at].ik) else pos[k]
    ensures AllBehind(runs, turned, merged, at)
  {
    hide Ahead, Behind, InUnion, FirstAtLeast;
    SeekToOwnKey(merged, at);
    forall i | 0 <= i < |runs| ensures Behind(runs[i], turned[i], merged, at) {
      if i == c {
        OwnPosition(runs[c], pos[c], merged, at);
      } else {
        SeekIsAhead(runs[i], merged[at].ik, merged, at);
        OtherRunsMissRank(runs, merged, c, i, at);
        AheadThenBack(runs[i], FirstAtLeast(runs[i], merged[at].ik), merged, at);
        BehindMore(runs[i], turned[i], merged, at);
      }
    }
  }

  lemma BehindMore(run: seq<Entry>, p: nat, merged: seq<Entry>, b: int)
    requires InUnion(run, merged) && Behind(run, p, merged, b - 1)
    requires forall j :: 0 <= j < |run| ==> Rank(merged, run[j]) != b
    ensures Behind(run, p, merged, b)
  {
  }

  lemma StepsForward(runs: seq<seq<Entry>>, pos: seq<nat>, c: int, merged: seq<Entry>, at: nat)
    requires Merges(runs, merged) && AllInUnion(runs, merged) && |pos| == |runs|
    requires at < |merged| && ChildValid(runs, pos, c) && runs[c][pos[c]] == merged[at]
    requires AllAhead(runs, pos, merged, at)
    ensures AllAhead(runs, pos[c := pos[c] + 1], merged, at + 1)
  {
    hide Ahead, InUnion;
    forall i | 0 <= i < |runs| ensures Ahead(runs[i], pos[c := pos[c] + 1][i], merged, at + 1) {
      assert Ahead(runs[i], pos[i], merged, at);
      AheadNext(runs[i], pos[i], merged, at);
      if i == c { OwnPosition(runs[c], pos[c], merged, at); } else { OtherRunsMissRank(runs, merged, c, i, at); }
    }
  }

  lemma StepsBack(runs: seq<seq<Entry>>, pos: seq<nat>, c: int, merged: seq<Entry>, at: nat)
    requires Merges(runs, merged) && AllInUnion(runs, merged) && |pos| == |runs|
    requires at < |merged| && ChildValid(runs, pos, c) && runs[c][pos[c]] == merged[at]
    requires AllBehind(runs, pos, merged, at)
    ensures AllBehind(runs, pos[c := StepBack(pos[c], |runs[c]|)], merged, at - 1)
  {
    hide Behind, InUnion;
    forall i | 0 <= i < |runs| ensures Behind(runs[i], pos[c := StepBack(pos[c], |runs[c]|)][i], merged, at - 1) {
      assert Behind(runs[i], pos[i], merged, at);
      BehindPrev(runs[i], pos[i], merged, at);
      if i == c { OwnPosition(runs[c], pos[c], merged, at); } else { OtherRunsMissRank(runs, merged, c, i, at); }
    }
  }
}
