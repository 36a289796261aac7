/** DBIter: the user's view of the merged entries at one sequence number. */
module DbIterators {
  import opened Wrappers
  import opened DbFormat
  import opened MergingIterators

  // ----- Which entries a snapshot yields -----

  predicate InSight(es: seq<Entry>, s: nat, j: nat)
    requires j < |es|
  {
    es[j].ik.seqno <= s
  }

  /** Entry j is a value and the first visible entry of its user key. */
  ghost predicate Yields(es: seq<Entry>, s: nat, j: nat)
    requires j < |es|
  {
    && InSight(es, s, j) && es[j].ik.kind.Value?
    && !Covered(es, s, j)
  }

  ghost predicate Covered(es: seq<Entry>, s: nat, j: nat)
    requires j < |es|
  {
    exists i :: 0 <= i < j && es[i].ik.ukey == es[j].ik.ukey && InSight(es, s, i)
  }

  lemma KeysGrow(es: seq<Entry>, i: nat, j: nat)
    requires Sorted(es) && i <= j < |es|
    ensures es[i].ik.ukey <= es[j].ik.ukey
    ensures es[i].ik.ukey == es[j].ik.ukey ==> es[i].ik.seqno >= es[j].ik.seqno
  {
    if i < j { assert KeyLess(es[i].ik, es[j].ik); }
  }

  /** A sorted run without two entries of one sequence number. */
  ghost predicate Snapshotable(es: seq<Entry>) {
    Sorted(es) && UniqueSeq(Elements(es))
  }

  /** The entry that a snapshot yields is what a read of its key finds. */
  lemma YieldIsRead(es: seq<Entry>, s: nat, j: nat)
    requires Snapshotable(es) && j < |es| && Yields(es, s, j)
    ensures Read(Elements(es), es[j].ik.ukey, s) == Found(es[j].value)
  {
    var k := es[j].ik.ukey;
    forall d | d in Elements(es) && Visible(d, k, s) ensures d.ik.seqno <= es[j].ik.seqno {
      var i :| 0 <= i < |es| && es[i] == d;
      if i >= j { KeysGrow(es, j, i); }
    }
    assert Newest(Elements(es), k, s, es[j]);
    ReadIsNewest(Elements(es), k, s, es[j]);
  }

  /** A key no entry of which the snapshot yields reads as absent. */
  lemma NoYieldIsAbsent(es: seq<Entry>, s: nat, k: UserKey)
    requires Snapshotable(es)
    requires forall j :: 0 <= j < |es| && es[j].ik.ukey == k ==> !Yields(es, s, j)
    ensures Read(Elements(es), k, s) == NotFound
  {
    if e :| Newest(Elements(es), k, s, e) {
      var j :| 0 <= j < |es| && es[j] == e;
      if i :| 0 <= i < j && es[i].ik.ukey == es[j].ik.ukey && InSight(es, s, i) {
        KeysGrow(es, i, j);
        assert es[i] in Elements(es) && Visible(es[i], k, s);
        assert KeyLess(es[i].ik, es[j].ik);
      }
      ReadIsNewest(Elements(es), k, s, e);
    } else {
      forall e | e in Elements(es) ensures !Visible(e, k, s) {
        if Visible(e, k, s) { NewestExists(Elements(es), k, s, e); }
      }
      ReadNothing(Elements(es), k, s);
    }
  }

  // ----- Scanning forward -----

  /** What may be shown when every key up to `skip` is to be passed over. */
  ghost predicate Allowed(es: seq<Entry>, s: nat, j: nat, skip: Option<UserKey>)
    requires j < |es|
  {
    Yields(es, s, j) && (skip.Some? ==> skip.value < es[j].ik.ukey)
  }

  ghost predicate PassedOver(es: seq<Entry>, s: nat, a: nat, c: nat, skip: Option<UserKey>) {
    forall j :: a <= j < c && j < |es| ==> !Allowed(es, s, j, skip)
  }

  /** Keys of which a visible entry lies before index c need not be looked at again. */
  ghost predicate SkipsCovered(es: seq<Entry>, s: nat, c: nat, skip: Option<UserKey>) {
    forall i, j :: 0 <= i < c <= j < |es| && InSight(es, s, i) && es[i].ik.ukey == es[j].ik.ukey ==>
      skip.Some? && es[j].ik.ukey <= skip.value
  }

  ghost predicate NothingBelow(es: seq<Entry>, s: nat, c: nat, skip: Option<UserKey>) {
    skip.Some? ==> forall j :: c <= j < |es| && InSight(es, s, j) ==> skip.value <= es[j].ik.ukey
  }

  /** The loop's own skip key `hidden` is never too strict and never too lax. */
  ghost predicate HidesRightly(es: seq<Entry>, s: nat, c: nat, hidden: Option<UserKey>, skip: Option<UserKey>) {
    && SkipsCovered(es, s, c, hidden)
    && NothingBelow(es, s, c, skip)
    && (hidden.Some? ==> forall j :: c <= j < |es| && es[j].ik.ukey <= hidden.value ==> !Allowed(es, s, j, skip))
    && (skip.Some? ==> hidden.Some? && skip.value <= hidden.value)
  }

  lemma MeetDeletion(es: seq<Entry>, s: nat, c: nat, hidden: Option<UserKey>, skip: Option<UserKey>)
    requires Sorted(es) && c < |es| && HidesRightly(es, s, c, hidden, skip)
    requires InSight(es, s, c) && es[c].ik.kind.Deletion?
    ensures HidesRightly(es, s, c + 1, Some(es[c].ik.ukey), skip) && !Allowed(es, s, c, skip)
  {
    var k := es[c].ik.ukey;
    forall i, j | 0 <= i < c + 1 <= j < |es| && InSight(es, s, i) && es[i].ik.ukey == es[j].ik.ukey
      ensures es[j].ik.ukey <= k
    {
      KeysGrow(es, i, c);
      KeysGrow(es, c, j);
    }
    forall j | c + 1 <= j < |es| && es[j].ik.ukey <= k ensures !Allowed(es, s, j, skip) {
      KeysGrow(es, c, j);
      assert Covered(es, s, j);
    }
  }

  lemma MeetHidden(es: seq<Entry>, s: nat, c: nat, hidden: Option<UserKey>, skip: Option<UserKey>)
    requires Sorted(es) && c < |es| && HidesRightly(es, s, c, hidden, skip)
    requires !InSight(es, s, c) || (hidden.Some? && es[c].ik.ukey <= hidden.value)
    ensures HidesRightly(es, s, c + 1, hidden, skip) && !Allowed(es, s, c, skip)
  {
  }

  lemma MeetValue(es: seq<Entry>, s: nat, c: nat, hidden: Option<UserKey>, skip: Option<UserKey>)
    requires Sorted(es) && c < |es| && HidesRightly(es, s, c, hidden, skip)
    requires InSight(es, s, c) && es[c].ik.kind.Value?
    requires hidden.Some? ==> hidden.value < es[c].ik.ukey
    ensures Allowed(es, s, c, skip)
  {
  }

  lemma StartHides(es: seq<Entry>, s: nat, c: nat, skip: Option<UserKey>)
    requires SkipsCovered(es, s, c, skip) && NothingBelow(es, s, c, skip)
    ensures HidesRightly(es, s, c, skip, skip)
  {
  }

  // ----- Scanning backward -----

  /** No entry between indices lo and hi yields. */
  ghost predicate Barren(es: seq<Entry>, s: nat, lo: int, hi: int) {
    forall j :: 0 <= j < |es| && lo <= j < hi ==> !Yields(es, s, j)
  }

  ghost predicate NoneInSight(es: seq<Entry>, s: nat, lo: int, hi: int) {
    forall j :: 0 <= j < |es| && lo <= j < hi ==> !InSight(es, s, j)
  }

  /** Indices c..hi have been read backward; entry m, if any, is the candidate kept. */
  ghost predicate Kept(es: seq<Entry>, s: nat, c: nat, hi: nat, m: Option<nat>) {
    match m
    case None => Barren(es, s, c, hi)
    case Some(i) =>
      && c <= i < hi <= |es| && InSight(es, s, i) && es[i].ik.kind.Value?
      && NoneInSight(es, s, c, i) && Barren(es, s, i + 1, hi)
  }

  lemma KeepDeletion(es: seq<Entry>, s: nat, c: nat, hi: nat, m: Option<nat>)
    requires Sorted(es) && c < hi <= |es| && Kept(es, s, c + 1, hi, m)
    requires InSight(es, s, c) && es[c].ik.kind.Deletion?
    requires m.Some? ==> es[m.value].ik.ukey <= es[c].ik.ukey
    ensures Kept(es, s, c, hi, None)
  {
    if m.Some? {
      KeysGrow(es, c, m.value);
      assert Covered(es, s, m.value);
    }
  }

  lemma KeepValue(es: seq<Entry>, s: nat, c: nat, hi: nat, m: Option<nat>)
    requires Sorted(es) && c < hi <= |es| && Kept(es, s, c + 1, hi, m)
    requires InSight(es, s, c) && es[c].ik.kind.Value?
    requires m.Some? ==> es[m.value].ik.ukey <= es[c].ik.ukey
    ensures Kept(es, s, c, hi, Some(c))
  {
    if m.Some? {
      KeysGrow(es, c, m.value);
      assert Covered(es, s, m.value);
    }
  }

  lemma KeepInvisible(es: seq<Entry>, s: nat, c: nat, hi: nat, m: Option<nat>)
    requires c < hi <= |es| && Kept(es, s, c + 1, hi, m) && !InSight(es, s, c)
    ensures Kept(es, s, c, hi, m)
  {
  }

  /** The candidate is shown once a smaller visible key, or the front, is reached. */
  lemma CandidateYields(es: seq<Entry>, s: nat, c: nat, hi: nat, m: nat)
    requires Sorted(es) && Kept(es, s, c, hi, Some(m))
    requires c == 0 || es[c - 1].ik.ukey < es[m].ik.ukey
    ensures Yields(es, s, m) && JustBefore(es, s, if c == 0 then |es| else c - 1, m)
  {
    forall i | 0 <= i < m && es[i].ik.ukey == es[m].ik.ukey ensures !InSight(es, s, i) {
      if 0 < c { KeysGrow(es, if i < c then i else c - 1, c - 1); }
    }
    forall j | 0 <= j < |es| && c <= j && es[j].ik.ukey < es[m].ik.ukey ensures !InSight(es, s, j) {
      if m <= j { KeysGrow(es, m, j); }
    }
  }

  /** Moving backward, the internal iterator rests before every entry of the shown key,
      with nothing visible in between. */
  ghost predicate JustBefore(es: seq<Entry>, s: nat, at: nat, shown: nat)
    requires at <= |es| && shown < |es|
  {
    && (at < |es| ==> at < shown && es[at].ik.ukey < es[shown].ik.ukey)
    && forall j :: 0 <= j < |es| && (at == |es| || at < j) && es[j].ik.ukey < es[shown].ik.ukey ==> !InSight(es, s, j)
  }

  // ----- From indices to user keys -----

  lemma ForwardGap(es: seq<Entry>, s: nat, a: nat, c: nat, skip: Option<UserKey>, k: UserKey)
    requires Snapshotable(es) && PassedOver(es, s, a, c, skip)
    requires skip.Some? ==> skip.value < k
    requires forall j :: 0 <= j < a && j < |es| && es[j].ik.ukey == k ==> !InSight(es, s, j)
    requires forall j :: c <= j < |es| ==> es[j].ik.ukey != k
    ensures Read(Elements(es), k, s) == NotFound
  {
    forall j | 0 <= j < |es| && es[j].ik.ukey == k ensures !Yields(es, s, j) {
      if a <= j < c { assert !Allowed(es, s, j, skip); }
    }
    NoYieldIsAbsent(es, s, k);
  }

  lemma BackwardGap(es: seq<Entry>, s: nat, lo: int, hi: int, k: UserKey)
    requires Snapshotable(es) && Barren(es, s, lo, hi)
    requires forall j :: 0 <= j < |es| && es[j].ik.ukey == k && !(lo <= j < hi) ==> !Yields(es, s, j)
    ensures Read(Elements(es), k, s) == NotFound
  {
    NoYieldIsAbsent(es, s, k);
  }

  /** The keys the view of es at s shows above `lo` and below `hi`, where those are given: none. */
  ghost predicate Empty(es: seq<Entry>, s: nat, lo: Option<UserKey>, hi: Option<UserKey>) {
    forall k :: (lo.Some? ==> lo.value < k) && (hi.Some? ==> k < hi.value) ==> Read(Elements(es), k, s) == NotFound
  }

  ghost function KeyAt(es: seq<Entry>, valid: bool, c: nat): Option<UserKey>
    requires valid ==> c < |es|
  {
    if valid then Some(es[c].ik.ukey) else None
  }

  lemma EmptyAhead(es: seq<Entry>, s: nat, a: nat, valid: bool, c: nat, skip: Option<UserKey>)
    requires Snapshotable(es) && (valid ==> c < |es|)
    requires PassedOver(es, s, a, if valid then c else |es|, skip)
    requires forall j :: 0 <= j < a && j < |es| ==> skip.Some? && es[j].ik.ukey <= skip.value
    ensures Empty(es, s, skip, KeyAt(es, valid, c))
  {
    hide PassedOver, Read;
    forall k | (skip.Some? ==> skip.value < k) && (valid ==> k < es[c].ik.ukey)
      ensures Read(Elements(es), k, s) == NotFound
    {
      forall j | (if valid then c else |es|) <= j < |es| ensures es[j].ik.ukey != k {
        KeysGrow(es, c, j);
      }
      ForwardGap(es, s, a, if valid then c else |es|, skip, k);
    }
  }

  /** No entry at or after index hi yields a key below the bound. */
  ghost predicate AllAbove(es: seq<Entry>, s: nat, hi: int, bound: Option<UserKey>) {
    forall j :: 0 <= j < |es| && hi <= j && Yields(es, s, j) ==> bound.Some? && bound.value <= es[j].ik.ukey
  }

  lemma EmptyBehind(es: seq<Entry>, s: nat, valid: bool, c: nat, hi: int, above: Option<UserKey>)
    requires Snapshotable(es) && (valid ==> c < |es|)
    requires Barren(es, s, if valid then c + 1 else 0, hi)
    requires AllAbove(es, s, hi, above)
    ensures Empty(es, s, KeyAt(es, valid, c), above)
  {
    hide Yields, Read;
    forall k | (valid ==> es[c].ik.ukey < k) && (above.Some? ==> k < above.value)
      ensures Read(Elements(es), k, s) == NotFound
    {
      var lo := if valid then c + 1 else 0;
      forall j | 0 <= j < |es| && es[j].ik.ukey == k && !(lo <= j < hi) ensures !Yields(es, s, j) {
        if valid && j < lo { KeysGrow(es, j, c); }
      }
      BackwardGap(es, s, lo, hi, k);
    }
  }

  lemma StartAtShown(es: seq<Entry>, s: nat, shown: nat)
    requires Sorted(es) && shown < |es|
    ensures SkipsCovered(es, s, shown, Some(es[shown].ik.ukey))
    ensures NothingBelow(es, s, shown, Some(es[shown].ik.ukey))
    ensures forall j :: 0 <= j < shown ==> es[j].ik.ukey <= es[shown].ik.ukey
  {
    forall j | 0 <= j < |es|
      ensures if j <= shown then es[j].ik.ukey <= es[shown].ik.ukey else es[shown].ik.ukey <= es[j].ik.ukey
    {
      if j <= shown { KeysGrow(es, j, shown); } else { KeysGrow(es, shown, j); }
    }
  }

  /** Turning round: one step forward from just before the shown key. */
  lemma StartAfterTurn(es: seq<Entry>, s: nat, at: nat, shown: nat)
    requires Sorted(es) && at <= |es| && shown < |es| && JustBefore(es, s, at, shown)
    ensures var a := if at == |es| then 0 else at + 1;
            && a < |es|
            && SkipsCovered(es, s, a, Some(es[shown].ik.ukey)) && NothingBelow(es, s, a, Some(es[shown].ik.ukey))
            && forall j :: 0 <= j < a ==> es[j].ik.ukey <= es[shown].ik.ukey
  {
    if at < |es| {
      forall j | 0 <= j <= at ensures es[j].ik.ukey < es[shown].ik.ukey { KeysGrow(es, j, at); }
    }
  }

  /** A seek to (target, s) lands past only what s cannot see of the target key. */
  lemma StartAtTarget(es: seq<Entry>, s: nat, target: UserKey)
    requires Sorted(es)
    ensures var a := FirstAtLeast(es, LookupKey(target, s));
            && SkipsCovered(es, s, a, None)
            && forall j :: 0 <= j < a && target <= es[j].ik.ukey ==> es[j].ik.ukey == target && !InSight(es, s, j)
  {
    var a := FirstAtLeast(es, LookupKey(target, s));
    forall i, j | 0 <= i < a <= j < |es| && es[i].ik.ukey == es[j].ik.ukey ensures !InSight(es, s, i) {
      BelowTarget(es, LookupKey(target, s), j);
    }
  }

  lemma EmptyFromTarget(es: seq<Entry>, s: nat, target: UserKey, valid: bool, c: nat)
    requires Snapshotable(es) && (valid ==> c < |es|)
    requires PassedOver(es, s, FirstAtLeast(es, LookupKey(target, s)), if valid then c else |es|, None)
    ensures forall k :: target <= k && (valid ==> k < es[c].ik.ukey) ==> Read(Elements(es), k, s) == NotFound
  {
    var a := FirstAtLeast(es, LookupKey(target, s));
    StartAtTarget(es, s, target);
    hide PassedOver, Read, FirstAtLeast, SkipsCovered;
    forall k | target <= k && (valid ==> k < es[c].ik.ukey)
      ensures Read(Elements(es), k, s) == NotFound
    {
      forall j | (if valid then c else |es|) <= j < |es| ensures es[j].ik.ukey != k {
        KeysGrow(es, c, j);
      }
      ForwardGap(es, s, a, if valid then c else |es|, None, k);
    }
  }

  /** What yields before the shown entry lies at or before the internal iterator. */
  lemma BarrenToShown(es: seq<Entry>, s: nat, at: nat, shown: nat)
    requires Sorted(es) && at <= |es| && shown < |es| && JustBefore(es, s, at, shown) && Yields(es, s, shown)
    ensures at < |es| ==> es[at].ik.ukey < es[shown].ik.ukey
    ensures AllAbove(es, s, if at == |es| then 0 else at + 1, Some(es[shown].ik.ukey))
  {
  }

  /** The last index of a smaller key than the one shown, or past the end if there is none. */
  ghost predicate RestsBefore(es: seq<Entry>, at: nat, shown: nat)
    requires at <= |es| && shown < |es|
  {
    && (at < |es| ==> at < shown && es[at].ik.ukey < es[shown].ik.ukey)
    && forall j :: 0 <= j < shown && (at == |es| || at < j) ==> es[j].ik.ukey == es[shown].ik.ukey
  }

  lemma RestIsAbove(es: seq<Entry>, s: nat, at: nat, shown: nat)
    requires Sorted(es) && at <= |es| && shown < |es| && RestsBefore(es, at, shown)
    ensures at < |es| ==> es[at].ik.ukey < es[shown].ik.ukey
    ensures AllAbove(es, s, if at == |es| then 0 else at + 1, Some(es[shown].ik.ukey))
  {
    hide Yields;
    forall j | shown <= j < |es| ensures es[shown].ik.ukey <= es[j].ik.ukey { KeysGrow(es, shown, j); }
  }

  lemma NothingBarren(es: seq<Entry>, s: nat)
    ensures Barren(es, s, 0, 0)
  {
  }

  class DBIter {
    const iter: MergingIterator
    const sequence: nat
    var forward: bool
    var valid: bool
    var savedKey: Option<UserKey>
    var savedValue: string

    /** The index of the entry shown, when valid. */
    ghost var shown: nat

    ghost predicate Valid()
      reads this, iter
    {
      && iter.Valid() && Snapshotable(iter.merged)
      && (valid ==> Positioned())
    }

    ghost predicate Positioned()
      requires iter.Valid()
      reads this, iter
    {
      && shown < |iter.merged| && Yields(iter.merged, sequence, shown)
      && (forward ==> iter.at == shown)
      && (!forward ==>
           && savedKey == Some(iter.merged[shown].ik.ukey) && savedValue == iter.merged[shown].value
           && JustBefore(iter.merged, sequence, iter.at, shown))
    }

    constructor (iter: MergingIterator, sequence: nat)
      requires iter.Valid() && Snapshotable(iter.merged)
      ensures Valid() && !valid && this.iter == iter && this.sequence == sequence
    {
      this.iter := iter;
      this.sequence := sequence;
      forward, valid := true, false;
      savedKey, savedValue := None, "";
    }

    function Key(): (k: UserKey)
      requires Valid() && valid
      reads this, iter
      ensures k == iter.merged[shown].ik.ukey
    {
      if forward then iter.Current().ik.ukey else savedKey.value
    }

    function Value(): (v: string)
      requires Valid() && valid
      reads this, iter
      ensures v == iter.merged[shown].value
    {
      if forward then iter.Current().value else savedValue
    }

    method FindNextUserEntry(skip: Option<UserKey>)
      requires iter.Valid() && Snapshotable(iter.merged) && iter.IsValid() && forward
      requires SkipsCovered(iter.merged, sequence, iter.at, skip) && NothingBelow(iter.merged, sequence, iter.at, skip)
      modifies this, iter
      ensures Valid() && forward
      ensures valid ==> old(iter.at) <= shown && Allowed(iter.merged, sequence, shown, skip)
      ensures PassedOver(iter.merged, sequence, old(iter.at), if valid then shown else |iter.merged|, skip)
    {
      hide Yields, HidesRightly, SkipsCovered, NothingBelow, MergingIterator.Valid, MergingIterator.Current, Sorted;
      ghost var es, s, a := iter.merged, sequence, iter.at;
      var hidden := skip;
      StartHides(es, s, a, skip);
      while iter.IsValid()
        invariant iter.Valid() && a <= iter.at && forward
        invariant PassedOver(es, s, a, iter.at, skip)
        invariant HidesRightly(es, s, iter.at, hidden, skip)
        decreases |es| - iter.at
      {
        var e := iter.Current();
        if e.ik.seqno <= sequence {
          if e.ik.kind.Deletion? {
            MeetDeletion(es, s, iter.at, hidden, skip);
            hidden := Some(e.ik.ukey);
          } else if hidden.Some? && e.ik.ukey <= hidden.value {
            MeetHidden(es, s, iter.at, hidden, skip);
          } else {
            MeetValue(es, s, iter.at, hidden, skip);
            valid, shown := true, iter.at;
            savedKey := None;
            return;
          }
        } else {
          MeetHidden(es, s, iter.at, hidden, skip);
        }
        iter.Next();
      }
      savedKey := None;
      valid := false;
    }

    method FindPrevUserEntry()
      requires iter.Valid() && Snapshotable(iter.merged) && !forward
      modifies this, iter
      ensures Valid() && (valid ==> !forward)
      ensures var hi := if old(iter.IsValid()) then old(iter.at) + 1 else 0;
              if valid then shown < hi && Barren(iter.merged, sequence, shown + 1, hi)
              else Barren(iter.merged, sequence, 0, hi)
    {
      hide Yields, Kept, Barren, JustBefore, MergingIterator.Valid, MergingIterator.Current, Sorted;
      ghost var es, s, hi := iter.merged, sequence, if iter.IsValid() then iter.at + 1 else 0;
      ghost var m: Option<nat> := None;
      var kind := Deletion;
      KeptNothing(es, s, hi);
      while iter.IsValid()
        invariant iter.Valid() && !forward
        invariant (if iter.IsValid() then iter.at + 1 else 0) <= hi <= |es|
        invariant Kept(es, s, if iter.IsValid() then iter.at + 1 else 0, hi, m)
        invariant kind.Value? <==> m.Some?
        invariant m.Some? ==> m.value < |es| && savedKey == Some(es[m.value].ik.ukey) && savedValue == es[m.value].value
        decreases if iter.IsValid() then iter.at + 1 else 0
      {
        var e := iter.Current();
        ghost var c := iter.at;
        if e.ik.seqno <= sequence {
          if kind.Value? && e.ik.ukey < savedKey.value {
            break;
          }
          kind := e.ik.kind;
          if kind.Deletion? {
            KeepDeletion(es, s, c, hi, m);
            savedKey, savedValue := None, "";
            m := None;
          } else {
            KeepValue(es, s, c, hi, m);
            savedKey, savedValue := Some(e.ik.ukey), e.value;
            m := Some(c);
          }
        } else {
          KeepInvisible(es, s, c, hi, m);
        }
        iter.Prev();
      }
      if kind.Deletion? {
        valid := false;
        savedKey, savedValue := None, "";
        forward := true;
      } else {
        CandidateYields(es, s, if iter.IsValid() then iter.at + 1 else 0, hi, m.value);
        valid, shown := true, m.value;
      }
      KeptMeans(es, s, if iter.IsValid() then iter.at + 1 else 0, hi, m);
    }

    /** The entries the view is taken of. */
    ghost function Entries(): set<Entry>
      reads this
    {
      Elements(iter.merged)
    }

    /** What is shown is what a read of the key at this sequence number finds. */
    ghost predicate ShowsRead()
      requires Valid()
      reads this, iter
    {
      valid ==> Read(Entries(), Key(), sequence) == Found(Value())
    }

    /** The key shown, if any. */
    ghost function Shown(): Option<UserKey>
      requires Valid()
      reads this, iter
    {
      if valid then Some(Key()) else None
    }

    method SeekToFirst()
      requires Valid()
      modifies this, iter
      ensures Valid() && ShowsRead() && Empty(iter.merged, sequence, None, Shown())
    {
      hide MergingIterator.Valid, PassedOver, Yields, Empty;
      forward := true;
      savedValue := "";
      iter.SeekToFirst();
      if iter.IsValid() {
        FindNextUserEntry(None);
      } else {
        valid := false;
        NothingPassed(iter.merged, sequence);
      }
      EmptyAhead(iter.merged, sequence, 0, valid, shown, None);
      ShownIsRead();
    }

    method SeekToLast()
      requires Valid()
      modifies this, iter
      ensures Valid() && ShowsRead() && Empty(iter.merged, sequence, Shown(), None)
    {
      hide MergingIterator.Valid, Yields, Empty, Barren;
      forward := false;
      savedValue := "";
      iter.SeekToLast();
      FindPrevUserEntry();
      EmptyBehind(iter.merged, sequence, valid, shown, |iter.merged|, None);
      ShownIsRead();
    }

    method Seek(target: UserKey)
      requires Valid()
      modifies this, iter
      ensures Valid() && ShowsRead() && (valid ==> target <= Key())
      ensures forall k :: target <= k && (valid ==> k < Key()) ==> Read(Entries(), k, sequence) == NotFound
    {
      hide MergingIterator.Valid, PassedOver, Read, FirstAtLeast;
      forward := true;
      savedKey, savedValue := None, "";
      StartAtTarget(iter.merged, sequence, target);
      iter.Seek(LookupKey(target, sequence));
      if iter.IsValid() {
        FindNextUserEntry(None);
        if valid { AtLeastTarget(iter.merged, sequence, target, shown); }
      } else {
        valid := false;
        NothingPassed(iter.merged, sequence);
      }
      EmptyFromTarget(iter.merged, sequence, target, valid, shown);
      ShownIsRead();
    }

    method Next()
      requires Valid() && valid
      modifies this, iter
      ensures Valid() && ShowsRead() && (valid ==> old(Key()) < Key())
      ensures Empty(iter.merged, sequence, Some(old(Key())), Shown())
    {
      hide MergingIterator.Valid, PassedOver, Yields, Empty, SkipsCovered, NothingBelow, JustBefore;
      ghost var k := Key();
      if !forward {
        StartAfterTurn(iter.merged, sequence, iter.at, shown);
        forward := true;
        if !iter.IsValid() {
          iter.SeekToFirst();
        } else {
          iter.Next();
        }
        assert iter.IsValid();
      } else {
        StartAtShown(iter.merged, sequence, shown);
        savedKey := Some(iter.Current().ik.ukey);
      }
      ghost var a := iter.at;
      FindNextUserEntry(savedKey);
      EmptyAhead(iter.merged, sequence, a, valid, shown, Some(k));
      ShownIsRead();
    }

    /** Before moving backward: leave every entry of the key shown. */
    method LeaveKey()
      requires Valid() && valid && forward
      modifies iter
      ensures iter.Valid()
      ensures RestsBefore(iter.merged, iter.at, shown)
    {
      hide MergingIterator.Valid, Yields;
      ghost var es := iter.merged;
      var key := iter.Current().ik.ukey;
      while true
        invariant iter.Valid() && iter.IsValid() && iter.at <= shown
        invariant forall j :: iter.at <= j <= shown ==> es[j].ik.ukey == key
        decreases iter.at
      {
        iter.Prev();
        if !iter.IsValid() {
          return;
        }
        KeysGrow(es, iter.at, shown);
        if iter.Current().ik.ukey < key {
          return;
        }
      }
    }

    method Prev()
      requires Valid() && valid
      modifies this, iter
      ensures Valid() && ShowsRead() && (valid ==> Key() < old(Key()))
      ensures Empty(iter.merged, sequence, Shown(), Some(old(Key())))
    {
      hide MergingIterator.Valid, Yields, Empty, JustBefore, Barren, RestsBefore, AllAbove;
      ghost var es, k := iter.merged, Key();
      if forward {
        LeaveKey();
        RestIsAbove(es, sequence, iter.at, shown);
        if !iter.IsValid() {
          valid := false;
          savedKey, savedValue := None, "";
          NothingBarren(es, sequence);
          EmptyBehind(es, sequence, valid, shown, 0, Some(k));
          return;
        }
        forward := false;
      } else {
        BarrenToShown(es, sequence, iter.at, shown);
      }
      ghost var hi := if iter.IsValid() then iter.at + 1 else 0;
      FindPrevUserEntry();
      EmptyBehind(es, sequence, valid, shown, hi, Some(k));
      if valid { KeysGrow(es, shown, hi - 1); }
      ShownIsRead();
    }

    lemma ShownIsRead()
      requires Valid()
      ensures ShowsRead()
    {
      hide MergingIterator.Valid, Yields, Read;
      if valid { YieldIsRead(iter.merged, sequence, shown); }
    }
  }

  lemma NothingPassed(es: seq<Entry>, s: nat)
    ensures PassedOver(es, s, |es|, |es|, None)
  {
  }

  lemma AtLeastTarget(es: seq<Entry>, s: nat, target: UserKey, j: nat)
    requires Sorted(es) && FirstAtLeast(es, LookupKey(target, s)) <= j < |es|
    ensures target <= es[j].ik.ukey
  {
    BelowTarget(es, LookupKey(target, s), j);
  }

  lemma KeptNothing(es: seq<Entry>, s: nat, hi: nat)
    ensures Kept(es, s, hi, hi, None)
  {
  }

  lemma KeptMeans(es: seq<Entry>, s: nat, c: nat, hi: nat, m: Option<nat>)
    requires Kept(es, s, c, hi, m)
    ensures m.None? ==> Barren(es, s, c, hi)
    ensures m.Some? ==> m.value < hi && Barren(es, s, m.value + 1, hi)
  {
  }
}
