/** Internal keys, entries and the multiversion meaning of a set of entries.

    A user-supplied comparator orders the byte strings that occur as user keys.
    Byte strings are countable, and every countable total order embeds in the
    rationals, so a user key is modelled by its position in that order: `Compare`
    on user keys is the order of `real`, whichever comparator is configured. */
module DbFormat {

  type UserKey = real

  const MAX_SEQUENCE_NUMBER: nat := 0xFF_FFFF_FFFF_FFFF

  datatype ValueType = Deletion | Value

  datatype InternalKey = InternalKey(ukey: UserKey, seqno: nat, kind: ValueType)

  datatype Entry = Entry(ik: InternalKey, value: string)

  /** What `Get` reports: a value, or a NotFound status. */
  datatype Result = Found(value: string) | NotFound

  /** PackSequenceAndType: the sequence number above eight bits of type. */
  function Tag(seqno: nat, kind: ValueType): nat {
    seqno * 256 + if kind.Deletion? then 0 else 1
  }

  /** InternalKeyComparator: increasing user key, then decreasing tag. */
  predicate KeyLess(a: InternalKey, b: InternalKey) {
    a.ukey < b.ukey || (a.ukey == b.ukey && Tag(a.seqno, a.kind) > Tag(b.seqno, b.kind))
  }

  /** The LookupKey for `k` at snapshot `s` carries kValueTypeForSeek. */
  function LookupKey(k: UserKey, s: nat): InternalKey {
    InternalKey(k, s, Value)
  }

  /** Strictly increasing internal keys: the order every table and memtable keeps. */
  predicate Sorted(es: seq<Entry>) {
    forall i, j :: 0 <= i < j < |es| ==> KeyLess(es[i].ik, es[j].ik)
  }

  ghost function Elements(es: seq<Entry>): set<Entry> {
    set e | e in es
  }

  /** An entry of `k` that a read at snapshot `s` may see. */
  predicate Visible(e: Entry, k: UserKey, s: nat) {
    e.ik.ukey == k && e.ik.seqno <= s
  }

  /** No two different entries carry the same sequence number. */
  ghost predicate UniqueSeq(S: set<Entry>) {
    forall d, e :: d in S && e in S && d.ik.seqno == e.ik.seqno ==> d == e
  }

  ghost predicate Newest(S: set<Entry>, k: UserKey, s: nat, e: Entry) {
    e in S && Visible(e, k, s) && forall d :: d in S && Visible(d, k, s) ==> d.ik.seqno <= e.ik.seqno
  }

  /** A tombstone hides everything below it. */
  function Answer(e: Entry): Result {
    if e.ik.kind.Value? then Found(e.value) else NotFound
  }

  ghost function NewestEntry(S: set<Entry>, k: UserKey, s: nat): (e: Entry)
    requires exists m :: Newest(S, k, s, m)
    ensures Newest(S, k, s, e)
  {
    var e :| Newest(S, k, s, e);
    e
  }

  /** The reference meaning of a database holding the entries S: a read of `k` at
      snapshot `s` answers with the newest entry that is not newer than `s`. */
  ghost function Read(S: set<Entry>, k: UserKey, s: nat): Result {
    if exists e :: Newest(S, k, s, e) then Answer(NewestEntry(S, k, s)) else NotFound
  }

  lemma ReadIsNewest(S: set<Entry>, k: UserKey, s: nat, e: Entry)
    requires UniqueSeq(S) && Newest(S, k, s, e)
    ensures Read(S, k, s) == Answer(e)
  {
    assert NewestEntry(S, k, s).ik.seqno == e.ik.seqno;
  }

  lemma NewestExists(S: set<Entry>, k: UserKey, s: nat, e: Entry)
    requires e in S && Visible(e, k, s)
    ensures exists m :: Newest(S, k, s, m)
    decreases s - e.ik.seqno
  {
    if !Newest(S, k, s, e) {
      var d :| d in S && Visible(d, k, s) && d.ik.seqno > e.ik.seqno;
      NewestExists(S, k, s, d);
    }
  }

  lemma ReadNothing(S: set<Entry>, k: UserKey, s: nat)
    requires forall e :: e in S ==> !Visible(e, k, s)
    ensures Read(S, k, s) == NotFound
  {
  }

  /** When a read survives the removal of entries: the entry it answers with is
      still there, or it was a tombstone and nothing of the key stays visible. */
  lemma ReadAfterDrop(S: set<Entry>, S': set<Entry>, k: UserKey, s: nat)
    requires UniqueSeq(S) && S' <= S
    requires forall m :: Newest(S, k, s, m) ==>
               m in S' || (m.ik.kind.Deletion? && forall r :: r in S' ==> !Visible(r, k, s))
    ensures Read(S', k, s) == Read(S, k, s)
  {
    if m :| Newest(S, k, s, m) {
      ReadIsNewest(S, k, s, m);
      if m in S' {
        assert Newest(S', k, s, m);
        ReadIsNewest(S', k, s, m);
      } else {
        ReadNothing(S', k, s);
      }
    } else {
      forall e | e in S' ensures !Visible(e, k, s) {
        if Visible(e, k, s) { NewestExists(S, k, s, e); }
      }
      ReadNothing(S', k, s);
    }
  }

  // ----- Runs in key order -----

  /** The first index at or after `from` whose key is not below the target. */
  function FirstAtLeast(run: seq<Entry>, target: InternalKey, from: nat := 0): (p: nat)
    requires from <= |run|
    ensures from <= p <= |run|
    ensures forall j :: from <= j < p ==> KeyLess(run[j].ik, target)
    ensures p < |run| ==> !KeyLess(run[p].ik, target)
    decreases |run| - from
  {
    if from == |run| || !KeyLess(run[from].ik, target) then from else FirstAtLeast(run, target, from + 1)
  }

  /** One more entry, in its place. */
  function InsertEntry(es: seq<Entry>, e: Entry): (r: seq<Entry>)
    requires Sorted(es) && forall d :: d in es ==> KeyLess(d.ik, e.ik) || KeyLess(e.ik, d.ik)
    ensures Sorted(r) && |r| == |es| + 1
    ensures forall d :: d in r <==> d == e || d in es
  {
    var p := FirstAtLeast(es, e.ik);
    assert forall j :: p <= j < |es| ==> KeyLess(e.ik, es[j].ik);
    assert forall d :: d in es ==> d in es[..p] || d in es[p..];
    es[..p] + [e] + es[p..]
  }
}
