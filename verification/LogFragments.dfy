/** What a log reader returns from any file, damaged or not: the unbroken runs of fragments. */
module LogFragments {
  import opened Wrappers
  import opened Coding
  import opened Checksums
  import opened WriteAheadLog
  import opened LogReader

  // ----- The physical reads of a file -----

  /** All that is read from position p on, up to the end of the file or what is taken for it. */
  function Reads(f: Bytes, p: nat): seq<Physical>
    decreases if p <= |f| then |f| - p else 0
  {
    var q := Start(p);
    var r := ParseAt(f, q);
    if r.Eof? || IsKind(r, TYPE_OF_EOF) then [] else [r] + Reads(f, After(f, q, r))
  }

  predicate IsKind(r: Physical, kind: Byte) {
    r.Fragment? && r.kind == kind
  }

  function Payload(r: Physical): Bytes {
    if r.Fragment? then r.payload else []
  }

  /** The payloads of ev[i..j]. */
  function Join(ev: seq<Physical>, i: nat, j: nat): Bytes
    requires i <= j <= |ev|
  {
    if i == j then [] else Join(ev, i, j - 1) + Payload(ev[j - 1])
  }

  /** A fragment is read exactly where its frame stands, whole and within the block. */
  lemma FragmentIff(f: Bytes, q: nat, t: Byte, s: Bytes)
    ensures ParseAt(f, q) == Fragment(t, s) <==>
              && q + HEADER + |s| <= Limit(f, q) && !(t == ZERO && s == [])
              && |s| < BLOCK && f[q..q + HEADER + |s|] == Frame(t, s)
  {
    hide Frame, Value, Unmask, LoadFixed, Length, BlockEnd;
    if q + HEADER + |s| <= Limit(f, q) {
      ShortPayload(f, q, s);
      if ParseAt(f, q) == Fragment(t, s) {
        ReadsFrame(f, q, t, s);
      } else if f[q..q + HEADER + |s|] == Frame(t, s) && !(t == ZERO && s == []) {
        FrameReads(f, q, t, s);
      }
    }
  }

  lemma ShortPayload(f: Bytes, q: nat, s: Bytes)
    requires q + HEADER + |s| <= Limit(f, q)
    ensures |s| < BLOCK
  {
  }

  lemma FrameReads(f: Bytes, q: nat, t: Byte, s: Bytes)
    requires q + HEADER + |s| <= Limit(f, q) && !(t == ZERO && s == [])
    requires |s| < BLOCK && f[q..q + HEADER + |s|] == Frame(t, s)
    ensures ParseAt(f, q) == Fragment(t, s)
  {
    hide Frame, Value, Unmask, LoadFixed, Length, BlockEnd;
    var frame, end := Frame(t, s), q + HEADER + |s|;
    FrameFields(t, s);
    assert f[q + 4] == frame[4] && f[q + 5] == frame[5] && f[q + 6] == frame[6];
    assert f[q..q + 4] == frame[..4] by { SliceOfSlice(f, q, end, 0, 4); }
    assert f[q + 6..end] == frame[6..] by { SliceOfSlice(f, q, end, 6, HEADER + |s|); }
    assert f[q + HEADER..end] == frame[HEADER..] by { SliceOfSlice(f, q, end, HEADER, HEADER + |s|); }
  }

  /** The header of a sound fragment is the header that a writer gives it. */
  lemma ReadsFrame(f: Bytes, q: nat, t: Byte, s: Bytes)
    requires q + HEADER + |s| <= Limit(f, q) && |s| < BLOCK && ParseAt(f, q) == Fragment(t, s)
    ensures f[q..q + HEADER + |s|] == Frame(t, s)
  {
    hide Value, Extend, Unmask, Mask, EncodeFixed32, BlockEnd, LoadLE;
    var field, end := f[q..q + 4], q + HEADER + |s|;
    assert Length(f[q + 4], f[q + 5]) == |s| && f[q + 6] == t && f[q + HEADER..end] == s;
    assert f[q + 6..end] == [t] + s;
    ExtendChains(0, [t], s);
    assert Value([t] + s) == Extend(Value([t]), s) by { ValueIs([t] + s); ValueIs([t]); }
    MaskUnmask(LoadFixed(field));
    var stored := EncodeFixed32(Mask(Extend(Value([t]), s)));
    assert LoadLE(stored) == LoadLE(field);
    StoreLoaded(stored);
    StoreLoaded(field);
    assert f[q..end] == field + [f[q + 4], f[q + 5], f[q + 6]] + f[q + HEADER..end];
  }

  lemma ValueIs(s: Bytes)
    ensures Value(s) == Extend(0, s)
  {
  }

  // ----- Runs -----

  /** ev[i..j] is one whole record: a Full fragment, or First, Middle ... Middle, Last, next to each other. */
  predicate IsRun(ev: seq<Physical>, i: nat, j: nat) {
    && i < j <= |ev|
    && if j == i + 1 then IsKind(ev[i], FULL)
       else IsKind(ev[i], FIRST) && IsKind(ev[j - 1], LAST) && forall k :: i < k < j - 1 ==> IsKind(ev[k], MIDDLE)
  }

  /** ev[a..i] began a record and did not end it. */
  predicate OpenAt(ev: seq<Physical>, a: nat, i: nat) {
    a < i <= |ev| && IsKind(ev[a], FIRST) && forall k :: a < k < i ==> IsKind(ev[k], MIDDLE)
  }

  ghost predicate Open(ev: seq<Physical>, i: nat) {
    exists a: nat :: OpenAt(ev, a, i)
  }

  lemma OneOpening(ev: seq<Physical>, a: nat, b: nat, i: nat)
    requires OpenAt(ev, a, i) && OpenAt(ev, b, i)
    ensures a == b
  {
  }

  /** Which runs end after one more read. */
  lemma RunEnds(ev: seq<Physical>, a: nat, n: nat)
    requires n < |ev|
    ensures IsRun(ev, a, n + 1) <==> if a == n then IsKind(ev[n], FULL) else OpenAt(ev, a, n) && IsKind(ev[n], LAST)
  {
  }

  /** Which records are begun after one more read. */
  lemma Opens(ev: seq<Physical>, a: nat, n: nat)
    requires n < |ev|
    ensures OpenAt(ev, a, n + 1) <==> if a == n then IsKind(ev[n], FIRST) else OpenAt(ev, a, n) && IsKind(ev[n], MIDDLE)
  {
  }

  /** Spans in order that are exactly the runs which end by n, and their payloads. */
  ghost predicate Lists(ev: seq<Physical>, n: nat, spans: seq<(nat, nat)>, records: seq<Bytes>) {
    && |spans| == |records|
    && (forall k :: 0 <= k < |spans| ==>
          IsRun(ev, spans[k].0, spans[k].1) && spans[k].1 <= n && records[k] == Join(ev, spans[k].0, spans[k].1))
    && (forall k, l :: 0 <= k < l < |spans| ==> spans[k].1 <= spans[l].0)
    && (forall i: nat, j: nat :: IsRun(ev, i, j) && j <= n ==> (i, j) in spans)
  }

  /** The payloads of the runs that end by n, in order. */
  ghost function RecordsOf(ev: seq<Physical>, n: nat): seq<Bytes>
    requires n <= |ev|
  {
    if n == 0 then []
    else RecordsOf(ev, n - 1) +
         if a: nat :| IsRun(ev, a, n) then [Join(ev, a, n)] else []
  }

  /** RecordsOf lists every run once, in order, and nothing else. */
  lemma {:induction false} RecordsAreRuns(ev: seq<Physical>, n: nat) returns (spans: seq<(nat, nat)>)
    requires n <= |ev|
    ensures Lists(ev, n, spans, RecordsOf(ev, n))
  {
    hide Join, IsRun;
    if n == 0 {
      spans := [];
      forall i: nat, j: nat | IsRun(ev, i, j) ensures j > 0 { RunIsNotEmpty(ev, i, j); }
    } else {
      var before := RecordsAreRuns(ev, n - 1);
      if a: nat :| IsRun(ev, a, n) {
        forall b: nat | IsRun(ev, b, n) ensures b == a { OneRun(ev, a, b, n); }
        forall k | 0 <= k < |before| ensures before[k].1 <= a {
          RunsApart(ev, before[k].0, before[k].1, a, n);
        }
        spans := before + [(a, n)];
        assert (a, n) in spans;
        forall i: nat, j: nat | IsRun(ev, i, j) && j <= n ensures (i, j) in spans {
          if j < n { assert (i, j) in before; }
        }
      } else {
        spans := before;
      }
    }
  }

  lemma RunIsNotEmpty(ev: seq<Physical>, i: nat, j: nat)
    requires IsRun(ev, i, j)
    ensures i < j
  {
  }

  lemma OneRun(ev: seq<Physical>, a: nat, b: nat, n: nat)
    requires IsRun(ev, a, n) && IsRun(ev, b, n)
    ensures a == b
  {
  }

  lemma RunsApart(ev: seq<Physical>, i: nat, j: nat, a: nat, n: nat)
    requires IsRun(ev, i, j) && IsRun(ev, a, n) && j < n
    ensures j <= a
  {
  }

  // ----- Reports -----

  /** The corruptions reported at read i: what is bad itself, and the record that it breaks off. */
  ghost function ReportsAt(ev: seq<Physical>, i: nat): nat
    requires i < |ev|
  {
    match ev[i]
    case Eof => 0
    case Bad(reported) => One(reported) + One(Open(ev, i))
    case Fragment(kind, _) =>
      if kind == FULL || kind == FIRST then One(exists a: nat :: OpenAt(ev, a, i) && Join(ev, a, i) != [])
      else if kind == MIDDLE || kind == LAST then One(!Open(ev, i))
      else if kind == TYPE_OF_BAD then One(Open(ev, i))
      else 1
  }

  ghost function ReportsOf(ev: seq<Physical>, n: nat): nat
    requires n <= |ev|
  {
    if n == 0 then 0 else ReportsOf(ev, n - 1) + ReportsAt(ev, n - 1)
  }

  // ----- The reader -----

  /** After i of the reads, `pending` is the record begun and not ended, if there is one. */
  ghost predicate Pending(ev: seq<Physical>, i: nat, pending: Option<Bytes>) {
    && i <= |ev|
    && match pending
       case None => !Open(ev, i)
       case Some(b) => exists a: nat :: OpenAt(ev, a, i) && b == Join(ev, a, i)
  }

  // What one read does to a reader with `pending` in hand.

  function StateAfter(e: Physical, pending: Option<Bytes>): Option<Bytes> {
    if IsKind(e, FIRST) then Some(e.payload)
    else if IsKind(e, MIDDLE) && pending.Some? then Some(pending.value + e.payload)
    else None
  }

  function RecordAfter(e: Physical, pending: Option<Bytes>): Option<Bytes> {
    if IsKind(e, FULL) then Some(e.payload)
    else if IsKind(e, LAST) && pending.Some? then Some(pending.value + e.payload)
    else None
  }

  function ReportsAfter(e: Physical, pending: Option<Bytes>): nat {
    match e
    case Eof => 0
    case Bad(reported) => One(reported) + One(pending.Some?)
    case Fragment(kind, s) =>
      if kind == FULL || kind == FIRST then One(pending.Some? && pending.value != [])
      else if kind == MIDDLE || kind == LAST then One(pending.None?)
      else if kind == TYPE_OF_BAD then One(pending.Some?) else 1
  }

  lemma {:induction false} AssembleStep(f: Bytes, p: nat, pending: Option<Bytes>)
    ensures var q := Start(p);
            var e := ParseAt(f, q);
            var r := Assemble(f, p, pending);
            if e.Eof? || IsKind(e, TYPE_OF_EOF) then r.record.None? && r.reports == 0
            else if RecordAfter(e, pending).Some? then r == Logical(RecordAfter(e, pending), After(f, q, e), ReportsAfter(e, pending))
            else r == Assemble(f, After(f, q, e), StateAfter(e, pending)).Plus(ReportsAfter(e, pending))
  {
    hide ParseAt, Trailer;
  }

  lemma OneReport(ev: seq<Physical>, i: nat, pending: Option<Bytes>)
    requires i < |ev| && Pending(ev, i, pending)
    ensures ReportsAt(ev, i) == ReportsAfter(ev[i], pending)
  {
    if pending.Some? {
      var a: nat :| OpenAt(ev, a, i) && pending.value == Join(ev, a, i);
      forall b: nat | OpenAt(ev, b, i) ensures b == a { OneOpening(ev, a, b, i); }
    }
  }

  lemma NextPending(ev: seq<Physical>, i: nat, pending: Option<Bytes>, n: nat)
    requires i < |ev| && n == i + 1 && Pending(ev, i, pending)
    ensures Pending(ev, n, StateAfter(ev[i], pending))
  {
    forall a: nat ensures OpenAt(ev, a, n) <==>
      if a == i then IsKind(ev[i], FIRST) else OpenAt(ev, a, i) && IsKind(ev[i], MIDDLE) { Opens(ev, a, i); }
    if IsKind(ev[i], FIRST) {
      assert OpenAt(ev, i, n) && Join(ev, i, n) == [] + Payload(ev[i]) == Payload(ev[i]);
    } else if IsKind(ev[i], MIDDLE) && pending.Some? {
      var a: nat :| OpenAt(ev, a, i) && pending.value == Join(ev, a, i);
      assert OpenAt(ev, a, n) && Join(ev, a, n) == Join(ev, a, i) + Payload(ev[i]);
    }
  }

  lemma NextRecord(ev: seq<Physical>, i: nat, pending: Option<Bytes>, n: nat)
    requires i < |ev| && n == i + 1 && Pending(ev, i, pending)
    ensures RecordsOf(ev, n) == RecordsOf(ev, i) +
              match RecordAfter(ev[i], pending) case Some(b) => [b] case None => []
  {
    hide IsRun;
    forall a: nat ensures IsRun(ev, a, n) <==>
      if a == i then IsKind(ev[i], FULL) else OpenAt(ev, a, i) && IsKind(ev[i], LAST) { RunEnds(ev, a, i); }
    if IsKind(ev[i], FULL) {
      assert IsRun(ev, i, n);
      forall a: nat | IsRun(ev, a, n) ensures a == i {}
      assert Join(ev, i, n) == [] + Payload(ev[i]) == Payload(ev[i]);
    } else if IsKind(ev[i], LAST) && pending.Some? {
      var a: nat :| OpenAt(ev, a, i) && pending.value == Join(ev, a, i);
      assert IsRun(ev, a, n);
      forall b: nat | IsRun(ev, b, n) ensures b == a { OneOpening(ev, a, b, i); }
      assert Join(ev, a, n) == Join(ev, a, i) + Payload(ev[i]);
    }
  }

  /** One call of the reader, seen from the reads: i of them are behind it at position p. */
  lemma {:induction false} CallReads(f: Bytes, p: nat, ev: seq<Physical>, i: nat, pending: Option<Bytes>) returns (next: nat)
    requires i <= |ev| && Reads(f, p) == ev[i..] && Pending(ev, i, pending)
    ensures var r := Assemble(f, p, pending);
            && i <= next <= |ev| && ReportsOf(ev, next) == ReportsOf(ev, i) + r.reports
            && (r.record.None? ==> next == |ev| && RecordsOf(ev, next) == RecordsOf(ev, i))
            && (r.record.Some? ==> Pending(ev, next, None) && Reads(f, r.next) == ev[next..] &&
                                   RecordsOf(ev, next) == RecordsOf(ev, i) + [r.record.value])
    decreases if p <= |f| then |f| - p else 0
  {
    hide Pending, ParseAt, Trailer, RecordsOf, ReportsAt, Assemble, StateAfter, RecordAfter, ReportsAfter;
    var q := Start(p);
    var e := ParseAt(f, q);
    AssembleStep(f, p, pending);
    if e.Eof? || IsKind(e, TYPE_OF_EOF) {
      next := i;
    } else {
      var after := After(f, q, e);
      FirstRead(f, p, ev, i);
      OneReport(ev, i, pending);
      NextPending(ev, i, pending, i + 1);
      NextRecord(ev, i, pending, i + 1);
      if RecordAfter(e, pending).Some? {
        next := i + 1;
        NothingLeft(e, pending);
      } else {
        next := CallReads(f, after, ev, i + 1, StateAfter(e, pending));
      }
    }
  }

  lemma FirstRead(f: Bytes, p: nat, ev: seq<Physical>, i: nat)
    requires i <= |ev| && Reads(f, p) == ev[i..]
    requires !ParseAt(f, Start(p)).Eof? && !IsKind(ParseAt(f, Start(p)), TYPE_OF_EOF)
    ensures i < |ev| && ev[i] == ParseAt(f, Start(p))
    ensures Reads(f, After(f, Start(p), ev[i])) == ev[i + 1..]
    ensures p < After(f, Start(p), ev[i]) <= |f|
  {
    hide ParseAt;
    assert ev[i..][0] == ev[i] && ev[i..][1..] == ev[i + 1..];
  }

  lemma NothingLeft(e: Physical, pending: Option<Bytes>)
    requires RecordAfter(e, pending).Some?
    ensures StateAfter(e, pending) == None
  {
  }

  lemma {:induction false} ReplayReads(f: Bytes, p: nat, ev: seq<Physical>, i: nat)
    requires i <= |ev| && Reads(f, p) == ev[i..] && Pending(ev, i, None)
    ensures RecordsOf(ev, |ev|) == RecordsOf(ev, i) + Replay(f, p).records
    ensures ReportsOf(ev, |ev|) == ReportsOf(ev, i) + Replay(f, p).reports
    decreases if p <= |f| then |f| - p else 0
  {
    hide Pending, Reads, Assemble, RecordsOf, ReportsOf;
    var next := CallReads(f, p, ev, i, None);
    var r := Assemble(f, p, None);
    if r.record.Some? { ReplayReads(f, r.next, ev, next); }
  }

  /** From any file: exactly the unbroken runs of fragments, in order, and exactly the reports that
      the reads which break them give rise to. */
  lemma ReplayIsRuns(f: Bytes)
    ensures var ev := Reads(f, 0);
            Replay(f, 0) == Replayed(RecordsOf(ev, |ev|), ReportsOf(ev, |ev|))
  {
    var ev := Reads(f, 0);
    assert ev[0..] == ev;
    assert Pending(ev, 0, None);
    ReplayReads(f, 0, ev, 0);
  }
}
