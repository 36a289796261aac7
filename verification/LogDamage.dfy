/** A log in which one block was damaged: every record outside it comes back. */
module LogDamage {
  import opened Wrappers
  import opened Coding
  import opened Checksums
  import opened WriteAheadLog
  import opened LogReader
  import opened LogFragments
  import opened ChecksumMeaning

  /** Where record i begins. */
  function At(records: seq<Bytes>, i: nat): nat
    requires i <= |records|
  {
    |Log(records[..i])|
  }

  /** f is g with bytes changed in block b only. */
  ghost predicate Damaged(f: Bytes, g: Bytes, b: nat) {
    |f| == |g| && forall k :: 0 <= k < |g| && f[k] != g[k] ==> k / BLOCK == b
  }

  /** Reading f along g from p on: where the two first read differently, f shows no fragment. */
  ghost predicate Caught(f: Bytes, g: Bytes, p: nat)
    decreases if p <= |g| then |g| - p else 0
  {
    var q := Start(p);
    var e, d := ParseAt(g, q), ParseAt(f, q);
    e.Eof? || (if d == e then Caught(f, g, After(g, q, e)) else !d.Fragment?)
  }

  /** Record k has bytes in block b. */
  ghost predicate Touches(records: seq<Bytes>, b: nat, k: nat)
    requires k < |records|
  {
    At(records, k) < (b + 1) * BLOCK && b * BLOCK < At(records, k + 1)
  }

  // ----- Reading the same bytes -----

  lemma SameParse(f: Bytes, g: Bytes, b: nat, q: nat)
    requires Damaged(f, g, b) && q / BLOCK != b
    ensures ParseAt(f, q) == ParseAt(g, q)
  {
    hide Value, Unmask, LoadFixed, Length;
    var l := Limit(g, q);
    if q <= l {
      forall k | q <= k < l ensures f[k] == g[k] { SameBlock(q, k); }
      assert f[q..l] == g[q..l];
      forall i, j | q <= i <= j <= l ensures f[i..j] == g[i..j] {
        SliceOfSlice(f, q, l, i - q, j - q);
        SliceOfSlice(g, q, l, i - q, j - q);
      }
    }
  }

  lemma SameBlock(q: nat, k: nat)
    requires q <= k < BlockEnd(q)
    ensures k / BLOCK == q / BLOCK
  {
  }

  // ----- Where a reader of the undamaged log stands -----

  /** At position `at` of the log: inside record i, with `left` of it to come. */
  ghost predicate Inside(records: seq<Bytes>, i: nat, left: Bytes, at: nat, begin: bool, scratch: Bytes) {
    && i < |records| && scratch + left == records[i]
    && At(records, i) <= at && (if begin then scratch == [] else At(records, i) < at)
    && at + |Encode(left, at, begin)| == At(records, i + 1) <= |Log(records)|
    && Agrees(Log(records), at, Encode(left, at, begin))
  }

  lemma InsideStart(records: seq<Bytes>, i: nat)
    requires i < |records|
    ensures Inside(records, i, records[i], At(records, i), true, [])
  {
    hide Encode, Log;
    var at := At(records, i);
    LogStep(records, i);
    LogGrows(records, i + 1);
    var g, enc := Log(records), Encode(records[i], at, true);
    forall k | 0 <= k < |enc| && at + k < |g| ensures g[at + k] == enc[k] {
      assert Log(records[..i + 1])[at + k] == enc[k];
    }
    assert [] + records[i] == records[i];
  }

  function Piece(left: Bytes, at: nat): Bytes {
    if |left| <= Avail(at) then left else left[..Avail(at)]
  }

  function Next(left: Bytes, at: nat): nat {
    Start(at) + HEADER + |Piece(left, at)|
  }

  /** The fragment there, and the place after it. */
  lemma InsideReads(records: seq<Bytes>, i: nat, left: Bytes, at: nat, begin: bool, scratch: Bytes)
    requires Inside(records, i, left, at, begin, scratch)
    ensures ParseAt(Log(records), Start(at)) == Fragment(FragmentType(begin, |left| <= Avail(at)), Piece(left, at))
    ensures at < Next(left, at) <= BlockEnd(Start(at))
    ensures |left| <= Avail(at) ==> Next(left, at) == At(records, i + 1)
    ensures |left| > Avail(at) ==>
              Inside(records, i, left[Avail(at)..], Next(left, at), false, scratch + Piece(left, at))
  {
    hide Trailer, Avail, Frame, ParseAt, Agrees, Log, BlockEnd;
    var g, pad, s := Log(records), Padding(Trailer(at)), Piece(left, at);
    FitsInBlock(at, |s|);
    if |left| <= Avail(at) {
      AgreesAppend(g, at, pad, Frame(FragmentType(begin, true), left));
      ReadWhole(g, at, FragmentType(begin, true), left);
    } else {
      var frame := Frame(FragmentType(begin, false), s);
      AgreesAppend(g, at, pad + frame, Encode(left[Avail(at)..], Next(left, at), false));
      AgreesAppend(g, at, pad, frame);
      ReadWhole(g, at, FragmentType(begin, false), s);
      assert scratch + s + left[Avail(at)..] == scratch + left;
    }
  }

  // ----- What the reader of the damaged log returns -----

  /** All records from a reader at p with `pending` in hand. */
  function Rest(f: Bytes, p: nat, pending: Option<Bytes>): seq<Bytes> {
    var r := Assemble(f, p, pending);
    if r.record.None? then [] else [r.record.value] + Replay(f, r.next).records
  }

  lemma RestIsReplay(f: Bytes, p: nat)
    ensures Rest(f, p, None) == Replay(f, p).records
  {
    hide Assemble;
  }

  /** One read later. */
  lemma RestStep(f: Bytes, p: nat, pending: Option<Bytes>, e: Physical)
    requires ParseAt(f, Start(p)) == e && !e.Eof? && !IsKind(e, TYPE_OF_EOF)
    ensures var after := After(f, Start(p), e);
            Rest(f, p, pending) == match RecordAfter(e, pending)
              case Some(r) => [r] + Rest(f, after, None)
              case None => Rest(f, after, StateAfter(e, pending))
  {
    hide Assemble, Replay, ParseAt, Start, RecordAfter, StateAfter;
    AssembleStep(f, p, pending);
    RestIsReplay(f, After(f, Start(p), e));
  }

  lemma RestAtEnd(f: Bytes, p: nat, pending: Option<Bytes>)
    requires ParseAt(f, Start(p)).Eof?
    ensures Rest(f, p, pending) == []
  {
    hide ParseAt, Trailer;
  }

  lemma EndIsEof(f: Bytes)
    ensures ParseAt(f, Start(|f|)).Eof?
  {
  }

  lemma Kinds(begin: bool, end: bool, scratch: Bytes, s: Bytes)
    requires begin ==> scratch == []
    ensures var e, pending := Fragment(FragmentType(begin, end), s), if begin then None else Some(scratch);
            && RecordAfter(e, pending) == (if end then Some(scratch + s) else None)
            && (!end ==> StateAfter(e, pending) == Some(scratch + s))
            && !IsKind(e, TYPE_OF_EOF)
  {
    assert begin ==> scratch + s == s;
  }

  /** A fragment of the log, read as it was written. */
  lemma RestTakes(records: seq<Bytes>, i: nat, left: Bytes, at: nat, begin: bool, scratch: Bytes, f: Bytes)
    requires Inside(records, i, left, at, begin, scratch) && ParseAt(f, Start(at)) == ParseAt(Log(records), Start(at))
    ensures Rest(f, at, if begin then None else Some(scratch)) ==
              if |left| <= Avail(at) then [records[i]] + Rest(f, At(records, i + 1), None)
              else Rest(f, Next(left, at), Some(scratch + Piece(left, at)))
  {
    hide ParseAt, Trailer, Avail, Log, Rest, Encode, Agrees, RecordAfter, StateAfter, FragmentType, IsKind;
    InsideReads(records, i, left, at, begin, scratch);
    Kinds(begin, |left| <= Avail(at), scratch, Piece(left, at));
    RestStep(f, at, if begin then None else Some(scratch), ParseAt(f, Start(at)));
  }

  // ----- Past the damage -----

  /** From a place past block b on: the rest of record i, if its beginning is in hand, and all that follow. */
  lemma {:induction false} CleanRest(records: seq<Bytes>, i: nat, left: Bytes, at: nat, begin: bool, scratch: Bytes, f: Bytes, b: nat)
    requires Damaged(f, Log(records), b) && Inside(records, i, left, at, begin, scratch) && (b + 1) * BLOCK <= Start(at)
    ensures Rest(f, at, if begin then None else Some(scratch)) == records[i..]
    ensures !begin ==> Rest(f, at, None) == records[i + 1..]
    decreases |Log(records)| - at
  {
    hide ParseAt, Trailer, Avail, Log, Rest, Encode, Agrees, Damaged, FragmentType;
    PastBlock(Start(at), b);
    SameParse(f, Log(records), b, Start(at));
    InsideReads(records, i, left, at, begin, scratch);
    RestTakes(records, i, left, at, begin, scratch, f);
    if !begin { RestSkips(records, i, left, at, scratch, f); }
    var next := Next(left, at);
    if |left| > Avail(at) {
      CleanRest(records, i, left[Avail(at)..], next, false, scratch + Piece(left, at), f, b);
    } else {
      if i + 1 < |records| {
        InsideStart(records, i + 1);
        CleanRest(records, i + 1, records[i + 1], next, true, [], f, b);
      } else {
        LastEnd(records, f, b);
      }
      assert records[i..] == [records[i]] + records[i + 1..];
    }
  }

  lemma PastBlock(q: nat, b: nat)
    requires (b + 1) * BLOCK <= q
    ensures q / BLOCK != b
  {
  }

  lemma LastEnd(records: seq<Bytes>, f: Bytes, b: nat)
    requires Damaged(f, Log(records), b)
    ensures At(records, |records|) == |f| && Rest(f, |f|, None) == []
  {
    hide ParseAt, Rest, Log;
    assert records[..|records|] == records;
    EndIsEof(f);
    RestAtEnd(f, |f|, None);
  }

  /** A later fragment of a record whose beginning was lost. */
  lemma RestSkips(records: seq<Bytes>, i: nat, left: Bytes, at: nat, scratch: Bytes, f: Bytes)
    requires Inside(records, i, left, at, false, scratch) && ParseAt(f, Start(at)) == ParseAt(Log(records), Start(at))
    ensures Rest(f, at, None) == Rest(f, Next(left, at), None)
  {
    hide ParseAt, Trailer, Avail, Log, Rest, Encode, Agrees;
    InsideReads(records, i, left, at, false, scratch);
    RestStep(f, at, None, ParseAt(f, Start(at)));
  }

  // ----- After a read that failed in block b -----

  /** All records from i to hi were lost; each has bytes in the block. */
  ghost predicate LostTo(records: seq<Bytes>, b: nat, i: nat, hi: nat) {
    i <= hi <= |records| && forall k :: i <= k < hi ==> Touches(records, b, k)
  }

  lemma {:induction false} AtGrows(records: seq<Bytes>, i: nat, j: nat)
    requires i <= j <= |records|
    ensures At(records, i) <= At(records, j) <= |Log(records)|
  {
    hide Encode;
    assert records[..j][..i] == records[..i];
    LogGrows(records[..j], i);
    LogGrows(records, j);
  }

  /** If the log ends in the block, all records that end past its beginning touch it. */
  lemma AllTouch(records: seq<Bytes>, b: nat, i: nat)
    requires i < |records| && b * BLOCK < At(records, i + 1) && |Log(records)| < (b + 1) * BLOCK
    ensures LostTo(records, b, i, |records|)
  {
    hide At, Log;
    forall k | i <= k < |records| ensures Touches(records, b, k) {
      AtGrows(records, i + 1, k + 1);
      AtGrows(records, k, |records|);
    }
  }

  lemma SameStart(f: Bytes, p: nat, p': nat, pending: Option<Bytes>)
    requires Start(p) == Start(p')
    ensures Rest(f, p, pending) == Rest(f, p', pending)
  {
    hide ParseAt, Trailer, Replay;
    AssembleStep(f, p, pending);
    AssembleStep(f, p', pending);
  }

  lemma StartsWithin(at: nat, end: nat)
    requires end % BLOCK == 0 && at <= end
    ensures Start(at) <= end && Start(end) == end
  {
  }

  /** Reading goes on at the end of the block, where the undamaged log goes on as well. */
  lemma {:induction false} Resume(records: seq<Bytes>, i: nat, left: Bytes, at: nat, begin: bool, scratch: Bytes,
                                  f: Bytes, b: nat) returns (hi: nat)
    requires Damaged(f, Log(records), b) && Inside(records, i, left, at, begin, scratch)
    requires at <= (b + 1) * BLOCK <= |f| && b * BLOCK <= Start(at)
    ensures LostTo(records, b, i, hi) && Rest(f, (b + 1) * BLOCK, None) == records[hi..]
    decreases |Log(records)| - at
  {
    hide ParseAt, Trailer, Avail, Log, Rest, Encode, Agrees, Damaged, FragmentType;
    var end := (b + 1) * BLOCK;
    StartsWithin(at, end);
    InsideReads(records, i, left, at, begin, scratch);
    if Start(at) == end {
      SameStart(f, at, end, None);
      CleanRest(records, i, left, at, begin, scratch, f, b);
      hi := if begin then i else i + 1;
    } else {
      var next := Next(left, at);
      EndOfBlock(Start(at), b);
      if |left| > Avail(at) {
        hi := Resume(records, i, left[Avail(at)..], next, false, scratch + Piece(left, at), f, b);
      } else if i + 1 < |records| {
        InsideStart(records, i + 1);
        hi := Resume(records, i + 1, records[i + 1], next, true, [], f, b);
      } else {
        LastEnd(records, f, b);
        hi := |records|;
      }
    }
  }

  lemma EndOfBlock(q: nat, b: nat)
    requires b * BLOCK <= q < (b + 1) * BLOCK
    ensures BlockEnd(q) == (b + 1) * BLOCK && q / BLOCK == b
  {
  }

  // ----- The whole damaged log -----

  /** A read that shows no fragment where the log has one. */
  lemma ReadFails(records: seq<Bytes>, i: nat, left: Bytes, at: nat, begin: bool, scratch: Bytes,
                  f: Bytes, b: nat) returns (hi: nat)
    requires Damaged(f, Log(records), b) && Inside(records, i, left, at, begin, scratch)
    requires ParseAt(f, Start(at)) != ParseAt(Log(records), Start(at)) && !ParseAt(f, Start(at)).Fragment?
    ensures LostTo(records, b, i, hi) && Rest(f, at, if begin then None else Some(scratch)) == records[hi..]
  {
    hide ParseAt, Trailer, Avail, Log, Rest, Encode, Agrees, FragmentType;
    var q, e := Start(at), ParseAt(f, Start(at));
    var pending := if begin then None else Some(scratch);
    if q / BLOCK != b { SameParse(f, Log(records), b, q); }
    InBlock(q, b);
    EndOfBlock(q, b);
    InsideReads(records, i, left, at, begin, scratch);
    if e.Eof? || Limit(f, q) == |f| < (b + 1) * BLOCK {
      EofIsShort(f, at);
      AllTouch(records, b, i);
      hi := |records|;
      if e.Eof? {
        RestAtEnd(f, at, pending);
      } else {
        RestStep(f, at, pending, e);
        LastEnd(records, f, b);
      }
    } else {
      RestStep(f, at, pending, e);
      hi := Resume(records, i, left, at, begin, scratch, f, b);
    }
  }

  lemma InBlock(q: nat, b: nat)
    requires q / BLOCK == b
    ensures b * BLOCK <= q < (b + 1) * BLOCK
  {
  }

  lemma EofIsShort(f: Bytes, at: nat)
    ensures ParseAt(f, Start(at)).Eof? ==> |f| < BlockEnd(Start(at))
  {
    hide Value, Unmask, LoadFixed, Length;
    TrailerFits(at);
  }

  /** From any place of the log: what is lost is a stretch of records that all touch the block. */
  lemma {:induction false} DamagedRest(records: seq<Bytes>, i: nat, left: Bytes, at: nat, begin: bool, scratch: Bytes,
                                       f: Bytes, b: nat) returns (lo: nat, hi: nat)
    requires Damaged(f, Log(records), b) && Inside(records, i, left, at, begin, scratch) && Caught(f, Log(records), at)
    ensures i <= lo && LostTo(records, b, lo, hi)
    ensures Rest(f, at, if begin then None else Some(scratch)) == records[i..lo] + records[hi..]
    decreases |Log(records)| - at
  {
    hide ParseAt, Trailer, Avail, Log, Rest, Encode, Agrees, Damaged, FragmentType;
    InsideReads(records, i, left, at, begin, scratch);
    var next := Next(left, at);
    if ParseAt(f, Start(at)) != ParseAt(Log(records), Start(at)) {
      lo := i;
      hi := ReadFails(records, i, left, at, begin, scratch, f, b);
    } else {
      RestTakes(records, i, left, at, begin, scratch, f);
      if |left| > Avail(at) {
        lo, hi := DamagedRest(records, i, left[Avail(at)..], next, false, scratch + Piece(left, at), f, b);
      } else if i + 1 < |records| {
        InsideStart(records, i + 1);
        lo, hi := DamagedRest(records, i + 1, records[i + 1], next, true, [], f, b);
        assert records[i..lo] == [records[i]] + records[i + 1..lo];
      } else {
        LastEnd(records, f, b);
        lo, hi := |records|, |records|;
        assert records[i..lo] == [records[i]];
      }
    }
  }

  /** A log with one damaged block, where no damaged fragment passes for a sound one: every record is
      returned, in order and unchanged, but for one stretch of records that all have bytes in the block. */
  lemma OneBlockDamaged(records: seq<Bytes>, f: Bytes, b: nat) returns (lo: nat, hi: nat)
    requires Damaged(f, Log(records), b) && Caught(f, Log(records), 0)
    ensures LostTo(records, b, lo, hi)
    ensures Replay(f, 0).records == records[..lo] + records[hi..]
  {
    hide Log, Rest, Replay, Caught, Damaged;
    RestIsReplay(f, 0);
    if records == [] {
      LastEnd(records, f, b);
      assert At(records, 0) == 0 by { EmptyLog(); }
      lo, hi := 0, 0;
    } else {
      assert At(records, 0) == 0 by { EmptyLog(); assert records[..0] == []; }
      InsideStart(records, 0);
      lo, hi := DamagedRest(records, 0, records[0], 0, true, [], f, b);
      assert records[0..lo] == records[..lo];
    }
  }

  lemma EmptyLog()
    ensures Log([]) == []
  {
  }

  // ----- Damage that the checksum catches -----

  /** From p on, g is read at q. */
  ghost predicate ReadsAt(g: Bytes, p: nat, q: nat)
    decreases if p <= |g| then |g| - p else 0
  {
    var e := ParseAt(g, Start(p));
    Start(p) == q || (e.Fragment? && ReadsAt(g, After(g, Start(p), e), q))
  }

  /** f is g with bytes changed only inside [lo, hi), and only within four consecutive ones. */
  ghost predicate PatchedIn(f: Bytes, g: Bytes, lo: nat, hi: nat) {
    && |f| == |g| && f != g && (forall k :: 0 <= k < |g| && f[k] != g[k] ==> lo <= k < hi)
    && exists j: nat :: ChangedFrom(f, g, j)
  }

  ghost predicate ChangedFrom(f: Bytes, g: Bytes, j: nat)
    requires |f| == |g|
  {
    forall k :: 0 <= k < |g| && f[k] != g[k] ==> j <= k < j + 4
  }

  /** Four bytes damaged in the checksum field, or in type and payload: the fragment is bad. */
  lemma PatchIsBad(f: Bytes, g: Bytes, q: nat, t: Byte, s: Bytes)
    requires ParseAt(g, q) == Fragment(t, s)
    requires PatchedIn(f, g, q, q + 4) || PatchedIn(f, g, q + 6, q + HEADER + |s|)
    ensures ParseAt(f, q).Bad?
  {
    hide Value, Unmask, LoadFixed, BlockEnd;
    var end := q + HEADER + |s|;
    assert f[q + 4] == g[q + 4] && f[q + 5] == g[q + 5];
    if PatchedIn(f, g, q, q + 4) {
      assert f[q + 6..end] == g[q + 6..end];
      if f[q..q + 4] == g[q..q + 4] { SameIn(f, g, q, q + 4); }
      OtherField(f[q..q + 4], g[q..q + 4]);
    } else {
      assert f[q..q + 4] == g[q..q + 4];
      PatchedContents(f, g, q + 6, end);
    }
  }

  lemma SameIn(f: Bytes, g: Bytes, lo: nat, hi: nat)
    requires PatchedIn(f, g, lo, hi) && lo <= hi <= |g|
    ensures f[lo..hi] != g[lo..hi]
  {
    var k :| 0 <= k < |g| && f[k] != g[k];
    assert f[lo..hi][k - lo] != g[lo..hi][k - lo];
  }

  lemma OtherField(a: Bytes, b: Bytes)
    requires |a| == |b| == 4 && a != b
    ensures Unmask(LoadFixed(a)) != Unmask(LoadFixed(b))
  {
    hide Mask, Unmask, LoadLE;
    StoreLoaded(a);
    StoreLoaded(b);
    MaskUnmask(LoadFixed(a));
    MaskUnmask(LoadFixed(b));
  }

  lemma PatchedContents(f: Bytes, g: Bytes, lo: nat, hi: nat)
    requires PatchedIn(f, g, lo, hi) && lo <= hi <= |g|
    ensures Value(f[lo..hi]) != Value(g[lo..hi])
  {
    hide Extend;
    SameIn(f, g, lo, hi);
    var j: nat :| ChangedFrom(f, g, j);
    var a, b, m := f[lo..hi], g[lo..hi], if j < lo then 0 else j - lo;
    forall i | 0 <= i < |a| && a[i] != b[i] ensures m <= i < m + 4 {
      assert f[lo + i] != g[lo + i];
    }
    PatchShows(0, a, b, m);
  }

  lemma {:induction false} PatchIsCaught(f: Bytes, g: Bytes, p: nat, q: nat, t: Byte, s: Bytes)
    requires ReadsAt(g, p, q) && ParseAt(g, q) == Fragment(t, s)
    requires PatchedIn(f, g, q, q + 4) || PatchedIn(f, g, q + 6, q + HEADER + |s|)
    ensures Caught(f, g, p)
    decreases if p <= |g| then |g| - p else 0
  {
    hide ParseAt, PatchedIn, Trailer;
    if Start(p) == q {
      PatchIsBad(f, g, q, t, s);
    } else {
      var e := ParseAt(g, Start(p));
      var next := After(g, Start(p), e);
      ReadsForward(g, next, q);
      Before(f, g, q, t, s);
      SameFragment(f, g, Start(p), e);
      PatchIsCaught(f, g, next, q, t, s);
    }
  }

  lemma Before(f: Bytes, g: Bytes, q: nat, t: Byte, s: Bytes)
    requires PatchedIn(f, g, q, q + 4) || PatchedIn(f, g, q + 6, q + HEADER + |s|)
    ensures |f| == |g| && forall k :: 0 <= k < |g| && k < q ==> f[k] == g[k]
  {
  }

  lemma {:induction false} ReadsForward(g: Bytes, p: nat, q: nat)
    requires ReadsAt(g, p, q)
    ensures p <= q
    decreases if p <= |g| then |g| - p else 0
  {
    hide ParseAt;
    if Start(p) != q { ReadsForward(g, After(g, Start(p), ParseAt(g, Start(p))), q); }
  }

  /** A fragment whose bytes are the same reads the same. */
  lemma SameFragment(f: Bytes, g: Bytes, p: nat, e: Physical)
    requires |f| == |g| && ParseAt(g, p) == e && e.Fragment?
    requires forall k :: 0 <= k < |g| && k < After(g, p, e) ==> f[k] == g[k]
    ensures ParseAt(f, p) == e
  {
    hide ParseAt, Frame, BlockEnd;
    FragmentIff(g, p, e.kind, e.payload);
    FragmentIff(f, p, e.kind, e.payload);
    var end := p + HEADER + |e.payload|;
    assert f[p..end] == g[p..end];
  }

  /** A log in which up to four consecutive bytes were changed in the checksum, or in the type and payload,
      of one fragment: the reader notices, and loses only records with bytes in that block. */
  lemma PatchedLog(records: seq<Bytes>, f: Bytes, q: nat, t: Byte, s: Bytes) returns (lo: nat, hi: nat)
    requires ReadsAt(Log(records), 0, q) && ParseAt(Log(records), q) == Fragment(t, s)
    requires PatchedIn(f, Log(records), q, q + 4) || PatchedIn(f, Log(records), q + 6, q + HEADER + |s|)
    ensures ParseAt(f, q).Bad? && LostTo(records, q / BLOCK, lo, hi)
    ensures Replay(f, 0).records == records[..lo] + records[hi..]
  {
    hide ParseAt, Log, Replay, Caught, ReadsAt;
    var g := Log(records);
    PatchIsBad(f, g, q, t, s);
    PatchIsCaught(f, g, 0, q, t, s);
    PatchInBlock(f, g, q, t, s);
    lo, hi := OneBlockDamaged(records, f, q / BLOCK);
  }

  lemma PatchInBlock(f: Bytes, g: Bytes, q: nat, t: Byte, s: Bytes)
    requires ParseAt(g, q) == Fragment(t, s)
    requires PatchedIn(f, g, q, q + 4) || PatchedIn(f, g, q + 6, q + HEADER + |s|)
    ensures Damaged(f, g, q / BLOCK)
  {
    hide ParseAt;
    forall k | 0 <= k < |g| && f[k] != g[k] ensures k / BLOCK == q / BLOCK {
      SameBlock(q, k);
    }
  }
}
