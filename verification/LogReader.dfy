/** Reading the write-ahead log back, from offset 0 with checksums verified. */
module LogReader {
  import opened Wrappers
  import opened Coding
  import opened Checksums
  import opened WriteAheadLog

  // ----- What the bytes of a file mean -----

  /** The reader's own values kEof and kBadRecord come right after the record types, so a sound
      fragment that carries one of them as its type is taken for the event itself. */
  const TYPE_OF_EOF: Byte := LAST + 1
  const TYPE_OF_BAD: Byte := LAST + 2

  /** One physical read: a fragment, the end of the file, or something to drop. */
  datatype Physical = Fragment(kind: Byte, payload: Bytes) | Eof | Bad(reported: bool)

  function BlockEnd(q: nat): nat {
    q - q % BLOCK + BLOCK
  }

  /** Where the buffer that holds position q ends. */
  function Limit(f: Bytes, q: nat): nat {
    if |f| < BlockEnd(q) then |f| else BlockEnd(q)
  }

  function Start(p: nat): nat {
    p + Trailer(p)
  }

  /** The physical record at q, a position where a header fits in its block. */
  function ParseAt(f: Bytes, q: nat): (r: Physical)
    ensures r.Fragment? ==> q + HEADER + |r.payload| <= Limit(f, q)
    ensures r.Bad? ==> q + HEADER <= Limit(f, q)
  {
    if Limit(f, q) < q + HEADER then Eof
    else
      var n := Length(f[q + 4], f[q + 5]);
      if Limit(f, q) < q + HEADER + n then
        if |f| < BlockEnd(q) then Eof else Bad(true)
      else if f[q + 6] == ZERO && n == 0 then Bad(false)
      else if Unmask(LoadFixed(f[q..q + 4])) != Value(f[q + 6..q + HEADER + n]) then Bad(true)
      else Fragment(f[q + 6], f[q + HEADER..q + HEADER + n])
  }

  /** Where the reader stands after reading r at q. */
  function After(f: Bytes, q: nat, r: Physical): nat {
    match r
    case Eof => |f|
    case Bad(_) => Limit(f, q)
    case Fragment(_, s) => q + HEADER + |s|
  }

  function Length(low: Byte, high: Byte): nat {
    (low as int) + 256 * (high as int)
  }

  function LoadFixed(s: Bytes): (v: Uint32)
    requires |s| == 4
  {
    LoadFour(s[0], s[1], s[2], s[3]);
    assert s == [s[0], s[1], s[2], s[3]];
    LoadLE(s)
  }

  /** A logical record, or the end; where the reader stands after it; corruptions reported. */
  datatype Logical = Logical(record: Option<Bytes>, next: nat, reports: nat) {
    function Plus(n: nat): Logical {
      this.(reports := reports + n)
    }
  }

  function One(b: bool): nat {
    if b then 1 else 0
  }

  /** Fragments assembled from position p; `pending` is what a First fragment began. */
  function Assemble(f: Bytes, p: nat, pending: Option<Bytes>): (r: Logical)
    ensures r.record.Some? ==> p < r.next <= |f|
    decreases if p <= |f| then |f| - p else 0
  {
    var q := Start(p);
    match ParseAt(f, q)
    case Eof => Logical(None, |f|, 0)
    case Bad(reported) => Assemble(f, Limit(f, q), None).Plus(One(reported) + One(pending.Some?))
    case Fragment(kind, s) =>
      var next := q + HEADER + |s|;
      var unfinished := One(pending.Some? && pending.value != []);
      if kind == FULL then Logical(Some(s), next, unfinished)
      else if kind == FIRST then Assemble(f, next, Some(s)).Plus(unfinished)
      else if kind == MIDDLE && pending.Some? then Assemble(f, next, Some(pending.value + s))
      else if kind == LAST && pending.Some? then Logical(Some(pending.value + s), next, 0)
      else if kind == TYPE_OF_EOF then Logical(None, next, 0)
      else if kind == TYPE_OF_BAD then Assemble(f, next, None).Plus(One(pending.Some?))
      else Assemble(f, next, None).Plus(1)
  }

  datatype Replayed = Replayed(records: seq<Bytes>, reports: nat)

  /** All the records a reader returns from position p on, and the corruptions it reports. */
  function Replay(f: Bytes, p: nat): Replayed
    decreases if p <= |f| then |f| - p else 0
  {
    var r := Assemble(f, p, None);
    if r.record.None? then Replayed([], r.reports)
    else
      var rest := Replay(f, r.next);
      Replayed([r.record.value] + rest.records, r.reports + rest.reports)
  }

  // ----- Reading what was written -----

  /** f holds s from position at on, as far as f goes. */
  ghost predicate Agrees(f: Bytes, at: nat, s: Bytes) {
    forall i :: 0 <= i < |s| && at + i < |f| ==> f[at + i] == s[i]
  }

  lemma AgreesAppend(f: Bytes, at: nat, a: Bytes, b: Bytes)
    requires Agrees(f, at, a + b)
    ensures Agrees(f, at, a) && Agrees(f, at + |a|, b)
  {
    forall i | 0 <= i < |a| && at + i < |f| ensures f[at + i] == a[i] {
      assert (a + b)[i] == a[i];
    }
    forall i | 0 <= i < |b| && at + |a| + i < |f| ensures f[at + |a| + i] == b[i] {
      assert (a + b)[|a| + i] == b[i];
    }
  }

  lemma AgreesWhole(f: Bytes, at: nat, s: Bytes)
    requires Agrees(f, at, s) && at + |s| <= |f|
    ensures f[at..at + |s|] == s
  {
  }

  lemma FitsInBlock(at: nat, n: nat)
    requires n <= Avail(at)
    ensures Start(at) + HEADER + n <= BlockEnd(Start(at))
  {
  }

  lemma FrameFields(t: Byte, s: Bytes)
    requires |s| < BLOCK
    ensures var frame := Frame(t, s);
            && Length(frame[4], frame[5]) == |s| && frame[6] == t && frame[HEADER..] == s
            && Unmask(LoadFixed(frame[..4])) == Value(frame[6..])
  {
    hide Extend, Mask, Unmask, EncodeFixed32;
    var frame := Frame(t, s);
    ExtendChains(0, [t], s);
    UnmaskMask(Extend(Value([t]), s));
    assert frame[..4] == EncodeFixed32(Mask(Extend(Value([t]), s)));
    assert frame[6..] == [t] + s;
    assert frame[HEADER..] == s;
  }

  /** A fragment wholly inside the file is read back. */
  lemma ReadWhole(f: Bytes, at: nat, t: Byte, s: Bytes)
    requires FULL <= t <= LAST && |s| <= Avail(at) && |s| < BLOCK
    requires Agrees(f, Start(at), Frame(t, s)) && Start(at) + HEADER + |s| <= |f|
    ensures ParseAt(f, Start(at)) == Fragment(t, s)
  {
    hide Trailer, Avail, Frame, Value, Unmask, LoadFixed, Length, BlockEnd;
    var q, frame := Start(at), Frame(t, s);
    FitsInBlock(at, |s|);
    FrameFields(t, s);
    AgreesWhole(f, q, frame);
    assert f[q + 4] == frame[4] && f[q + 5] == frame[5] && f[q + 6] == frame[6];
    assert f[q..q + 4] == f[q..q + |frame|][..4];
    assert f[q + 6..q + HEADER + |s|] == f[q..q + |frame|][6..];
    assert f[q + HEADER..q + HEADER + |s|] == f[q..q + |frame|][HEADER..];
  }

  /** A fragment cut off by the end of the file reads as the end of the file. */
  lemma ReadCut(f: Bytes, at: nat, t: Byte, s: Bytes)
    requires |s| <= Avail(at) && |s| < BLOCK
    requires Agrees(f, Start(at), Frame(t, s)) && |f| < Start(at) + HEADER + |s|
    ensures ParseAt(f, Start(at)) == Eof
  {
    hide Trailer, Avail, Frame, Value, Unmask, LoadFixed, Length, BlockEnd;
    var q, frame := Start(at), Frame(t, s);
    FitsInBlock(at, |s|);
    FrameFields(t, s);
    if q + HEADER <= |f| {
      assert f[q + 4] == frame[4] && f[q + 5] == frame[5];
    }
  }

  /** What one fragment of the right type does. */
  lemma {:induction false} TakeFragment(f: Bytes, at: nat, begin: bool, end: bool, scratch: Bytes, s: Bytes)
    requires ParseAt(f, Start(at)) == Fragment(FragmentType(begin, end), s) && (begin ==> scratch == [])
    ensures var r := Assemble(f, at, if begin then None else Some(scratch));
            var next := Start(at) + HEADER + |s|;
            r == if end then Logical(Some(scratch + s), next, 0) else Assemble(f, next, Some(scratch + s))
  {
    hide ParseAt, Trailer;
    assert begin ==> scratch + s == s;
  }

  lemma {:induction false} StopAtEof(f: Bytes, at: nat, pending: Option<Bytes>)
    requires ParseAt(f, Start(at)) == Eof
    ensures Assemble(f, at, pending) == Logical(None, |f|, 0)
  {
  }

  /** Reading the rest of a record: all of it, or nothing if the file ends first. */
  lemma {:induction false} ReadEncoded(f: Bytes, left: Bytes, at: nat, begin: bool, scratch: Bytes)
    requires Agrees(f, at, Encode(left, at, begin)) && (begin ==> scratch == [])
    ensures var r := Assemble(f, at, if begin then None else Some(scratch));
            var end := at + |Encode(left, at, begin)|;
            if end <= |f| then r == Logical(Some(scratch + left), end, 0) else r.record.None? && r.reports == 0
    decreases |left|, if Avail(at) == 0 then 1 else 0
  {
    hide Trailer, Avail, Frame, ParseAt, Agrees, Assemble;
    var avail, q := Avail(at), Start(at);
    var pad := Padding(Trailer(at));
    if |left| <= avail {
      var frame := Frame(FragmentType(begin, true), left);
      AgreesAppend(f, at, pad, frame);
      if q + |frame| <= |f| {
        ReadWhole(f, at, FragmentType(begin, true), left);
        TakeFragment(f, at, begin, true, scratch, left);
      } else {
        ReadCut(f, at, FragmentType(begin, true), left);
        StopAtEof(f, at, if begin then None else Some(scratch));
      }
    } else {
      var s := left[..avail];
      var frame := Frame(FragmentType(begin, false), s);
      var next := q + HEADER + avail;
      var rest := Encode(left[avail..], next, false);
      AgreesAppend(f, at, pad + frame, rest);
      AgreesAppend(f, at, pad, frame);
      if avail == 0 { RoomInNextBlock(at); }
      if q + |frame| <= |f| {
        ReadWhole(f, at, FragmentType(begin, false), s);
        TakeFragment(f, at, begin, false, scratch, s);
        ReadEncoded(f, left[avail..], next, false, scratch + s);
        assert scratch + s + left[avail..] == scratch + left;
      } else {
        ReadCut(f, at, FragmentType(begin, false), s);
        StopAtEof(f, at, if begin then None else Some(scratch));
      }
    }
  }

  // ----- The crash prefix theorem -----

  /** How many of the records lie wholly inside the first `cut` bytes. */
  function Whole(records: seq<Bytes>, cut: nat): (n: nat)
    ensures n <= |records|
  {
    if records == [] || |Log(records)| <= cut then |records| else Whole(records[..|records| - 1], cut)
  }

  /** Whole counts exactly the records whose last byte was kept. */
  lemma {:induction false} WholeExactly(records: seq<Bytes>, cut: nat, i: nat)
    requires i < |records|
    ensures i < Whole(records, cut) <==> |Log(records[..i + 1])| <= cut
  {
    hide Encode;
    var n := |records| - 1;
    if i == n {
      assert records[..i + 1] == records;
    } else {
      assert records[..n][..i + 1] == records[..i + 1];
      WholeExactly(records[..n], cut, i);
      LogGrows(records, i + 1);
    }
  }

  lemma {:induction false} LogGrows(records: seq<Bytes>, i: nat)
    requires i <= |records|
    ensures Log(records[..i]) <= Log(records)
  {
    hide Encode;
    if i < |records| {
      var n := |records| - 1;
      assert records[..n][..i] == records[..i];
      LogGrows(records[..n], i);
    } else {
      assert records[..i] == records;
    }
  }

  lemma LogStep(records: seq<Bytes>, i: nat)
    requires i < |records|
    ensures Log(records[..i + 1]) == Log(records[..i]) + Encode(records[i], |Log(records[..i])|, true)
  {
    hide Encode;
    assert records[..i + 1][..i] == records[..i];
  }

  /** Record i, read from where it was written in a log cut short. */
  lemma ReadOne(records: seq<Bytes>, cut: nat, i: nat)
    requires cut <= |Log(records)| && i < |records|
    ensures var f := Log(records)[..cut];
            var r := Assemble(f, |Log(records[..i])|, None);
            var end := |Log(records[..i + 1])|;
            if end <= cut then r == Logical(Some(records[i]), end, 0) else r.record.None? && r.reports == 0
  {
    hide Encode, Assemble, Log;
    var f := Log(records)[..cut];
    var at := |Log(records[..i])|;
    LogStep(records, i);
    LogGrows(records, i + 1);
    var enc := Encode(records[i], at, true);
    assert Agrees(f, at, enc) by {
      forall k | 0 <= k < |enc| && at + k < |f| ensures f[at + k] == enc[k] {
        assert Log(records[..i + 1])[at + k] == enc[k];
      }
    }
    ReadEncoded(f, records[i], at, true, []);
    assert [] + records[i] == records[i];
  }

  lemma ReadPastEnd(f: Bytes, pending: Option<Bytes>)
    ensures Assemble(f, |f|, pending) == Logical(None, |f|, 0)
  {
  }

  lemma {:induction false} ReplayFrom(records: seq<Bytes>, cut: nat, i: nat)
    requires cut <= |Log(records)| && i <= Whole(records, cut)
    ensures Replay(Log(records)[..cut], |Log(records[..i])|) == Replayed(records[i..Whole(records, cut)], 0)
    decreases |records| - i
  {
    hide Assemble, Log, Encode, Whole;
    var f := Log(records)[..cut];
    if i < |records| {
      ReadOne(records, cut, i);
      WholeExactly(records, cut, i);
      if i < Whole(records, cut) {
        ReplayFrom(records, cut, i + 1);
        assert records[i..Whole(records, cut)] == [records[i]] + records[i + 1..Whole(records, cut)];
      }
    } else {
      assert records[..i] == records;
      WholeIsAll(records, cut);
      ReadPastEnd(f, None);
    }
  }

  lemma WholeIsAll(records: seq<Bytes>, cut: nat)
    requires cut <= |Log(records)| && Whole(records, cut) == |records|
    ensures cut == |Log(records)|
  {
    if records == [] {} else { WholeExactly(records, cut, |records| - 1); assert records[..|records|] == records; }
  }

  /** Any prefix of a log reads as the records wholly inside it, in order, with no corruption. */
  lemma CrashPrefix(records: seq<Bytes>, cut: nat)
    requires cut <= |Log(records)|
    ensures Replay(Log(records)[..cut], 0) == Replayed(records[..Whole(records, cut)], 0)
  {
    ReplayFrom(records, cut, 0);
    assert records[..0] == [];
    assert records[0..Whole(records, cut)] == records[..Whole(records, cut)];
  }

  // ----- The reader -----

  lemma InFullBlock(p: nat, end: nat)
    requires end % BLOCK == 0 && 0 < end - p <= BLOCK
    ensures BlockEnd(p) == end
    ensures end - p < HEADER ==> Start(p) == end
    ensures end - p >= HEADER ==> Start(p) == p
  {
  }

  lemma AtBlockStart(p: nat)
    requires p % BLOCK == 0
    ensures Start(p) == p && BlockEnd(p) == p + BLOCK
  {
  }

  lemma InShortBlock(f: Bytes, p: nat)
    requires p <= |f| < BlockEnd(p)
    ensures |f| - p < HEADER ==> ParseAt(f, Start(p)) == Eof
    ensures |f| - p >= HEADER ==> Start(p) == p
  {
    hide Value, Unmask, LoadFixed;
  }

  class Reader {
    const file: Bytes
    var buffer: Bytes
    var eof: bool
    var endOfBufferOffset: nat
    var reports: nat

    ghost predicate Valid()
      reads `buffer, `eof, `endOfBufferOffset
      ensures Valid() ==> |buffer| <= endOfBufferOffset && Position() <= |file|
    {
      && |buffer| <= endOfBufferOffset <= |file|
      && buffer == file[endOfBufferOffset - |buffer|..endOfBufferOffset]
      && (!eof ==> endOfBufferOffset % BLOCK == 0 && |buffer| <= BLOCK)
      && (eof ==> endOfBufferOffset == |file| < BlockEnd(Position()))
    }

    /** The offset of the first byte not yet consumed. */
    ghost function Position(): nat
      requires |buffer| <= endOfBufferOffset
      reads `buffer, `endOfBufferOffset
    {
      endOfBufferOffset - |buffer|
    }

    constructor (file: Bytes)
      ensures Valid() && this.file == file && Position() == 0 && reports == 0
    {
      this.file := file;
      buffer, eof, endOfBufferOffset, reports := [], false, 0, 0;
    }

    /** The next block of the file; a short one is the last. */
    method ReadBlock()
      requires Valid() && !eof && |buffer| < HEADER
      modifies this`buffer, this`eof, this`endOfBufferOffset
      ensures Valid() && Position() == old(endOfBufferOffset) == Start(old(Position())) == Start(Position())
      ensures |buffer| < HEADER ==> eof
    {
      hide BlockEnd, Start;
      if |buffer| > 0 { InFullBlock(Position(), endOfBufferOffset); }
      AtBlockStart(endOfBufferOffset);
      var end := if endOfBufferOffset + BLOCK < |file| then endOfBufferOffset + BLOCK else |file|;
      buffer := file[endOfBufferOffset..end];
      eof := |buffer| < BLOCK;
      endOfBufferOffset := end;
    }

    method ReadPhysicalRecord() returns (r: Physical)
      requires Valid()
      modifies this
      ensures Valid() && r == ParseAt(file, Start(old(Position())))
      ensures Position() == After(file, Start(old(Position())), r)
      ensures reports == old(reports) + One(r == Bad(true))
    {
      hide Start, BlockEnd, ParseAt, Limit;
      if |buffer| < HEADER && !eof {
        ReadBlock();
      }
      if |buffer| < HEADER {
        InShortBlock(file, Position());
        Drop();
        r := Eof;
      } else {
        BufferHolds();
        r := ParseBuffer();
      }
    }

    /** The record at the front of a buffer that holds a header. */
    method ParseBuffer() returns (r: Physical)
      requires Valid() && |buffer| >= HEADER
      modifies this
      ensures Valid() && r == ParseAt(file, old(Position())) && Position() == After(file, old(Position()), r)
      ensures reports == old(reports) + One(r == Bad(true))
    {
      hide Start, BlockEnd, Limit, Value, Unmask, LoadFixed, Length, ParseAt;
      BufferHolds();
      ParseInBuffer();
      var length := Length(buffer[4], buffer[5]);
      if HEADER + length > |buffer| {
        r := if eof then Eof else Bad(true);
        Drop();
      } else if buffer[6] == ZERO && length == 0 {
        r := Bad(false);
        Drop();
      } else {
        if Unmask(LoadFixed(buffer[0..4])) != Value(buffer[6..HEADER + length]) {
          r := Bad(true);
          Drop();
        } else {
          r := Fragment(buffer[6], buffer[HEADER..HEADER + length]);
          Consume(HEADER + length);
        }
      }
      if r == Bad(true) {
        reports := reports + 1;
      }
    }

    /** Parsing in the file, seen from the buffer. */
    lemma ParseInBuffer()
      requires Valid() && |buffer| >= HEADER
      ensures ParseAt(file, Position()) ==
                var n := Length(buffer[4], buffer[5]);
                if HEADER + n > |buffer| then
                  if eof then Eof else Bad(true)
                else if buffer[6] == ZERO && n == 0 then Bad(false)
                else if Unmask(LoadFixed(buffer[0..4])) != Value(buffer[6..HEADER + n]) then Bad(true)
                else Fragment(buffer[6], buffer[HEADER..HEADER + n])
    {
      hide Start, BlockEnd, Limit, Value, Unmask, LoadFixed, Length;
      BufferHolds();
      var q, n := Position(), Length(buffer[4], buffer[5]);
      if HEADER + n <= |buffer| {
        SliceOfSlice(file, q, endOfBufferOffset, 0, 4);
        SliceOfSlice(file, q, endOfBufferOffset, 6, HEADER + n);
        SliceOfSlice(file, q, endOfBufferOffset, HEADER, HEADER + n);
      }
    }

    /** Clear the buffer. */
    method Drop()
      requires Valid()
      modifies this`buffer
      ensures Valid() && buffer == [] && Position() == endOfBufferOffset
    {
      buffer := [];
    }

    method Consume(n: nat)
      requires Valid() && n <= |buffer|
      modifies this`buffer
      ensures Valid() && Position() == old(Position()) + n
    {
      buffer := buffer[n..];
    }

    /** A header in the buffer starts a record of this block. */
    lemma BufferHolds()
      requires Valid() && |buffer| >= HEADER
      ensures Start(Position()) == Position() && Limit(file, Position()) == endOfBufferOffset
      ensures eof <==> |file| < BlockEnd(Position())
    {
      if eof { InShortBlock(file, Position()); } else { InFullBlock(Position(), endOfBufferOffset); }
    }

    method ReadRecord() returns (record: Option<Bytes>)
      requires Valid()
      modifies this
      ensures Valid()
      ensures var all := Assemble(file, old(Position()), None);
              record == all.record && Position() == all.next && reports == old(reports) + all.reports
    {
      hide ParseAt, Trailer, Limit, Valid;
      ghost var all := Assemble(file, Position(), None);
      ghost var before := reports;
      var pending: Option<Bytes> := None;
      while true
        invariant Valid()
        invariant all.record == Assemble(file, Position(), pending).record
        invariant all.next == Assemble(file, Position(), pending).next
        invariant before + all.reports == reports + Assemble(file, Position(), pending).reports
        decreases |file| - Position()
      {
        var fragment := ReadPhysicalRecord();
        match fragment {
          case Eof =>
            return None;
          case Bad(_) =>
            if pending.Some? { reports := reports + 1; }
            pending := None;
          case Fragment(kind, s) =>
            if kind == FULL {
              if pending.Some? && pending.value != [] { reports := reports + 1; }
              return Some(s);
            } else if kind == FIRST {
              if pending.Some? && pending.value != [] { reports := reports + 1; }
              pending := Some(s);
            } else if kind == MIDDLE && pending.Some? {
              pending := Some(pending.value + s);
            } else if kind == LAST && pending.Some? {
              return Some(pending.value + s);
            } else if kind == TYPE_OF_EOF {
              return None;
            } else if kind == TYPE_OF_BAD {
              if pending.Some? { reports := reports + 1; }
              pending := None;
            } else {
              reports := reports + 1;
              pending := None;
            }
        }
      }
    }
  }

  lemma ReplayStep(f: Bytes, p: nat)
    ensures var r, all := Assemble(f, p, None), Replay(f, p);
            if r.record.None? then all == Replayed([], r.reports)
            else
              && p < r.next <= |f|
              && all == Replayed([r.record.value] + Replay(f, r.next).records, r.reports + Replay(f, r.next).reports)
  {
    hide Assemble;
  }

  /** The caller's loop: read until there is no record. */
  method ReadLog(file: Bytes) returns (records: seq<Bytes>, reports: nat)
    ensures Replayed(records, reports) == Replay(file, 0)
  {
    hide Assemble, Replay, Reader.Valid;
    var reader := new Reader(file);
    records := [];
    var more := true;
    while more
      invariant reader.Valid() && reader.file == file && fresh(reader)
      invariant Replay(file, 0).records == records + if more then Replay(file, reader.Position()).records else []
      invariant Replay(file, 0).reports == reader.reports + if more then Replay(file, reader.Position()).reports else 0
      decreases more, |file| - reader.Position()
    {
      ReplayStep(file, reader.Position());
      var record := reader.ReadRecord();
      if record.Some? {
        records := records + [record.value];
      } else {
        more := false;
      }
    }
    reports := reader.reports;
  }
}
