/** The write-ahead log: records split over fixed-size blocks, and what a reader makes of
    any prefix of the bytes that were written. */
module WriteAheadLog {
  import opened Coding
  import opened Checksums

  const BLOCK: nat := 32768

  const HEADER: nat := 7

  const ZERO: Byte := 0
  const FULL: Byte := 1
  const FIRST: Byte := 2
  const MIDDLE: Byte := 3
  const LAST: Byte := 4

  // ----- The format -----

  /** Bytes to skip at position `at` because no header fits before the block ends. */
  function Trailer(at: nat): (n: nat)
    ensures n < HEADER
  {
    var leftover := BLOCK - at % BLOCK;
    if leftover < HEADER then leftover else 0
  }

  lemma TrailerFits(at: nat)
    ensures (at + Trailer(at)) % BLOCK + HEADER <= BLOCK
  {
  }

  function Padding(n: nat): (s: Bytes)
    ensures |s| == n
  {
    seq(n, i => 0)
  }

  /** Payload bytes that fit in the current block after a header. */
  function Avail(at: nat): (n: nat)
    ensures n <= BLOCK - HEADER
  {
    TrailerFits(at);
    BLOCK - (at + Trailer(at)) % BLOCK - HEADER
  }

  lemma RoomInNextBlock(at: nat)
    requires Avail(at) == 0
    ensures Avail(at + Trailer(at) + HEADER) > 0
  {
  }

  function FragmentType(begin: bool, end: bool): (t: Byte)
    ensures FULL <= t <= LAST
  {
    if begin && end then FULL else if begin then FIRST else if end then LAST else MIDDLE
  }

  /** A physical record: masked checksum, length, type, payload. */
  function Frame(t: Byte, payload: Bytes): (s: Bytes)
    requires |payload| < BLOCK
    ensures |s| == HEADER + |payload|
  {
    EncodeFixed32(Mask(Extend(Value([t]), payload))) + [|payload| % 256, |payload| / 256, t] + payload
  }

  /** The bytes of the rest of a record written at file position `at`. */
  function Encode(left: Bytes, at: nat, begin: bool): (s: Bytes)
    ensures |s| >= HEADER
    decreases |left|, if Avail(at) == 0 then 1 else 0
  {
    var avail := Avail(at);
    if |left| <= avail then
      Padding(Trailer(at)) + Frame(FragmentType(begin, true), left)
    else
      var next := at + Trailer(at) + HEADER + avail;
      assert avail == 0 ==> Avail(next) > 0 by { if avail == 0 { RoomInNextBlock(at); } }
      Padding(Trailer(at)) + Frame(FragmentType(begin, false), left[..avail]) + Encode(left[avail..], next, false)
  }

  /** The file that a writer of these records produces. */
  function Log(records: seq<Bytes>): Bytes {
    if records == [] then []
    else
      var before := Log(records[..|records| - 1]);
      before + Encode(records[|records| - 1], |before|, true)
  }

  // ----- Writing -----

  /** The writer's block offset agrees with the length of the file. */
  ghost predicate Aligned(length: nat, offset: nat) {
    offset <= BLOCK && offset % BLOCK == length % BLOCK
  }

  lemma AlignedAdd(length: nat, offset: nat, n: nat)
    requires Aligned(length, offset) && offset + n <= BLOCK
    ensures Aligned(length + n, offset + n)
  {
  }

  lemma AlignedTrailer(length: nat, offset: nat)
    requires Aligned(length, offset)
    ensures BLOCK - offset < HEADER ==> Trailer(length) == BLOCK - offset && Aligned(length + Trailer(length), 0)
    ensures BLOCK - offset >= HEADER ==> Trailer(length) == 0
  {
  }

  lemma AlignedAvail(length: nat, offset: nat)
    requires Aligned(length + Trailer(length), offset) && offset + HEADER <= BLOCK
    ensures Avail(length) == BLOCK - offset - HEADER
  {
  }

  class Writer {
    var dest: Bytes
    var blockOffset: nat

    ghost predicate Valid()
      reads this
    {
      Aligned(|dest|, blockOffset)
    }

    constructor ()
      ensures Valid() && dest == []
    {
      dest, blockOffset := [], 0;
    }

    method EmitPhysicalRecord(t: Byte, payload: Bytes)
      requires Valid() && FULL <= t <= LAST && blockOffset + HEADER + |payload| <= BLOCK
      modifies this
      ensures Valid()
      ensures dest == old(dest) + Frame(t, payload)
    {
      hide Extend, Mask, Value, EncodeFixed32, Aligned;
      AlignedAdd(|dest|, blockOffset, HEADER + |payload|);
      var crc := Mask(Extend(Value([t]), payload));
      var header := EncodeFixed32(crc) + [|payload| % 256, |payload| / 256, t];
      dest := dest + header;
      dest := dest + payload;
      blockOffset := blockOffset + (HEADER + |payload|);
    }

    /** Fill the trailer of a block in which no header fits. */
    method SwitchBlock()
      requires Valid()
      modifies this
      ensures Valid() && dest == old(dest) + Padding(Trailer(|old(dest)|))
      ensures blockOffset + HEADER <= BLOCK
      ensures Avail(|old(dest)|) == BLOCK - blockOffset - HEADER
    {
      hide Aligned, Trailer, Avail;
      var leftover := BLOCK - blockOffset;
      assert blockOffset <= BLOCK by { AlignedMeans(|dest|, blockOffset); }
      AlignedTrailer(|dest|, blockOffset);
      ghost var at := |dest|;
      if leftover < HEADER {
        if leftover > 0 {
          dest := dest + Padding(leftover);
        }
        blockOffset := 0;
      }
      AlignedAvail(at, blockOffset);
    }

    method AddRecord(record: Bytes)
      requires Valid()
      modifies this
      ensures Valid() && dest == old(dest) + Encode(record, |old(dest)|, true)
    {
      hide Frame, Aligned, Trailer;
      var left, begin, more := record, true, true;
      ghost var file := dest + Encode(record, |dest|, true);
      while more
        invariant Valid()
        invariant more ==> dest + Encode(left, |dest|, begin) == file
        invariant !more ==> dest == file
        decreases more, |left|, if Avail(|dest|) == 0 then 1 else 0
      {
        ghost var was := dest;
        SwitchBlock();
        var avail := BLOCK - blockOffset - HEADER;
        var n := if |left| < avail then |left| else avail;
        var end := |left| == n;
        NextPiece(was, left, begin);
        EmitPhysicalRecord(FragmentType(begin, end), left[..n]);
        left := left[n..];
        begin := false;
        more := |left| > 0;
      }
    }
  }

  lemma AlignedMeans(length: nat, offset: nat)
    requires Aligned(length, offset)
    ensures offset <= BLOCK
  {
  }

  /** One turn of the writer's loop. */
  lemma NextPiece(dest: Bytes, left: Bytes, begin: bool)
    ensures var at := |dest|;
            var n := if |left| < Avail(at) then |left| else Avail(at);
            var piece := dest + Padding(Trailer(at)) + Frame(FragmentType(begin, |left| == n), left[..n]);
            && dest + Encode(left, at, begin) == piece + (if |left| == n then [] else Encode(left[n..], |piece|, false))
            && (|left| > n == 0 ==> Avail(at) == 0 && Avail(|piece|) > 0)
  {
    hide Frame, Trailer, Avail;
    var at := |dest|;
    if Avail(at) == 0 { RoomInNextBlock(at); }
    if |left| <= Avail(at) {
      assert left[..|left|] == left;
      assert dest + (Padding(Trailer(at)) + Frame(FragmentType(begin, true), left))
          == dest + Padding(Trailer(at)) + Frame(FragmentType(begin, true), left);
    } else {
      var frame := Frame(FragmentType(begin, false), left[..Avail(at)]);
      var rest := Encode(left[Avail(at)..], at + Trailer(at) + HEADER + Avail(at), false);
      assert dest + (Padding(Trailer(at)) + frame + rest) == dest + Padding(Trailer(at)) + frame + rest;
    }
  }
}
