/** The Snappy decompressor with its over-copying fast paths, and the validator. */
module SnappyDecoder {
  import opened Wrappers
  import opened Coding
  import opened SnappyFormat

  const MAX_TAG_LENGTH: nat := 5
  const MAX_INCREMENT_COPY_OVERFLOW: nat := 10

  /** The buffer after eight bytes at src were loaded and stored at dst. */
  ghost predicate Copied64(b: Bytes, src: nat, dst: nat, b': Bytes) {
    && src + 8 <= |b| && dst + 8 <= |b| && |b'| == |b|
    && (forall i :: 0 <= i < |b| && !(dst <= i < dst + 8) ==> b'[i] == b[i])
    && (forall i :: dst <= i < dst + 8 ==> b'[i] == b[src + (i - dst)])
  }

  method UnalignedCopy64(buf: array<Byte>, src: nat, dst: nat)
    requires src + 8 <= buf.Length && dst + 8 <= buf.Length
    modifies buf
    ensures Copied64(old(buf[..]), src, dst, buf[..])
  {
    var word := buf[src..src + 8];
    forall i | dst <= i < dst + 8 {
      buf[i] := word[i - dst];
    }
  }

  /** Bytes [lo, hi) of b repeat with period d; outside [lo, top) b is still `was`. */
  ghost predicate Periodic(b: Bytes, was: Bytes, lo: nat, hi: nat, top: nat, d: nat) {
    && |was| == |b|
    && 1 <= d <= lo <= hi <= |b|
    && (forall i :: lo <= i < hi ==> b[i] == b[i - d])
    && (forall i :: 0 <= i < lo ==> b[i] == was[i])
    && (forall i :: top <= i < |b| ==> b[i] == was[i])
  }

  /** IncrementalCopy: one byte at a time. */
  method IncrementalCopy(buf: array<Byte>, src: nat, op: nat, len: nat)
    requires src < op && op + len <= buf.Length && len > 0
    modifies buf
    ensures Periodic(buf[..], old(buf[..]), op, op + len, op + len, op - src)
  {
    ghost var was := buf[..];
    var n := 0;
    while n < len
      invariant 0 <= n <= len
      invariant Periodic(buf[..], was, op, op + n, op + n, op - src)
    {
      buf[op + n] := buf[src + n];
      n := n + 1;
    }
  }

  /** A byte equals the one a whole number of periods back. */
  lemma {:induction false} PeriodsBack(b: Bytes, was: Bytes, lo: nat, hi: nat, top: nat, d: nat, i: nat, k: nat)
    requires Periodic(b, was, lo, hi, top, d)
    requires i < hi && lo + k * d <= i + d
    ensures k * d <= i && b[i] == b[i - k * d]
    decreases k
  {
    if k > 0 {
      assert k * d == (k - 1) * d + d;
      PeriodsBack(b, was, lo, hi, top, d, i, k - 1);
    }
  }

  lemma RepeatsBack(b: Bytes, was: Bytes, lo: nat, op: nat, top: nat, d: nat, m: nat, src: nat, i: nat)
    requires Periodic(b, was, lo, op, top, d)
    requires m >= 1 && src + m * d == op && src + d >= lo && op <= i < 2 * op - src
    ensures i >= d
    ensures b[src + (i - op)] == if i - d >= op then b[src + (i - d - op)] else b[i - d]
  {
    if i - d < op {
      assert (m - 1) * d == m * d - d;
      PeriodsBack(b, was, lo, op, top, d, i - d, m - 1);
    }
  }

  /** Eight bytes from m periods back continue the repetition, as far as they were valid. */
  lemma CopyPeriods(b: Bytes, was: Bytes, lo: nat, op: nat, hi: nat, top: nat, d: nat, m: nat, src: nat, b': Bytes)
    requires Periodic(b, was, lo, op, top, d) && Copied64(b, src, op, b')
    requires m >= 1 && src + m * d == op && src + d >= lo
    requires hi == if op - src < 8 then 2 * op - src else op + 8
    requires top >= op + 8
    ensures Periodic(b', was, lo, hi, top, d)
  {
    forall i | op <= i < hi ensures b'[i] == b'[i - d] {
      RepeatsBack(b, was, lo, op, top, d, m, src, i);
      assert b'[i] == b[src + (i - op)];
      if i - d >= op { assert b'[i - d] == b[src + (i - d - op)]; }
    }
  }

  /** IncrementalCopyFastPath: repeats the pattern until it is eight bytes long, then copies
      eight at a time; up to ten bytes past the copy may be overwritten. */
  method IncrementalCopyFastPath(buf: array<Byte>, src0: nat, op0: nat, len: nat)
    requires src0 < op0 && len > 0 && op0 + len + MAX_INCREMENT_COPY_OVERFLOW <= buf.Length
    modifies buf
    ensures Periodic(buf[..], old(buf[..]), op0, op0 + len, op0 + len + MAX_INCREMENT_COPY_OVERFLOW, op0 - src0)
  {
    ghost var was, d, m := buf[..], op0 - src0, 1;
    ghost var top := op0 + len + MAX_INCREMENT_COPY_OVERFLOW;
    var src, op, left := src0, op0, len as int;
    StartsPeriodic(was, op0, top, d);
    hide Periodic, Copied64;
    while op - src < 8
      invariant src == src0 && m in {1, 2, 4, 8} && op - src == m * d
      invariant left == len - (op - op0) && op0 <= op
      invariant Periodic(buf[..], was, op0, op, top, d)
      decreases 16 - (op - src)
    {
      ghost var b := buf[..];
      UnalignedCopy64(buf, src, op);
      CopyPeriods(b, was, op0, op, 2 * op - src, top, d, m, src, buf[..]);
      left := left - (op - src);
      op := op + (op - src);
      m := 2 * m;
    }
    while left > 0
      invariant left == len - (op - op0) && op0 <= op && op - src == m * d && m >= 1 && m * d >= 8 && src >= src0
      invariant Periodic(buf[..], was, op0, op, top, d)
    {
      ghost var b := buf[..];
      UnalignedCopy64(buf, src, op);
      CopyPeriods(b, was, op0, op, op + 8, top, d, m, src, buf[..]);
      src, op, left := src + 8, op + 8, left - 8;
    }
    ShorterPeriod(buf[..], was, op0, op, op0 + len, top, d);
  }

  lemma StartsPeriodic(b: Bytes, op: nat, top: nat, d: nat)
    requires 1 <= d <= op <= |b|
    ensures Periodic(b, b, op, op, top, d)
  {
  }

  lemma ShorterPeriod(b: Bytes, was: Bytes, lo: nat, hi: nat, hi': nat, top: nat, d: nat)
    requires Periodic(b, was, lo, hi, top, d) && lo <= hi' <= hi
    ensures Periodic(b, was, lo, hi', top, d)
  {
  }

  lemma PeriodicIsCopy(b: Bytes, was: Bytes, op: nat, len: nat, top: nat, d: nat)
    requires Periodic(b, was, op, op + len, top, d)
    ensures b[..op + len] == CopyFromSelf(was[..op], d, len)
  {
    var r := b[..op + len];
    assert r[..op] == was[..op];
    CopyIsPeriodic(was[..op], d, len, r);
  }

  /** SnappyArrayWriter: writes to a flat buffer, never at or past `limit`. */
  class ArrayWriter {
    const buf: array<Byte>
    const limit: nat
    var op: nat

    ghost predicate Valid()
      reads this
    {
      op <= limit <= buf.Length
    }

    /** What has been produced so far. */
    ghost function Output(): Bytes
      requires Valid()
      reads this, buf
    {
      buf[..op]
    }

    /** The bytes of the buffer that are not the writer's to touch. */
    ghost function Beyond(): Bytes
      requires Valid()
      reads this, buf
    {
      buf[limit..]
    }

    constructor (buf: array<Byte>, limit: nat)
      requires limit <= buf.Length
      ensures Valid() && this.buf == buf && this.limit == limit && op == 0
    {
      this.buf, this.limit, this.op := buf, limit, 0;
    }

    method Append(bytes: Bytes) returns (ok: bool)
      requires Valid()
      modifies this, buf
      ensures Valid() && Beyond() == old(Beyond())
      ensures ok <==> old(op) + |bytes| <= limit
      ensures ok ==> Output() == old(Output()) + bytes
    {
      if limit - op < |bytes| {
        return false;
      }
      forall i | op <= i < op + |bytes| {
        buf[i] := bytes[i - op];
      }
      op := op + |bytes|;
      return true;
    }

    /** Copies 16 bytes of input where only `len` are wanted, when both sides have room. */
    method TryFastAppend(input: Bytes, ip: nat, len: nat) returns (ok: bool)
      requires Valid() && ip <= |input|
      modifies this, buf
      ensures Valid() && Beyond() == old(Beyond())
      ensures ok ==> len <= 16 && |input| - ip >= 16 + MAX_TAG_LENGTH
      ensures ok ==> Output() == old(Output()) + input[ip..ip + len]
      ensures !ok ==> Output() == old(Output())
    {
      if len <= 16 && |input| - ip >= 16 + MAX_TAG_LENGTH && limit - op >= 16 {
        forall i | op <= i < op + 16 {
          buf[i] := input[ip + (i - op)];
        }
        op := op + len;
        return true;
      }
      return false;
    }

    /** The `offset - 1u` test: false for offset 0 and for a copy from before the start. */
    method AppendFromSelf(offset: nat, len: nat) returns (ok: bool)
      requires Valid() && 1 <= len <= 64
      modifies this, buf
      ensures Valid() && Beyond() == old(Beyond())
      ensures ok <==> 1 <= offset <= old(op) && old(op) + len <= limit
      ensures ok ==> Output() == CopyFromSelf(old(Output()), offset, len)
    {
      hide Periodic, CopyFromSelf;
      if offset == 0 || op < offset {
        return false;
      }
      ghost var was := buf[..];
      var spaceLeft := limit - op;
      ghost var top;
      if len <= 16 && offset >= 8 && spaceLeft >= 16 {
        CopySixteen(buf, op - offset, op, len);
        top := op + 16;
      } else if spaceLeft >= len + MAX_INCREMENT_COPY_OVERFLOW {
        IncrementalCopyFastPath(buf, op - offset, op, len);
        top := op + len + MAX_INCREMENT_COPY_OVERFLOW;
      } else if spaceLeft < len {
        return false;
      } else {
        IncrementalCopy(buf, op - offset, op, len);
        top := op + len;
      }
      Untouched(buf[..], was, op, len, top, offset, limit);
      PeriodicIsCopy(buf[..], was, op, len, top, offset);
      assert buf[limit..] == buf[..][limit..] && old(buf[limit..]) == was[limit..];
      assert was[..op] == old(Output()) && buf[..op + len] == buf[..][..op + len];
      op := op + len;
      return true;
    }
  }

  /** The fast path for short copies from at least eight bytes back. */
  method CopySixteen(buf: array<Byte>, src: nat, op: nat, len: nat)
    requires src + 8 <= op && len <= 16 && op + 16 <= buf.Length
    modifies buf
    ensures Periodic(buf[..], old(buf[..]), op, op + len, op + 16, op - src)
  {
    ghost var was, d := buf[..], op - src;
    StartsPeriodic(was, op, op + 16, d);
    hide Periodic, Copied64;
    UnalignedCopy64(buf, src, op);
    CopyPeriods(was, was, op, op, op + 8, op + 16, d, 1, src, buf[..]);
    ghost var b := buf[..];
    UnalignedCopy64(buf, src + 8, op + 8);
    CopyPeriods(b, was, op, op + 8, op + 16, op + 16, d, 1, src + 8, buf[..]);
    ShorterPeriod(buf[..], was, op, op + 16, op + len, op + 16, d);
  }

  lemma Untouched(b: Bytes, was: Bytes, op: nat, len: nat, top: nat, d: nat, limit: nat)
    requires Periodic(b, was, op, op + len, top, d) && top <= limit <= |b|
    ensures b[limit..] == was[limit..]
  {
  }

  // ----- The decoding loop -----

  /** The stream from ip on, after `out`, cannot end with exactly `limit` bytes. */
  ghost predicate Fails(input: Bytes, ip: nat, out: Bytes, limit: nat)
    requires ip <= |input|
  {
    var r := Run(input[ip..], out);
    r.Some? ==> |r.value| != limit
  }

  /** The element at ip, if it is all there. */
  ghost function ElementAt(input: Bytes, ip: nat): Option<(Element, nat)>
    requires ip < |input|
  {
    ParseElement(input[ip..])
  }

  lemma RunStep(input: Bytes, ip: nat, out: Bytes, e: Element, n: nat)
    requires ip < |input| && ElementAt(input, ip) == Some((e, n)) && Apply(out, e).Some?
    ensures ip + n <= |input| && Run(input[ip..], out) == Run(input[ip + n..], Apply(out, e).value)
  {
    assert input[ip..][n..] == input[ip + n..];
  }

  lemma StopsHere(input: Bytes, ip: nat, out: Bytes, limit: nat)
    requires ip < |input|
    requires ElementAt(input, ip).None? ||
             (var next := Apply(out, ElementAt(input, ip).value.0); next.None? || |next.value| > limit)
    ensures Fails(input, ip, out, limit)
  {
    if ElementAt(input, ip).Some? {
      var (e, n) := ElementAt(input, ip).value;
      if Apply(out, e).Some? { RunStep(input, ip, out, e, n); }
    }
  }

  /** Tag fields as the loop reads them at ip. */
  lemma TagAt(input: Bytes, ip: nat)
    requires ip < |input|
    ensures var t := CharTable(input[ip]);
            && (|input| - ip < 1 + t.extra ==> ElementAt(input, ip).None?)
            && (|input| - ip >= 1 + t.extra && input[ip] % 4 != 0 ==>
                  ElementAt(input, ip) ==
                  Some((Copy(t.copyOffset + LoadLE(input[ip + 1..ip + 1 + t.extra]), t.len), 1 + t.extra)))
  {
    var s, t := input[ip..], CharTable(input[ip]);
    if |s| >= 1 + t.extra { assert s[1..1 + t.extra] == input[ip + 1..ip + 1 + t.extra]; }
  }

  lemma LiteralAt(input: Bytes, ip: nat, extra: nat, n: nat)
    requires ip < |input| && input[ip] % 4 == 0 && extra == CharTable(input[ip]).extra && |input| - ip >= 1 + extra
    requires n == if extra == 0 then input[ip] / 4 + 1 else (LoadLE(input[ip + 1..ip + 1 + extra]) + 1) % TWO_32
    ensures |input| - ip < 1 + extra + n ==> ElementAt(input, ip).None?
    ensures |input| - ip >= 1 + extra + n ==>
              ElementAt(input, ip) == Some((Literal(input[ip + 1 + extra..ip + 1 + extra + n]), 1 + extra + n))
  {
    var s := input[ip..];
    assert s[1..1 + extra] == input[ip + 1..ip + 1 + extra];
    assert LiteralLength(s) == n;
    if |s| >= 1 + extra + n { assert s[1 + extra..1 + extra + n] == input[ip + 1 + extra..ip + 1 + extra + n]; }
  }

  /** DecompressAllTags over a flat source, into an array. */
  method DecompressAllTags(input: Bytes, start: nat, w: ArrayWriter) returns (eof: bool)
    requires start <= |input| && w.Valid() && w.op == 0
    modifies w, w.buf
    ensures w.Valid() && w.Beyond() == old(w.Beyond())
    ensures if eof then Run(input[start..], []) == Some(w.Output()) else Fails(input, start, [], w.limit)
  {
    hide Run, Apply, ParseElement, ElementAt, LoadLE;
    var ip := start;
    ghost var goal := Run(input[start..], []);
    assert w.Output() == [];
    while true
      invariant start <= ip <= |input| && w.Valid() && w.Beyond() == old(w.Beyond())
      invariant goal == Run(input[ip..], w.Output())
      decreases |input| - ip
    {
      if |input| - ip < MAX_TAG_LENGTH {
        if ip == |input| {
          AtEnd(input, w.Output());
          return true;
        }
        TagAt(input, ip);
        if |input| - ip < 1 + CharTable(input[ip]).extra {
          StopsHere(input, ip, w.Output(), w.limit);
          return false;
        }
      }
      var ok, n;
      if input[ip] % 4 == 0 {
        ok, n := DecompressLiteral(input, ip, w);
      } else {
        ok, n := DecompressCopy(input, ip, w);
      }
      if !ok {
        return false;
      }
      ip := ip + n;
    }
  }

  lemma AtEnd(input: Bytes, out: Bytes)
    ensures Run(input[|input|..], out) == Some(out)
  {
  }

  /** One literal: copied 16 at a time if possible, else exactly. */
  method DecompressLiteral(input: Bytes, ip: nat, w: ArrayWriter) returns (ok: bool, n: nat)
    requires ip < |input| && input[ip] % 4 == 0 && |input| - ip >= 1 + CharTable(input[ip]).extra && w.Valid()
    modifies w, w.buf
    ensures w.Valid() && w.Beyond() == old(w.Beyond())
    ensures ok ==> 0 < n <= |input| - ip && old(Run(input[ip..], w.Output())) == Run(input[ip + n..], w.Output())
    ensures !ok ==> old(Fails(input, ip, w.Output(), w.limit))
  {
    hide Run, ParseElement, ElementAt, LoadLE;
    ghost var out := w.Output();
    var literalLength := input[ip] / 4 + 1;
    var extra := 0;
    ok := w.TryFastAppend(input, ip + 1, literalLength);
    if !ok {
      if literalLength >= 61 {
        extra := literalLength - 60;
        literalLength := (LoadLE(input[ip + 1..ip + 1 + extra]) + 1) % TWO_32;
      }
      LiteralAt(input, ip, extra, literalLength);
      var avail := |input| - (ip + 1 + extra);
      if avail < literalLength {
        StopsHere(input, ip, out, w.limit);
        var ignored := w.Append(input[ip + 1 + extra..]);
        return false, 0;
      }
      ok := w.Append(input[ip + 1 + extra..ip + 1 + extra + literalLength]);
    } else {
      LiteralAt(input, ip, extra, literalLength);
    }
    n := 1 + extra + literalLength;
    if ok {
      RunStep(input, ip, out, Literal(input[ip + 1 + extra..ip + n]), n);
    } else {
      StopsHere(input, ip, out, w.limit);
    }
  }

  method DecompressCopy(input: Bytes, ip: nat, w: ArrayWriter) returns (ok: bool, n: nat)
    requires ip < |input| && input[ip] % 4 != 0 && |input| - ip >= 1 + CharTable(input[ip]).extra && w.Valid()
    modifies w, w.buf
    ensures w.Valid() && w.Beyond() == old(w.Beyond())
    ensures ok ==> 0 < n <= |input| - ip && old(Run(input[ip..], w.Output())) == Run(input[ip + n..], w.Output())
    ensures !ok ==> old(Fails(input, ip, w.Output(), w.limit))
  {
    hide Run, ParseElement, ElementAt, LoadLE, CopyFromSelf;
    ghost var out := w.Output();
    TagAt(input, ip);
    var entry := CharTable(input[ip]);
    var offset := entry.copyOffset + LoadLE(input[ip + 1..ip + 1 + entry.extra]);
    n := 1 + entry.extra;
    ok := w.AppendFromSelf(offset, entry.len);
    if ok {
      RunStep(input, ip, out, Copy(offset, entry.len), n);
    } else {
      StopsHere(input, ip, out, w.limit);
    }
  }

  // ----- Header, and the two callers -----

  /** ReadUncompressedLength. */
  method ReadUncompressedLength(input: Bytes) returns (r: Option<(nat, nat)>)
    ensures r == GetVarint32(input, 0)
  {
    hide Prepend;
    var result: nat, shift: nat, power: nat := 0, 0, 1;
    HeaderStart(input);
    while true
      invariant 0 <= shift <= 5 && shift <= |input| && power == Pow128(shift)
      invariant GetVarint32(input, 0) == Prepend(result, shift, GetVarint32(input[shift..], shift))
      decreases 5 - shift
    {
      HeaderStep(input, shift, result);
      if shift == 5 || shift == |input| {
        return None;
      }
      var c := input[shift];
      result := (result + (c % 128) * power) % TWO_32;
      if c < 128 {
        return Some((result, shift + 1));
      }
      shift, power := shift + 1, 128 * power;
    }
  }

  lemma HeaderStart(input: Bytes)
    ensures GetVarint32(input, 0) == Prepend(0, 0, GetVarint32(input[0..], 0))
  {
    hide GetVarint32;
    assert input[0..] == input;
    HeaderBound(input, 0);
  }

  lemma HeaderBound(input: Bytes, shift: nat)
    requires shift <= 5
    ensures GetVarint32(input, shift).Some? ==> GetVarint32(input, shift).value.0 < TWO_32
  {
  }

  lemma HeaderStep(input: Bytes, shift: nat, result: nat)
    requires shift <= 5 && shift <= |input|
    ensures var all := Prepend(result, shift, GetVarint32(input[shift..], shift));
            if shift == 5 || shift == |input| then all == None
            else
              var c := input[shift];
              var bits := (result + (c % 128) * Pow128(shift)) % TWO_32;
              all == if c < 128 then Some((bits, shift + 1))
                     else Prepend(bits, shift + 1, GetVarint32(input[shift + 1..], shift + 1))
  {
    if shift < 5 && shift < |input| {
      var s, c := input[shift..], input[shift];
      assert s[0] == c && s[1..] == input[shift + 1..];
      var x := (c % 128) * Pow128(shift);
      if c < 128 {
        ModSum(result, x, 0);
      } else {
        var rest := GetVarint32(s[1..], shift + 1);
        if rest.Some? { ModSum(result, x, rest.value.0); }
      }
    }
  }

  lemma ModSum(a: nat, b: nat, c: nat)
    ensures (a + (b + c) % TWO_32) % TWO_32 == ((a + b) % TWO_32 + c) % TWO_32 == (a + b + c) % TWO_32
  {
  }

  /** Bits read so far in front of what the rest of the header gives. */
  function Prepend(result: nat, n: nat, rest: Option<(nat, nat)>): Option<(nat, nat)> {
    if rest.None? then None else Some(((result + rest.value.0) % TWO_32, n + rest.value.1))
  }

  /** RawUncompress on every byte string: the over-copying decoder succeeds exactly when the
      byte-at-a-time meaning does, with the same bytes, touching nothing past the length. */
  method RawUncompress(input: Bytes, uncompressed: array<Byte>) returns (ok: bool)
    requires GetVarint32(input, 0).Some? ==> GetVarint32(input, 0).value.0 <= uncompressed.Length
    modifies uncompressed
    ensures ok <==> Uncompress(input).Some?
    ensures ok ==> uncompressed[..GetVarint32(input, 0).value.0] == Uncompress(input).value
    ensures GetVarint32(input, 0).Some? ==>
              var n := GetVarint32(input, 0).value.0; uncompressed[n..] == old(uncompressed[n..])
    ensures GetVarint32(input, 0).None? ==> uncompressed[..] == old(uncompressed[..])
  {
    var h := ReadUncompressedLength(input);
    if h.None? {
      return false;
    }
    var w := new ArrayWriter(uncompressed, h.value.0);
    var eof := DecompressAllTags(input, h.value.1, w);
    ok := eof && w.op == w.limit;
  }

  /** SnappyDecompressionValidator: counts what a writer would have produced. */
  class Validator {
    const expected: nat
    var produced: nat

    constructor (expected: nat)
      ensures this.expected == expected && produced == 0
    {
      this.expected, this.produced := expected, 0;
    }

    method Append(len: nat) returns (ok: bool)
      modifies this
      ensures produced == old(produced) + len
      ensures ok <==> produced <= expected
    {
      produced := produced + len;
      ok := produced <= expected;
    }

    method AppendFromSelf(offset: nat, len: nat) returns (ok: bool)
      modifies this
      ensures ok <==> 1 <= offset <= old(produced) && old(produced) + len <= expected
      ensures ok ==> produced == old(produced) + len
    {
      if offset == 0 || produced < offset {
        return false;
      }
      produced := produced + len;
      ok := produced <= expected;
    }
  }

  /** One element through the validator; `out` is what a writer would hold. */
  method ValidateElement(input: Bytes, ip: nat, w: Validator, ghost out: Bytes) returns (ok: bool, n: nat, ghost next: Bytes)
    requires ip < |input| && |input| - ip >= 1 + CharTable(input[ip]).extra && w.produced == |out| <= w.expected
    modifies w
    ensures ok ==> 0 < n <= |input| - ip && w.produced == |next| <= w.expected
    ensures ok ==> Run(input[ip..], out) == Run(input[ip + n..], next)
    ensures !ok ==> Fails(input, ip, out, w.expected)
  {
    hide Run, ParseElement, ElementAt, LoadLE, CopyFromSelf;
    next := out;
    var entry := CharTable(input[ip]);
    ghost var e;
    if input[ip] % 4 == 0 {
      var literalLength := if entry.extra == 0 then entry.len
                           else (LoadLE(input[ip + 1..ip + 1 + entry.extra]) + 1) % TWO_32;
      n := 1 + entry.extra + literalLength;
      LiteralAt(input, ip, entry.extra, literalLength);
      if |input| - ip < n {
        StopsHere(input, ip, out, w.expected);
        var ignored := w.Append(|input| - (ip + 1 + entry.extra));
        return false, 0, out;
      }
      e := Literal(input[ip + 1 + entry.extra..ip + n]);
      ok := w.Append(literalLength);
    } else {
      TagAt(input, ip);
      var offset := entry.copyOffset + LoadLE(input[ip + 1..ip + 1 + entry.extra]);
      n := 1 + entry.extra;
      e := Copy(offset, entry.len);
      ok := w.AppendFromSelf(offset, entry.len);
    }
    if ok {
      next := Apply(out, e).value;
      RunStep(input, ip, out, e, n);
    } else {
      StopsHere(input, ip, out, w.expected);
    }
  }

  /** IsValidCompressedBuffer accepts exactly what RawUncompress accepts. */
  method IsValidCompressedBuffer(input: Bytes) returns (ok: bool)
    ensures ok <==> Uncompress(input).Some?
  {
    var h := ReadUncompressedLength(input);
    if h.None? {
      return false;
    }
    var w := new Validator(h.value.0);
    var ip := h.value.1;
    ghost var out: Bytes := [];
    hide Run, CopyFromSelf, ParseElement, ElementAt;
    while true
      invariant h.value.1 <= ip <= |input| && w.produced == |out| <= w.expected == h.value.0
      invariant Run(input[h.value.1..], []) == Run(input[ip..], out)
      decreases |input| - ip
    {
      if |input| - ip < MAX_TAG_LENGTH {
        if ip == |input| {
          AtEnd(input, out);
          return w.produced == w.expected;
        }
        TagAt(input, ip);
        if |input| - ip < 1 + CharTable(input[ip]).extra {
          StopsHere(input, ip, out, w.expected);
          return false;
        }
      }
      var valid, n;
      valid, n, out := ValidateElement(input, ip, w, out);
      if !valid {
        return false;
      }
      ip := ip + n;
    }
  }
}
