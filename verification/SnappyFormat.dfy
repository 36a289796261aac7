/** The Snappy byte format: varint header, tagged elements, and the meaning of a tag
    stream as a byte-at-a-time decoder gives it. */
module SnappyFormat {

  import opened Wrappers
  import opened Coding

  /** A literal run, or a copy from `offset` bytes back. */
  datatype Element = Literal(bytes: Bytes) | Copy(offset: nat, len: nat)

  // ----- Tags -----

  /** The fields of char_table: extra bytes after the tag, length, offset high bits. */
  datatype TagEntry = TagEntry(extra: nat, len: nat, copyOffset: nat)

  /** char_table, by the rule that ComputeTable checks it against. */
  function CharTable(c: Byte): (t: TagEntry)
    ensures t.extra <= 4 && 1 <= t.len <= 64
  {
    if c % 4 == 0 then
      if c / 4 < 60 then TagEntry(0, c / 4 + 1, 0) else TagEntry(c / 4 - 59, 1, 0)
    else if c % 4 == 1 then
      TagEntry(1, 4 + c / 4 % 8, c / 32 * 256)
    else if c % 4 == 2 then
      TagEntry(2, c / 4 + 1, 0)
    else
      TagEntry(4, c / 4 + 1, 0)
  }

  /** Length of a literal: in the tag, or in 1..4 bytes after it (32-bit arithmetic). */
  function LiteralLength(s: Bytes): (n: nat)
    requires s != [] && s[0] % 4 == 0 && |s| > CharTable(s[0]).extra
  {
    var t := CharTable(s[0]);
    if t.extra == 0 then t.len else (LoadLE(s[1..1 + t.extra]) + 1) % TWO_32
  }

  /** The element at the front of s and the bytes it takes, if it is all there. */
  function ParseElement(s: Bytes): (r: Option<(Element, nat)>)
    requires s != []
    ensures r.Some? ==> 0 < r.value.1 <= |s|
  {
    var t := CharTable(s[0]);
    if |s| < 1 + t.extra then None
    else if s[0] % 4 == 0 then
      var n := LiteralLength(s);
      if |s| < 1 + t.extra + n then None
      else Some((Literal(s[1 + t.extra..1 + t.extra + n]), 1 + t.extra + n))
    else
      Some((Copy(t.copyOffset + LoadLE(s[1..1 + t.extra]), t.len), 1 + t.extra))
  }

  /** Append `len` bytes one at a time, each read `offset` back in what is there by then. */
  function CopyFromSelf(out: Bytes, offset: nat, len: nat): (r: Bytes)
    requires 1 <= offset <= |out|
    ensures |r| == |out| + len && r[..|out|] == out
    ensures forall i :: |out| <= i < |r| ==> r[i] == r[i - offset]
    decreases len
  {
    if len == 0 then out
    else
      var r := CopyFromSelf(out + [out[|out| - offset]], offset, len - 1);
      assert r[..|out| + 1] == out + [out[|out| - offset]];
      assert r[..|out|] == r[..|out| + 1][..|out|];
      assert r[|out|] == r[..|out| + 1][|out|];
      assert r[|out| - offset] == r[..|out|][|out| - offset];
      r
  }

  /** A periodic extension is determined by its prefix, offset and length. */
  lemma CopyIsPeriodic(out: Bytes, offset: nat, len: nat, r: Bytes)
    requires 1 <= offset <= |out| && |r| == |out| + len && r[..|out|] == out
    requires forall i :: |out| <= i < |r| ==> r[i] == r[i - offset]
    ensures r == CopyFromSelf(out, offset, len)
  {
    var t := CopyFromSelf(out, offset, len);
    var n := |out|;
    assert forall i :: 0 <= i < n ==> r[i] == out[i] && t[i] == out[i] by {
      assert forall i :: 0 <= i < n ==> r[i] == r[..n][i] && t[i] == t[..n][i];
    }
    while n < |r|
      invariant |out| <= n <= |r|
      invariant forall i :: 0 <= i < n ==> r[i] == t[i]
    {
      assert r[n] == r[n - offset] && t[n] == t[n - offset];
      n := n + 1;
    }
  }

  /** What one element appends; a copy may not reach before the start. */
  function Apply(out: Bytes, e: Element): (r: Option<Bytes>)
    ensures r.Some? ==> |r.value| >= |out|
  {
    match e
    case Literal(b) => Some(out + b)
    case Copy(offset, len) => if 1 <= offset <= |out| then Some(CopyFromSelf(out, offset, len)) else None
  }

  /** The meaning of a tag stream after `out`: what it has appended when it ends. */
  function Run(s: Bytes, out: Bytes): (r: Option<Bytes>)
    ensures r.Some? ==> |r.value| >= |out|
    decreases |s|
  {
    if s == [] then Some(out)
    else
      var p := ParseElement(s);
      if p.None? then None
      else
        var next := Apply(out, p.value.0);
        if next.None? then None else Run(s[p.value.1..], next.value)
  }

  // ----- The length header -----

  /** Uncompression as specified: the header's length must be exactly what the tags produce. */
  function Uncompress(s: Bytes): (r: Option<Bytes>) {
    var h := GetVarint32(s, 0);
    if h.None? then None
    else
      var out := Run(s[h.value.1..], []);
      if out.Some? && |out.value| == h.value.0 then out else None
  }

  /** Streams compose: the meaning of a + b is that of b after a. */
  lemma {:induction false} RunAppend(a: Bytes, b: Bytes, out: Bytes)
    requires Run(a, out).Some?
    ensures Run(a + b, out) == Run(b, Run(a, out).value)
    decreases |a|
  {
    if a == [] {
      assert a + b == b;
    } else {
      ParseAppend(a, b);
      var p := ParseElement(a).value;
      assert (a + b)[p.1..] == a[p.1..] + b;
      RunAppend(a[p.1..], b, Apply(out, p.0).value);
    }
  }

  lemma ParseAppend(a: Bytes, b: Bytes)
    requires a != [] && ParseElement(a).Some?
    ensures ParseElement(a + b) == ParseElement(a)
  {
    var t := CharTable(a[0]);
    assert (a + b)[1..1 + t.extra] == a[1..1 + t.extra];
    if a[0] % 4 == 0 {
      var n := LiteralLength(a);
      assert (a + b)[1 + t.extra..1 + t.extra + n] == a[1 + t.extra..1 + t.extra + n];
    }
  }
}
