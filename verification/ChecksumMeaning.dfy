/** What LevelDB's checksums are: the loop that computes them, the remainder they stand for, and the
    damage they always show. */
module ChecksumMeaning {
  import opened Coding
  import opened Checksums
  import opened CrcPolynomials

  /** The checksum of s after crc, as a remainder of polynomials. */
  lemma ExtendIsRemainder(crc: Uint32, s: Bytes)
    ensures IsRemainder(Dividend(Crc32c.Not(Crc32c.Bits(crc)), Stream(s)),
                        PolyOf(Crc32c.Not(Crc32c.Bits(Extend(crc, s)))))
  {
    hide IsRemainder, Dividend, PolyOf, Crc32c.Not, Crc32c.Bits, Crc32c.Crc, NumberOf;
    CrcIsRemainder(Crc32c.Bits(crc), Stream(s));
    BitsOfNumber(Crc32c.Crc(Crc32c.Bits(crc), Stream(s)));
  }

  // ----- The loop -----

  /** One byte through the first table. */
  method Step1(table: seq<Crc32c.Row>, l: Crc32c.Word, b: Crc32c.Byte) returns (r: Crc32c.Word)
    requires Crc32c.SlicingTable(table) && |table| == 4
    ensures r == Crc32c.Raw(l, [b])
  {
    hide Crc32c.SlicingTable, Crc32c.Raw, Crc32c.Xor, Crc32c.XorByte, Crc32c.ByteOf, Crc32c.Down8, Crc32c.Shift8, Crc32c.Place;
    Crc32c.OneByte(table, l, b);
    RawOne(l, b);
    r := Crc32c.Xor(table[0](Crc32c.XorByte(Crc32c.ByteOf(l, 0), b)), Crc32c.Down8(l));
  }

  lemma RawOne(l: Crc32c.Word, b: Crc32c.Byte)
    ensures Crc32c.Raw(l, [b]) == Crc32c.Shift8(Crc32c.Xor(l, Crc32c.Place(b, 0)))
  {
    hide Crc32c.Shift8, Crc32c.Xor, Crc32c.Place;
    assert [b][1..] == [];
  }

  /** Four bytes through the four tables. */
  method Step4(table: seq<Crc32c.Row>, l: Crc32c.Word, s: Crc32c.Bytes) returns (r: Crc32c.Word)
    requires Crc32c.SlicingTable(table) && |table| == 4 == |s|
    ensures r == Crc32c.Raw(l, s)
  {
    hide Crc32c.SlicingTable, Crc32c.Raw, Crc32c.Slices, Crc32c.Mix;
    Crc32c.SliceWithRegister(table, l, s);
    r := Crc32c.Slices(table, Crc32c.Mix(l, s));
  }

  /** crc32c::Extend: single bytes up to an aligned address, sixteen and then four at a time, the rest. */
  method ExtendByTables(table: seq<Crc32c.Row>, address: nat, crc: Uint32, s: Bytes) returns (r: Uint32)
    requires Crc32c.SlicingTable(table) && |table| == 4
    ensures r == Extend(crc, s)
  {
    hide Crc32c.SlicingTable, Crc32c.Raw, Crc32c.Not, Crc32c.Bits, Stream, NumberOf;
    var input := Stream(s);
    var start := Crc32c.Not(Crc32c.Bits(crc));
    var l, p := start, 0;
    Crc32c.RawEmpty(start);
    assert input[..0] == [];
    var x := (address + 3) / 4 * 4 - address;
    if x <= |s| {
      while p != x
        invariant 0 <= p <= x && l == Crc32c.Raw(start, input[..p])
      {
        Crc32c.RawRange(start, input, p, p + 1);
        assert input[p..p + 1] == [input[p]];
        l := Step1(table, l, input[p]);
        p := p + 1;
      }
    }
    while |s| - p >= 16
      invariant 0 <= p <= |s| && l == Crc32c.Raw(start, input[..p])
    {
      var from := p;
      for i := 0 to 4
        invariant p == from + 4 * i && l == Crc32c.Raw(start, input[..p])
      {
        Crc32c.RawRange(start, input, p, p + 4);
        l := Step4(table, l, input[p..p + 4]);
        p := p + 4;
      }
    }
    while |s| - p >= 4
      invariant 0 <= p <= |s| && l == Crc32c.Raw(start, input[..p])
    {
      Crc32c.RawRange(start, input, p, p + 4);
      l := Step4(table, l, input[p..p + 4]);
      p := p + 4;
    }
    while p != |s|
      invariant 0 <= p <= |s| && l == Crc32c.Raw(start, input[..p])
    {
      Crc32c.RawRange(start, input, p, p + 1);
      assert input[p..p + 1] == [input[p]];
      l := Step1(table, l, input[p]);
      p := p + 1;
    }
    assert input[..p] == input;
    r := NumberOfWord(Crc32c.Not(l));
  }

  function NumberOfWord(w: Crc32c.Word): (r: Uint32)
    ensures r == NumberOf(w)
  {
    NumberBelow(w);
    PowerIs();
    NumberOf(w)
  }

  // ----- Damage -----

  /** Two strings of one length that differ, but only in four consecutive bytes from j on. */
  ghost predicate Patched(s: Bytes, t: Bytes, j: nat) {
    |s| == |t| && s != t && forall i :: 0 <= i < |s| && s[i] != t[i] ==> j <= i < j + 4
  }

  lemma {:induction false} BitSent(s: Crc32c.Bytes, i: nat)
    requires i < 8 * |s|
    ensures Sent(s)[i] == s[i / 8][i % 8]
    decreases |s|
  {
    if i >= 8 {
      BitSent(s[1..], i - 8);
      assert Sent(s)[i] == Sent(s[1..])[i - 8];
    }
  }

  /** The bits of a byte determine it. */
  lemma SameByte(a: Byte, b: Byte)
    requires Crc32c.Bits(a)[..8] == Crc32c.Bits(b)[..8]
    ensures a == b
  {
    forall i | 0 <= i < 8 ensures Crc32c.Bit(a, i) == Crc32c.Bit(b, i) {
      assert Crc32c.Bits(a)[..8][i] == Crc32c.Bits(b)[..8][i];
    }
    assert Pow2(8) == 256;
    SameLowBits(a, b, 8);
  }

  lemma {:induction false} SameLowBits(a: nat, b: nat, n: nat)
    requires a < Pow2(n) && b < Pow2(n) && forall i :: 0 <= i < n ==> Crc32c.Bit(a, i) == Crc32c.Bit(b, i)
    ensures a == b
    decreases n
  {
    if n > 0 {
      assert Crc32c.Bit(a, 0) == Crc32c.Bit(b, 0);
      forall i | 0 <= i < n - 1 ensures Crc32c.Bit(a / 2, i) == Crc32c.Bit(b / 2, i) {
        assert Crc32c.Bit(a, i + 1) == Crc32c.Bit(b, i + 1);
      }
      SameLowBits(a / 2, b / 2, n - 1);
    }
  }

  lemma PatchIsBurst(s: Bytes, t: Bytes, j: nat)
    requires Patched(s, t, j)
    ensures Burst(Sent(Stream(s)), Sent(Stream(t)), 8 * j)
  {
    hide Crc32c.Bits, Sent;
    var a, b := Stream(s), Stream(t);
    forall i | 0 <= i < |Sent(a)| && Sent(a)[i] != Sent(b)[i] ensures 8 * j <= i < 8 * j + 32 {
      BitSent(a, i);
      BitSent(b, i);
      assert s[i / 8] != t[i / 8];
    }
    var i :| 0 <= i < |s| && s[i] != t[i];
    if a[i] == b[i] { SameByte(s[i], t[i]); }
    var k :| 0 <= k < 8 && a[i][k] != b[i][k];
    BitSent(a, 8 * i + k);
    BitSent(b, 8 * i + k);
  }

  /** Damage within four consecutive bytes always changes the checksum. */
  lemma PatchShows(crc: Uint32, s: Bytes, t: Bytes, j: nat)
    requires Patched(s, t, j)
    ensures Extend(crc, s) != Extend(crc, t)
  {
    hide Crc32c.Bits, Crc32c.Crc, Stream, Sent, NumberOf;
    PatchIsBurst(s, t, j);
    BurstIsDetected(Crc32c.Bits(crc), Stream(s), Stream(t), 8 * j);
    BitsOfNumber(Crc32c.Crc(Crc32c.Bits(crc), Stream(s)));
    BitsOfNumber(Crc32c.Crc(Crc32c.Bits(crc), Stream(t)));
  }
}
