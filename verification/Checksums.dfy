/** LevelDB's use of CRC-32C: extending a checksum, and masking one before it is stored. */
module Checksums {
  import opened Coding
  import Crc32c

  const MASK_DELTA: nat := 0xa282ead8

  type Uint32 = x: int | 0 <= x < 0x1_0000_0000

  /** The number whose bits are w, least significant first. */
  function NumberOf(w: seq<bool>): nat {
    if w == [] then 0 else (if w[0] then 1 else 0) + 2 * NumberOf(w[1..])
  }

  lemma {:induction false} NumberBelow(w: seq<bool>)
    ensures NumberOf(w) < Pow2(|w|)
  {
    if w != [] { NumberBelow(w[1..]); }
  }

  lemma {:induction false} BitOfNumber(w: seq<bool>, i: nat)
    requires i < |w|
    ensures Crc32c.Bit(NumberOf(w), i) == w[i]
    decreases i
  {
    if i > 0 {
      BitOfNumber(w[1..], i - 1);
      assert NumberOf(w) / 2 == NumberOf(w[1..]);
    }
  }

  lemma BitsOfNumber(w: Crc32c.Word)
    ensures Crc32c.Bits(NumberOf(w)) == w
  {
    forall i | 0 <= i < 32 ensures Crc32c.Bits(NumberOf(w))[i] == w[i] {
      BitOfNumber(w, i);
    }
  }

  function Stream(s: Bytes): (r: Crc32c.Bytes)
    ensures |r| == |s|
  {
    seq(|s|, i requires 0 <= i < |s| => Crc32c.Bits(s[i])[..8])
  }

  /** The checksum of what crc already covers followed by s. */
  function Extend(crc: Uint32, s: Bytes): Uint32 {
    var w := Crc32c.Crc(Crc32c.Bits(crc), Stream(s));
    assert NumberOf(w) < 0x1_0000_0000 by { NumberBelow(w); PowerIs(); }
    NumberOf(w)
  }

  lemma PowerIs()
    ensures Pow2(32) == 0x1_0000_0000
  {
    assert Pow2(8) == 256;
    assert Pow2(16) == 65536;
    assert Pow2(24) == 16777216;
  }

  function Value(s: Bytes): Uint32 {
    Extend(0, s)
  }

  lemma ExtendChains(crc: Uint32, a: Bytes, b: Bytes)
    ensures Extend(Extend(crc, a), b) == Extend(crc, a + b)
  {
    hide Crc32c.Crc, Crc32c.Bits, NumberOf;
    BitsOfNumber(Crc32c.Crc(Crc32c.Bits(crc), Stream(a)));
    Crc32c.AppendsChain(Crc32c.Bits(crc), Stream(a), Stream(b));
    assert Stream(a + b) == Stream(a) + Stream(b);
  }

  /** Rotate right by 15 bits and add a constant. */
  function Mask(crc: Uint32): Uint32 {
    (crc / 0x8000 + crc % 0x8000 * 0x2_0000 + MASK_DELTA) % TWO_32
  }

  function Unmask(masked: Uint32): Uint32 {
    var rot := (masked - MASK_DELTA) % TWO_32;
    rot / 0x2_0000 + rot % 0x2_0000 * 0x8000
  }

  lemma UnmaskMask(crc: Uint32)
    ensures Unmask(Mask(crc)) == crc
  {
    var q, r := crc / 0x8000, crc % 0x8000;
    AddThenSubtract(q + r * 0x2_0000);
    SplitAgain(q, r);
  }

  lemma MaskUnmask(masked: Uint32)
    ensures Mask(Unmask(masked)) == masked
  {
    var rot := (masked - MASK_DELTA) % TWO_32;
    var q, r := rot / 0x2_0000, rot % 0x2_0000;
    SplitBack(q, r);
    assert (rot + MASK_DELTA) % TWO_32 == masked;
  }

  lemma SplitBack(q: nat, r: nat)
    requires q < 0x8000 && r < 0x2_0000
    ensures (q + r * 0x8000) / 0x8000 == r && (q + r * 0x8000) % 0x8000 == q
  {
  }

  lemma AddThenSubtract(rot: Uint32)
    ensures ((rot + MASK_DELTA) % TWO_32 - MASK_DELTA) % TWO_32 == rot
  {
  }

  lemma SplitAgain(q: nat, r: nat)
    requires q < 0x2_0000 && r < 0x8000
    ensures (q + r * 0x2_0000) / 0x2_0000 == r && (q + r * 0x2_0000) % 0x2_0000 == q
  {
  }
}
