/** Byte strings and the integer encodings that LevelDB and Snappy share. */
module Coding {
  import opened Wrappers

  type Byte = x: int | 0 <= x < 256

  type Bytes = seq<Byte>

  const TWO_32: nat := 0x1_0000_0000

  function Pow2(n: nat): nat {
    if n == 0 then 1 else 2 * Pow2(n - 1)
  }

  function Pow256(n: nat): nat {
    if n == 0 then 1 else 256 * Pow256(n - 1)
  }

  /** LittleEndian load of all bytes of s. */
  function LoadLE(s: Bytes): nat {
    if s == [] then 0 else s[0] + 256 * LoadLE(s[1..])
  }

  lemma {:induction false} LoadBelow(s: Bytes)
    ensures LoadLE(s) < Pow256(|s|)
  {
    if s != [] { LoadBelow(s[1..]); }
  }

  /** A slice of a slice. */
  lemma SliceOfSlice(f: Bytes, a: nat, b: nat, i: nat, j: nat)
    requires i <= j <= b - a && b <= |f|
    ensures f[a..b][i..j] == f[a + i..a + j]
  {
    forall k | 0 <= k < j - i ensures f[a..b][i..j][k] == f[a + i..a + j][k] {}
  }

  /** The low n bytes of v, low byte first. */
  function StoreLE(v: nat, n: nat): (s: Bytes)
    ensures |s| == n
  {
    if n == 0 then [] else [v % 256] + StoreLE(v / 256, n - 1)
  }

  lemma {:induction false} LoadStored(v: nat, n: nat)
    requires v < Pow256(n)
    ensures LoadLE(StoreLE(v, n)) == v
    decreases n
  {
    if n > 0 {
      LoadStored(v / 256, n - 1);
      assert StoreLE(v, n)[1..] == StoreLE(v / 256, n - 1);
    }
  }

  lemma {:induction false} StoreLoaded(s: Bytes)
    ensures StoreLE(LoadLE(s), |s|) == s
  {
    if s != [] {
      StoreLoaded(s[1..]);
      assert LoadLE(s) / 256 == LoadLE(s[1..]) && LoadLE(s) % 256 == s[0];
    }
  }

  // ----- Varints -----

  /** At most five bytes of seven bits, low first, kept modulo 2^32. */
  function GetVarint32(s: Bytes, shift: nat): (r: Option<(nat, nat)>)
    requires shift <= 5
    ensures r.Some? ==> r.value.1 <= |s|
    decreases 5 - shift
  {
    if shift == 5 || s == [] then None
    else if s[0] < 128 then Some((s[0] * Pow128(shift) % TWO_32, 1))
    else
      var rest := GetVarint32(s[1..], shift + 1);
      if rest.None? then None
      else Some((((s[0] % 128) * Pow128(shift) + rest.value.0) % TWO_32, 1 + rest.value.1))
  }

  function Pow128(n: nat): nat {
    if n == 0 then 1 else 128 * Pow128(n - 1)
  }

  /** One to five bytes, seven bits each, low first. */
  function EncodeVarint32(v: nat): (s: Bytes)
    requires v < TWO_32
    ensures 1 <= |s| <= 5
  {
    if v < 0x80 then [v]
    else if v < 0x4000 then [v % 128 + 128, v / 0x80]
    else if v < 0x20_0000 then [v % 128 + 128, v / 0x80 % 128 + 128, v / 0x4000]
    else if v < 0x1000_0000 then [v % 128 + 128, v / 0x80 % 128 + 128, v / 0x4000 % 128 + 128, v / 0x20_0000]
    else [v % 128 + 128, v / 0x80 % 128 + 128, v / 0x4000 % 128 + 128, v / 0x20_0000 % 128 + 128, v / 0x1000_0000]
  }

  /** The same digits by recursion. */
  function Varint(v: nat): (s: Bytes)
    decreases v
  {
    if v < 128 then [v] else [v % 128 + 128] + Varint(v / 128)
  }

  lemma EncodeVarint32IsVarint(v: nat)
    requires v < TWO_32
    ensures EncodeVarint32(v) == Varint(v)
  {
    if v >= 0x80 {
      var a := v / 0x80;
      assert Varint(v) == [v % 128 + 128] + Varint(a);
      if a >= 0x80 {
        var b := a / 0x80;
        assert b == v / 0x4000 && Varint(a) == [a % 128 + 128] + Varint(b);
        if b >= 0x80 {
          var c := b / 0x80;
          assert c == v / 0x20_0000 && Varint(b) == [b % 128 + 128] + Varint(c);
          if c >= 0x80 {
            var d := c / 0x80;
            assert d == v / 0x1000_0000 && Varint(c) == [c % 128 + 128] + Varint(d);
          }
        }
      }
    }
  }

  /** Reading back what was written, whatever follows it. */
  lemma {:induction false} ReadVarint(v: nat, shift: nat, rest: Bytes)
    requires shift < 5 && v * Pow128(shift) < TWO_32
    ensures GetVarint32(Varint(v) + rest, shift) == Some((v * Pow128(shift), |Varint(v)|))
    decreases v
  {
    hide GetVarint32, Pow128;
    var s := Varint(v) + rest;
    if v < 128 {
      LastDigit(s, shift, v);
    } else {
      assert s[0] == v % 128 + 128 && s[1..] == Varint(v / 128) + rest;
      SplitDigit(v, Pow128(shift));
      LastShift(v, shift);
      OnePowerMore(shift);
      ReadVarint(v / 128, shift + 1, rest);
      FirstDigit(s, shift, v / 128 * (128 * Pow128(shift)), |Varint(v / 128)|);
    }
  }

  /** The number that a string of seven-bit digits stands for, low digit first. */
  function DigitSum(s: Bytes): nat {
    if s == [] then 0 else s[0] % 128 + 128 * DigitSum(s[1..])
  }

  /** Every byte but the last says that another follows. */
  predicate IsVarint(s: Bytes) {
    s != [] && s[|s| - 1] < 128 && forall i :: 0 <= i < |s| - 1 ==> s[i] >= 128
  }

  /** What is read is the varint in front, modulo 2^32. */
  lemma {:induction false} ReadIsVarint(s: Bytes, shift: nat)
    requires shift <= 5 && GetVarint32(s, shift).Some?
    ensures var (v, n) := GetVarint32(s, shift).value;
            && n + shift <= 5 && IsVarint(s[..n])
            && v == DigitSum(s[..n]) * Pow128(shift) % TWO_32
    decreases 5 - shift
  {
    hide Pow128;
    if s[0] < 128 {
      assert s[..1] == [s[0]] && DigitSum([s[0]]) == s[0];
    } else {
      ReadIsVarint(s[1..], shift + 1);
      var (v, n) := GetVarint32(s[1..], shift + 1).value;
      assert s[..n + 1][1..] == s[1..][..n];
      IsVarintStep(s[..n + 1]);
      OnePowerMore(shift);
      AddDigit(s[0] % 128, DigitSum(s[1..][..n]), Pow128(shift));
    }
  }

  /** A varint in front of at most five bytes is read. */
  lemma {:induction false} VarintIsRead(s: Bytes, shift: nat, n: nat)
    requires n <= |s| && n + shift <= 5 && IsVarint(s[..n])
    ensures GetVarint32(s, shift).Some? && GetVarint32(s, shift).value.1 == n
    decreases n
  {
    assert s[..n][0] == s[0];
    if n > 1 {
      assert s[..n][1..] == s[1..][..n - 1];
      assert s[0] >= 128;
      IsVarintStep(s[..n]);
      VarintIsRead(s[1..], shift + 1, n - 1);
    } else {
      assert s[..n][n - 1] == s[0];
    }
  }

  /** What reading a varint means on any bytes. */
  lemma VarintIff(s: Bytes, v: nat, n: nat)
    ensures GetVarint32(s, 0) == Some((v, n)) <==>
              n <= |s| && n <= 5 && IsVarint(s[..n]) && v == DigitSum(s[..n]) % TWO_32
  {
    hide GetVarint32, DigitSum, IsVarint;
    assert Pow128(0) == 1;
    if GetVarint32(s, 0).Some? { ReadIsVarint(s, 0); }
    if n <= |s| && n <= 5 && IsVarint(s[..n]) { VarintIsRead(s, 0, n); }
  }

  lemma AddDigit(d: nat, rest: nat, p: nat)
    ensures (d * p + rest * (128 * p) % TWO_32) % TWO_32 == (d + 128 * rest) * p % TWO_32
  {
    assert (d + 128 * rest) * p == d * p + rest * (128 * p);
    ModInside(d * p, rest * (128 * p));
  }

  lemma ModInside(a: nat, b: nat)
    ensures (a + b % TWO_32) % TWO_32 == (a + b) % TWO_32
  {
    var q := b / TWO_32;
    assert b == q * TWO_32 + b % TWO_32;
  }

  lemma IsVarintStep(s: Bytes)
    requires |s| > 1 && s[0] >= 128
    ensures IsVarint(s) <==> IsVarint(s[1..])
  {
    assert forall i :: 0 < i < |s| ==> s[i] == s[1..][i - 1];
  }

  lemma OnePowerMore(n: nat)
    ensures Pow128(n + 1) == 128 * Pow128(n)
  {
  }

  lemma LastDigit(s: Bytes, shift: nat, v: nat)
    requires shift < 5 && s != [] && s[0] == v < 128 && v * Pow128(shift) < TWO_32
    ensures GetVarint32(s, shift) == Some((v * Pow128(shift), 1))
  {
  }

  lemma FirstDigit(s: Bytes, shift: nat, x: nat, n: nat)
    requires shift < 4 && s != [] && s[0] >= 128
    requires GetVarint32(s[1..], shift + 1) == Some((x, n))
    requires (s[0] % 128) * Pow128(shift) + x < TWO_32
    ensures GetVarint32(s, shift) == Some(((s[0] % 128) * Pow128(shift) + x, n + 1))
  {
  }

  lemma SplitDigit(v: nat, p: nat)
    ensures v * p == (v % 128) * p + v / 128 * (128 * p)
    ensures v / 128 * (128 * p) <= v * p
  {
    var q, r := v / 128, v % 128;
    assert v == 128 * q + r;
    assert (128 * q + r) * p == 128 * q * p + r * p;
    assert q * (128 * p) == 128 * q * p;
  }

  lemma FourDigits()
    ensures Pow128(4) == 0x1000_0000
  {
    assert Pow128(2) == 16384;
  }

  lemma LastShift(v: nat, shift: nat)
    requires shift < 5 && v >= 128 && v * Pow128(shift) < TWO_32
    ensures shift < 4
  {
    if shift == 4 { FourDigits(); }
  }

  // ----- Fixed-width integers -----

  function EncodeFixed32(v: nat): (s: Bytes)
    requires v < TWO_32
    ensures |s| == 4 && LoadLE(s) == v
  {
    var s := [v % 256, v / 256 % 256, v / 65536 % 256, v / 16777216];
    assert LoadLE(s) == v by { LoadFour(v % 256, v / 256 % 256, v / 65536 % 256, v / 16777216); FourBytes(v); }
    s
  }

  lemma FourBytes(v: nat)
    ensures v == v % 256 + 256 * (v / 256 % 256) + 65536 * (v / 65536 % 256) + 16777216 * (v / 16777216)
  {
    var a := v / 256;
    var b := a / 256;
    var c := b / 256;
    assert v / 65536 == b && v / 16777216 == c;
  }

  lemma LoadFour(a: Byte, b: Byte, c: Byte, d: Byte)
    ensures LoadLE([a, b, c, d]) == a + 256 * b + 65536 * c + 16777216 * d
  {
    assert [a, b, c, d][1..] == [b, c, d];
    assert [b, c, d][1..] == [c, d];
    assert [c, d][1..] == [d];
    assert [d][1..] == [];
    assert LoadLE([d]) == d;
    assert LoadLE([c, d]) == c + 256 * d;
  }
}
