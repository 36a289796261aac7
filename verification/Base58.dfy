/** Base58 text of a big number and back, with high zero bytes kept as leading ones. */
module Base58 {
  import opened Coding
  import opened BigNumbers

  const DIGITS: string := "123456789"

  const A_TO_H: string := "ABCDEFGH"

  const J_TO_N: string := "JKLMN"

  const P_TO_Z: string := "PQRSTUVWXYZ"

  const SMALL_A_TO_K: string := "abcdefghijk"

  const SMALL_M_TO_Z: string := "mnopqrstuvwxyz"

  const ALPHABET: string := DIGITS + A_TO_H + J_TO_N + P_TO_Z + SMALL_A_TO_K + SMALL_M_TO_Z

  /** The index that decoding computes for a character, in 8-bit arithmetic. */
  function AlphaIndex(c: char): Byte {
    var n := c as int;
    if n == 49 then 0
    else if 58 <= n < 73 then n - 56
    else if 73 <= n < 79 then n - 57
    else if 79 <= n < 91 then n - 58
    else if 91 <= n < 108 then n - 64
    else if 108 <= n < 128 then n - 65
    else (n - 49) % 256
  }

  lemma Numerals(d: nat)
    requires 0 <= d < 9
    ensures ALPHABET[d] as int == d + 49
  {
    assert ALPHABET[d] == DIGITS[d];
    assert DIGITS[0] == '1' && DIGITS[1] == '2' && DIGITS[2] == '3' && DIGITS[3] == '4';
    assert DIGITS[4] == '5' && DIGITS[5] == '6' && DIGITS[6] == '7' && DIGITS[7] == '8';
    assert DIGITS[8] == '9';
  }

  lemma AToH(d: nat)
    requires 9 <= d < 17
    ensures ALPHABET[d] as int == d + 56
  {
    assert ALPHABET[d] == A_TO_H[d - 9];
    assert A_TO_H[0] == 'A' && A_TO_H[1] == 'B' && A_TO_H[2] == 'C' && A_TO_H[3] == 'D';
    assert A_TO_H[4] == 'E' && A_TO_H[5] == 'F' && A_TO_H[6] == 'G' && A_TO_H[7] == 'H';
  }

  lemma JToN(d: nat)
    requires 17 <= d < 22
    ensures ALPHABET[d] as int == d + 57
  {
    assert ALPHABET[d] == J_TO_N[d - 17];
    assert J_TO_N[0] == 'J' && J_TO_N[1] == 'K' && J_TO_N[2] == 'L' && J_TO_N[3] == 'M';
    assert J_TO_N[4] == 'N';
  }

  lemma PToZ(d: nat)
    requires 22 <= d < 33
    ensures ALPHABET[d] as int == d + 58
  {
    assert ALPHABET[d] == P_TO_Z[d - 22];
    assert P_TO_Z[0] == 'P' && P_TO_Z[1] == 'Q' && P_TO_Z[2] == 'R' && P_TO_Z[3] == 'S';
    assert P_TO_Z[4] == 'T' && P_TO_Z[5] == 'U' && P_TO_Z[6] == 'V' && P_TO_Z[7] == 'W';
    assert P_TO_Z[8] == 'X' && P_TO_Z[9] == 'Y' && P_TO_Z[10] == 'Z';
  }

  lemma SmallAToK(d: nat)
    requires 33 <= d < 44
    ensures ALPHABET[d] as int == d + 64
  {
    assert ALPHABET[d] == SMALL_A_TO_K[d - 33];
    assert SMALL_A_TO_K[0] == 'a' && SMALL_A_TO_K[1] == 'b' && SMALL_A_TO_K[2] == 'c' && SMALL_A_TO_K[3] == 'd';
    assert SMALL_A_TO_K[4] == 'e' && SMALL_A_TO_K[5] == 'f' && SMALL_A_TO_K[6] == 'g' && SMALL_A_TO_K[7] == 'h';
    assert SMALL_A_TO_K[8] == 'i' && SMALL_A_TO_K[9] == 'j' && SMALL_A_TO_K[10] == 'k';
  }

  lemma SmallMToZ(d: nat)
    requires 44 <= d < 58
    ensures ALPHABET[d] as int == d + 65
  {
    assert ALPHABET[d] == SMALL_M_TO_Z[d - 44];
    assert SMALL_M_TO_Z[0] == 'm' && SMALL_M_TO_Z[1] == 'n' && SMALL_M_TO_Z[2] == 'o' && SMALL_M_TO_Z[3] == 'p';
    assert SMALL_M_TO_Z[4] == 'q' && SMALL_M_TO_Z[5] == 'r' && SMALL_M_TO_Z[6] == 's' && SMALL_M_TO_Z[7] == 't';
    assert SMALL_M_TO_Z[8] == 'u' && SMALL_M_TO_Z[9] == 'v' && SMALL_M_TO_Z[10] == 'w' && SMALL_M_TO_Z[11] == 'x';
    assert SMALL_M_TO_Z[12] == 'y' && SMALL_M_TO_Z[13] == 'z';
  }

  lemma AlphabetInverse(d: nat)
    requires d < 58
    ensures AlphaIndex(ALPHABET[d]) == d
    ensures ALPHABET[d] == '1' <==> d == 0
  {
    if d < 9 { Numerals(d); }
    else if d < 17 { AToH(d); }
    else if d < 22 { JToN(d); }
    else if d < 33 { PToZ(d); }
    else if d < 44 { SmallAToK(d); }
    else { SmallMToZ(d); }
  }

  // ----- What the text of a number is -----

  predicate IsDigits(ds: seq<nat>) {
    forall i :: 0 <= i < |ds| ==> ds[i] < 58
  }

  /** Base-58 digits, least significant first. */
  function DigitsOf(v: nat): (ds: seq<nat>)
    ensures ds != [] && IsDigits(ds)
  {
    if v < 58 then [v] else [v % 58] + DigitsOf(v / 58)
  }

  /** The digits that encoding produces: a number of several bytes always gets a second digit. */
  function EncodeDigits(s: Bytes): (ds: seq<nat>)
    ensures ds != [] && IsDigits(ds)
  {
    var v := LoadLE(s);
    if |s| > 1 then [v % 58] + DigitsOf(v / 58) else DigitsOf(v)
  }

  /** How many high bytes are zero. */
  function HighZeros(s: Bytes): (n: nat)
    ensures n <= |s| && forall i :: |s| - n <= i < |s| ==> s[i] == 0
    ensures n < |s| ==> s[|s| - n - 1] != 0
  {
    if s != [] && s[|s| - 1] == 0 then 1 + HighZeros(s[..|s| - 1]) else 0
  }

  function Ones(n: nat): (r: string)
    ensures |r| == n && forall i :: 0 <= i < n ==> r[i] == '1'
  {
    seq(n, i => '1')
  }

  function Chars(ds: seq<nat>): (r: string)
    requires IsDigits(ds)
    ensures |r| == |ds|
  {
    seq(|ds|, i requires 0 <= i < |ds| => ALPHABET[ds[i]])
  }

  function Reversed<T>(s: seq<T>): (r: seq<T>)
    ensures |r| == |s|
  {
    seq(|s|, i requires 0 <= i < |s| => s[|s| - 1 - i])
  }

  function Encoded(s: Bytes): string {
    Ones(HighZeros(s)) + Reversed(Chars(EncodeDigits(s)))
  }

  /** Normal numbers get exactly their digits. */
  lemma NormalDigits(s: Bytes)
    requires Normal(s)
    ensures EncodeDigits(s) == DigitsOf(LoadLE(s))
  {
    if |s| > 1 {
      NormalAtLeast(s);
      PowersGrow(1, |s| - 1);
      assert Pow256(1) == 256;
    }
  }

  // ----- What a text decodes to -----

  function Pow58(n: nat): nat {
    if n == 0 then 1 else 58 * Pow58(n - 1)
  }

  function DecodeValue(str: string): nat {
    if str == "" then 0 else AlphaIndex(str[0]) * Pow58(|str| - 1) + DecodeValue(str[1..])
  }

  function LeadingOnes(str: string): (n: nat)
    ensures n <= |str| && (forall i :: 0 <= i < n ==> str[i] == '1') && (n < |str| ==> str[n] != '1')
  {
    if str != "" && str[0] == '1' then 1 + LeadingOnes(str[1..]) else 0
  }

  function ZeroBytes(n: nat): (s: Bytes)
    ensures |s| == n
  {
    seq(n, i => 0)
  }

  /** Decoding gives the shortest form of the number, with a zero byte for each leading one. */
  ghost predicate DecodesTo(str: string, s: Bytes) {
    var z := LeadingOnes(str);
    && z <= |s| && s[|s| - z..] == ZeroBytes(z)
    && Shortest(s[..|s| - z]) && LoadLE(s[..|s| - z]) == DecodeValue(str)
  }

  // ----- Digits and back -----

  lemma {:induction false} DecodeSnoc(str: string, c: char)
    ensures DecodeValue(str + [c]) == 58 * DecodeValue(str) + AlphaIndex(c)
  {
    if str == "" {
      assert (str + [c])[1..] == "";
      assert DecodeValue("") == 0 && Pow58(0) == 1;
      assert DecodeValue(str + [c]) == AlphaIndex(c) * Pow58(0) + DecodeValue("");
    } else {
      assert (str + [c])[1..] == str[1..] + [c];
      DecodeSnoc(str[1..], c);
      Factor(AlphaIndex(str[0]), Pow58(|str| - 1));
    }
  }

  lemma Factor(d: nat, p: nat)
    ensures d * (58 * p) == 58 * (d * p)
  {
  }

  lemma {:induction false} DecodeDigits(v: nat)
    ensures DecodeValue(Reversed(Chars(DigitsOf(v)))) == v
    decreases v
  {
    hide AlphaIndex, DecodeValue;
    var ds := DigitsOf(v);
    if v < 58 {
      DecodeSnoc("", ALPHABET[v]);
      EmptyDecodes();
      AlphabetInverse(v);
      assert Reversed(Chars(ds)) == "" + [ALPHABET[v]];
    } else {
      DecodeDigits(v / 58);
      assert Reversed(Chars(ds)) == Reversed(Chars(DigitsOf(v / 58))) + [ALPHABET[v % 58]];
      DecodeSnoc(Reversed(Chars(DigitsOf(v / 58))), ALPHABET[v % 58]);
      AlphabetInverse(v % 58);
    }
  }

  lemma EmptyDecodes()
    ensures DecodeValue("") == 0
  {
  }

  lemma {:induction false} LastDigit(v: nat)
    requires v > 0
    ensures DigitsOf(v)[|DigitsOf(v)| - 1] != 0
  {
    if v >= 58 { LastDigit(v / 58); }
  }

  lemma {:induction false} OneDecodes(str: string)
    requires str != "" && str[0] == '1'
    ensures DecodeValue(str) == DecodeValue(str[1..]) && LeadingOnes(str) == 1 + LeadingOnes(str[1..])
  {
    assert AlphaIndex('1') == 0;
  }

  lemma {:induction false} OnesDecode(n: nat, str: string)
    ensures DecodeValue(Ones(n) + str) == DecodeValue(str)
    ensures LeadingOnes(Ones(n) + str) == n + LeadingOnes(str)
    decreases n
  {
    hide DecodeValue, LeadingOnes;
    if n == 0 {
      assert Ones(0) + str == str;
    } else {
      assert (Ones(n) + str)[1..] == Ones(n - 1) + str;
      OneDecodes(Ones(n) + str);
      OnesDecode(n - 1, str);
    }
  }

  // ----- The round trip -----

  /** A small number of several bytes: an extra leading one. */
  lemma {:induction false} SmallText(v: nat)
    requires v < 58
    ensures var text := Reversed(Chars([v, 0]));
            DecodeValue(text) == v && LeadingOnes(text) == if v == 0 then 2 else 1
  {
    hide DecodeValue, LeadingOnes, AlphaIndex;
    AlphabetInverse(v);
    AlphabetInverse(0);
    DecodeDigits(v);
    assert DigitsOf(v) == [v] && Reversed(Chars([v])) == [ALPHABET[v]];
    assert Reversed(Chars([v, 0])) == Ones(1) + [ALPHABET[v]];
    OnesDecode(1, [ALPHABET[v]]);
    LeadingOnesOfOne(ALPHABET[v]);
  }

  lemma {:induction false} PlainText(v: nat)
    ensures var text := Reversed(Chars(DigitsOf(v)));
            DecodeValue(text) == v && LeadingOnes(text) == if v == 0 then 1 else 0
  {
    hide DecodeValue, AlphaIndex;
    var ds := DigitsOf(v);
    var text := Reversed(Chars(ds));
    DecodeDigits(v);
    AlphabetInverse(ds[|ds| - 1]);
    assert text[0] == ALPHABET[ds[|ds| - 1]];
    if v > 0 {
      LastDigit(v);
    } else {
      assert text == [ALPHABET[0]];
      LeadingOnesOfOne(ALPHABET[0]);
    }
  }

  /** The number and the leading ones that decoding reads off the encoded text. */
  lemma {:induction false} EncodedMeans(s: Bytes)
    requires s != []
    ensures DecodeValue(Encoded(s)) == LoadLE(s)
    ensures LeadingOnes(Encoded(s)) == HighZeros(s) + ExtraOnes(s)
  {
    hide DecodeValue, LeadingOnes, LoadLE, HighZeros;
    var v := LoadLE(s);
    OnesDecode(HighZeros(s), Reversed(Chars(EncodeDigits(s))));
    if |s| > 1 && v < 58 {
      assert EncodeDigits(s) == [v, 0];
      SmallText(v);
    } else {
      assert EncodeDigits(s) == DigitsOf(v);
      PlainText(v);
    }
  }

  /** Leading ones that do not stand for a zero byte. */
  function ExtraOnes(s: Bytes): nat {
    if |s| > 1 && LoadLE(s) < 58 then (if LoadLE(s) == 0 then 2 else 1) else (if LoadLE(s) == 0 then 1 else 0)
  }

  lemma LeadingOnesOfOne(c: char)
    ensures LeadingOnes([c]) == if c == '1' then 1 else 0
  {
    assert [c][1..] == "";
  }

  lemma {:induction false} SameUpToZeros(s: Bytes, z: nat, t: Bytes, y: nat)
    requires z <= |s| && y <= |t| && s[..|s| - z] == t[..|t| - y]
    requires s[|s| - z..] == ZeroBytes(z) && t[|t| - y..] == ZeroBytes(y)
    ensures t == s <==> y == z
  {
    assert s == s[..|s| - z] + s[|s| - z..] && t == t[..|t| - y] + t[|t| - y..];
  }

  lemma {:induction false} TailIsZeros(s: Bytes)
    ensures var z := HighZeros(s); s[|s| - z..] == ZeroBytes(z) && Shortest(s[..|s| - z])
  {
  }

  /** Only the number of zero bytes can differ. */
  lemma {:induction false} SameNumber(s: Bytes, t: Bytes)
    requires s != [] && DecodesTo(Encoded(s), t)
    ensures |t| - LeadingOnes(Encoded(s)) == |s| - HighZeros(s)
    ensures t == s <==> LeadingOnes(Encoded(s)) == HighZeros(s)
  {
    hide Encoded, LoadLE, HighZeros, LeadingOnes, Shortest, ZeroBytes, EncodeDigits;
    var z, y := HighZeros(s), LeadingOnes(Encoded(s));
    EncodedMeans(s);
    LoadHighZeros(s, |s| - z);
    TailIsZeros(s);
    ShortestUnique(s[..|s| - z], t[..|t| - y]);
    SameUpToZeros(s, z, t, y);
  }

  /** Decoding what was encoded gives the number back, byte for byte, exactly when it is at
      least 58 or is a single byte other than zero. */
  lemma {:induction false} RoundTrip(s: Bytes, t: Bytes)
    requires s != [] && DecodesTo(Encoded(s), t)
    ensures t == s <==> LoadLE(s) >= 58 || (|s| == 1 && s[0] != 0)
  {
    hide Encoded, LoadLE, HighZeros, LeadingOnes, EncodeDigits, DecodesTo;
    SameNumber(s, t);
    EncodedMeans(s);
    if |s| == 1 {
      assert s == [s[0]];
      LoadOne(s[0]);
    }
  }

  /** The text of a number decodes to the very bytes under the same condition. */
  lemma {:induction false} EncodedDecodesIff(s: Bytes)
    requires s != []
    ensures DecodesTo(Encoded(s), s) <==> LoadLE(s) >= 58 || (|s| == 1 && s[0] != 0)
  {
    hide Encoded, LoadLE, HighZeros, LeadingOnes, EncodeDigits, Shortest, ZeroBytes, DecodeValue;
    if |s| == 1 {
      assert s == [s[0]];
      LoadOne(s[0]);
    }
    if LoadLE(s) >= 58 || (|s| == 1 && s[0] != 0) {
      EncodedMeans(s);
      TailIsZeros(s);
      LoadHighZeros(s, |s| - HighZeros(s));
    } else if DecodesTo(Encoded(s), s) {
      RoundTrip(s, s);
    }
  }

  /** Every address of 25 bytes: kept if its value is at least 58, lengthened if not. */
  lemma {:induction false} AddressRoundTrip(address: Bytes, littleEndian: bool, t: Bytes)
    requires |address| == 25
    requires var s := if littleEndian then Reversed(address) else address;
             DecodesTo(Encoded(s), if littleEndian then Reversed(t) else t)
    ensures var s := if littleEndian then Reversed(address) else address;
            && (t == address <==> LoadLE(s) >= 58)
            && (LoadLE(s) < 58 ==> |t| > 25)
  {
    var s := if littleEndian then Reversed(address) else address;
    var u := if littleEndian then Reversed(t) else t;
    RoundTrip(s, u);
    ReversedTwice(address);
    ReversedTwice(t);
    EncodedMeans(s);
    assert t == address <==> u == s;
    SameNumber(s, u);
  }

  /** The number 7 in 25 bytes does not survive. */
  lemma {:induction false} SevenIsLengthened()
    ensures var s := [7] + ZeroBytes(24);
            |s| == 25 && LoadLE(s) == 7 && !DecodesTo(Encoded(s), s)
  {
    hide Encoded, DecodesTo;
    var s := [7] + ZeroBytes(24);
    LoadHighZeros(s, 1);
    assert s[..1] == [7];
    LoadOne(7);
    if DecodesTo(Encoded(s), s) { RoundTrip(s, s); }
  }

  lemma ReversedTwice<T>(s: seq<T>)
    ensures Reversed(Reversed(s)) == s
  {
  }

  // ----- Encoding -----

  /** Write a '1' for each high zero byte. */
  method WriteOnes(bi: BigNumber, str: array<char>) returns (x: nat)
    requires bi.Valid() && 0 < bi.length <= str.Length
    modifies str
    ensures x == HighZeros(bi.Digits()) && str[..x] == Ones(x)
  {
    x := 0;
    var y: int := bi.length - 1;
    while y >= 0 && bi.data[y] == 0
      invariant -1 <= y < bi.length && x == bi.length - 1 - y
      invariant str[..x] == Ones(x)
      invariant forall i :: y < i < bi.length ==> bi.data[i] == 0
    {
      str[x] := '1';
      x := x + 1;
      y := y - 1;
    }
    ZerosCounted(bi.Digits(), x);
  }

  lemma {:induction false} ZerosCounted(s: Bytes, n: nat)
    requires n <= |s| && (forall i :: |s| - n <= i < |s| ==> s[i] == 0) && (n < |s| ==> s[|s| - n - 1] != 0)
    ensures HighZeros(s) == n
  {
  }

  /** One turn of the encoding loop. */
  lemma NextDigit(s: Bytes, t: Bytes)
    requires s != [] && (|s| > 1 || s[0] >= 58) && Normal(t) && LoadLE(t) == LoadLE(s) / 58
    ensures EncodeDigits(s) == [LoadLE(s) % 58] + EncodeDigits(t)
  {
    NormalDigits(t);
    if |s| == 1 {
      assert s == [s[0]];
      LoadOne(s[0]);
    }
  }

  lemma AtLeastTwoDigits(s: Bytes)
    requires s != [] && (|s| > 1 || s[0] >= 58)
    ensures |EncodeDigits(s)| >= 2
  {
    if |s| == 1 {
      assert s == [s[0]];
      LoadOne(s[0]);
    }
  }

  lemma OneDigit(s: Bytes)
    requires |s| == 1 && s[0] < 58
    ensures EncodeDigits(s) == [s[0]]
  {
    assert s == [s[0]];
    LoadOne(s[0]);
  }

  lemma TakeOffDigit(v: nat)
    ensures (v - v % 58) / 58 == v / 58
    ensures v - v % 58 >= 58 || v - v % 58 == 0
  {
  }

  lemma LoopShrinks(s: Bytes, t: Bytes)
    requires s != [] && (|s| > 1 || s[0] >= 58) && Normal(t) && LoadLE(t) == LoadLE(s) / 58
    ensures LoadLE(t) < LoadLE(s) || (LoadLE(t) == LoadLE(s) && |t| < |s|)
  {
    if |s| == 1 {
      assert s == [s[0]];
      LoadOne(s[0]);
    }
    if LoadLE(s) == 0 { ZeroIsShort(t); }
  }

  /** Take one digit off the number. */
  method TakeDigit(bi: BigNumber, temp: array<Byte>) returns (mod: Byte)
    requires bi.Valid() && bi.length > 0 && (bi.length > 1 || bi.data[0] >= 58)
    requires temp != bi.data && temp.Length == MAX_BIG_NUMBER
    modifies bi, bi.data, temp
    ensures bi.Valid() && 0 < bi.length <= old(bi.length) && Normal(bi.Digits())
    ensures mod < 58 && bi.Value() == old(bi.Value()) / 58
    ensures EncodeDigits(old(bi.Digits())) == [mod as nat] + EncodeDigits(bi.Digits())
    ensures bi.Value() < old(bi.Value()) || (bi.Value() == old(bi.Value()) && bi.length < old(bi.length))
  {
    hide LoadLE, Normal, EncodeDigits;
    ghost var v, was := bi.Value(), bi.Digits();
    mod := bi.ModuloWith58();
    bi.SubtractUInt8(mod);
    TakeOffDigit(v);
    bi.DivideBy58(temp);
    NextDigit(was, bi.Digits());
    LoopShrinks(was, bi.Digits());
  }

  method PutDigit(str: array<char>, x: nat, d: Byte, ghost front: string, ghost done: seq<nat>)
    requires x < str.Length && d < 58 && IsDigits(done) && str[..x] == front + Chars(done)
    modifies str
    ensures IsDigits(done + [d as nat]) && str[..x + 1] == front + Chars(done + [d as nat])
  {
    ghost var before := str[..x];
    str[x] := ALPHABET[d];
    assert str[..x + 1] == before + [ALPHABET[d]];
    assert Chars(done + [d as nat]) == Chars(done) + [ALPHABET[d]];
  }

  /** The digits of the number after the ones, least significant first, if they all fit. */
  method WriteDigits(bi: BigNumber, str: array<char>, zeros: nat) returns (ok: bool, x: nat)
    requires bi.Valid() && 0 < bi.length <= str.Length && zeros <= bi.length
    requires bi.length == 1 && bi.data[0] < 58 ==> zeros + 2 <= str.Length
    modifies bi, bi.data, str
    ensures ok <==> zeros + |EncodeDigits(old(bi.Digits()))| + 1 <= str.Length
    ensures ok ==> x == zeros + |EncodeDigits(old(bi.Digits()))|
    ensures ok ==> str[..x] == old(str[..zeros]) + Chars(EncodeDigits(old(bi.Digits())))
  {
    hide LoadLE, Normal, EncodeDigits;
    ghost var s, front := bi.Digits(), str[..zeros];
    var temp := new Byte[MAX_BIG_NUMBER];
    ghost var done: seq<nat> := [];
    x := zeros;
    assert front + Chars(done) == front;
    var c := bi.CompareTo58();
    while c >= 0
      invariant bi.Valid() && 0 < bi.length <= |s| && fresh(temp) && temp.Length == MAX_BIG_NUMBER
      invariant IsDigits(done) && done + EncodeDigits(bi.Digits()) == EncodeDigits(s)
      invariant x == zeros + |done| <= str.Length && str[..x] == front + Chars(done)
      invariant (done == [] && c >= 0) || x + 2 <= str.Length
      invariant c >= 0 <==> bi.length > 1 || bi.data[0] >= 58
      decreases bi.Value(), bi.length
    {
      AtLeastTwoDigits(bi.Digits());
      if bi.length < x + 3 && x + 3 > str.Length {
        return false, x;
      }
      var mod := TakeDigit(bi, temp);
      PutDigit(str, x, mod, front, done);
      done := done + [mod as nat];
      x := x + 1;
      c := bi.CompareTo58();
    }
    OneDigit(bi.Digits());
    PutDigit(str, x, bi.data[bi.length - 1], front, done);
    x := x + 1;
    ok := true;
  }

  /** Reverse the characters from lo up to hi in place. */
  method ReverseRange(str: array<char>, lo: nat, hi: nat)
    requires lo <= hi <= str.Length
    modifies str
    ensures str[..lo] == old(str[..lo]) && str[lo..hi] == Reversed(old(str[lo..hi]))
  {
    var y := 0;
    while y < (hi - lo) / 2
      invariant 0 <= y <= (hi - lo) / 2
      invariant forall i :: 0 <= i < str.Length ==>
                  str[i] == if lo <= i < lo + y || hi - y <= i < hi then old(str[lo + hi - 1 - i]) else old(str[i])
    {
      str[y + lo], str[hi - y - 1] := str[hi - y - 1], str[y + lo];
      y := y + 1;
    }
    assert forall i :: lo <= i < hi ==> str[i] == old(str[lo + hi - 1 - i]);
    forall k | 0 <= k < hi - lo ensures str[lo..hi][k] == Reversed(old(str[lo..hi]))[k] {
      assert str[lo + k] == old(str[lo + hi - 1 - (lo + k)]);
    }
  }

  /** A number as text, if the text and its terminator fit. A lone digit is written without
      looking at the room there is. */
  method EncodeBase58(bi: BigNumber, str: array<char>) returns (ok: bool, n: nat)
    requires bi.Valid() && 0 < bi.length
    requires bi.length == 1 <= str.Length && bi.data[0] < 58 ==> HighZeros(bi.Digits()) + 2 <= str.Length
    modifies bi, bi.data, str
    ensures ok <==> old(bi.length) <= str.Length && |Encoded(old(bi.Digits()))| + 1 <= str.Length
    ensures ok ==> n + 1 <= str.Length && str[..n] == Encoded(old(bi.Digits())) && str[n] == '\0'
  {
    hide HighZeros, EncodeDigits;
    n := 0;
    if str.Length < bi.length {
      return false, n;
    }
    ghost var s := bi.Digits();
    var zeros := WriteOnes(bi, str);
    assert zeros <= bi.length;
    var x: nat;
    ok, x := WriteDigits(bi, str, zeros);
    if !ok {
      return;
    }
    ghost var text := str[..x];
    assert text[..zeros] == str[..zeros] && text[zeros..] == str[zeros..x];
    ReverseRange(str, zeros, x);
    assert str[..x] == str[..zeros] + str[zeros..x];
    ghost var result := str[..x];
    str[x] := '\0';
    assert str[..x] == result;
    n := x;
  }

  /** The text of a 25-byte address. */
  method EncodeAddress(address: Bytes, littleEndian: bool, str: array<char>) returns (ok: bool, n: nat)
    requires |address| == 25
    modifies str
    ensures var s := if littleEndian then Reversed(address) else address;
            && (ok <==> 25 <= str.Length && |Encoded(s)| + 1 <= str.Length)
            && (ok ==> n + 1 <= str.Length && str[..n] == Encoded(s) && str[n] == '\0')
  {
    hide Encoded;
    var hash := address;
    if littleEndian {
      hash := [];
      for i := 0 to 25
        invariant |hash| == i && forall k :: 0 <= k < i ==> hash[k] == address[24 - k]
      {
        hash := hash + [address[24 - i]];
      }
    }
    assert hash == if littleEndian then Reversed(address) else address;
    var bytes := new BigNumber(hash);
    ok, n := EncodeBase58(bytes, str);
  }

  // ----- Decoding -----

  lemma {:induction false} Pow58Below(n: nat)
    ensures 0 < Pow58(n) <= Pow256(n)
  {
    if n > 0 { Pow58Below(n - 1); }
  }

  /** 58 to the power n. */
  method FromPow58(bi: BigNumber, n: nat)
    requires bi.Valid() && n < MAX_BIG_NUMBER - 1
    modifies bi, bi.data
    ensures bi.Valid() && 0 < bi.length <= n + 1 && Normal(bi.Digits()) && bi.Value() == Pow58(n)
  {
    hide LoadLE, Normal, Pow58;
    bi.length := 1;
    bi.data[0] := 1;
    assert bi.Digits() == [1];
    OneIsNormal();
    for x := 0 to n
      invariant bi.Valid() && 0 < bi.length <= x + 1 && Normal(bi.Digits()) && bi.Value() == Pow58(x)
    {
      bi.MultiplyByUInt8(58);
      PowerNext(x);
    }
  }

  lemma OneIsNormal()
    ensures Normal([1]) && LoadLE([1]) == 1 == Pow58(0)
  {
    LoadOne(1);
  }

  lemma PowerNext(x: nat)
    ensures Pow58(x + 1) == Pow58(x) * 58
  {
  }

  /** The value of a text, in as few bytes as it has characters. */
  lemma {:induction false} DecodeBelow(str: string)
    ensures DecodeValue(str) < Pow256(|str|)
  {
    if str != "" {
      var n := |str| - 1;
      DecodeBelow(str[1..]);
      Pow58Below(n);
      DigitBelow(AlphaIndex(str[0]), Pow58(n), Pow256(n));
    }
  }

  lemma DigitBelow(d: nat, p: nat, q: nat)
    requires d < 256 && p <= q
    ensures d * p <= 255 * q
  {
    assert d * p <= d * q <= 255 * q;
  }

  /** Add the character at the front of a text that has been decoded behind it. */
  method AddCharacter(bi: BigNumber, bi2: BigNumber, str: string)
    requires bi.Valid() && bi2.Valid() && bi != bi2 && bi.data != bi2.data && 0 < |str| < MAX_BIG_NUMBER
    requires Shortest(bi.Digits()) && bi.Value() == DecodeValue(str[1..])
    modifies bi, bi.data, bi2, bi2.data
    ensures bi.Valid() && bi2.Valid()
    ensures Shortest(bi.Digits()) && bi.Value() == DecodeValue(str)
  {
    hide LoadLE, Normal, AlphaIndex, Shortest, Pow58;
    var alphaIndex := AlphaIndex(str[0]);
    LengthOf(bi.Digits(), str[1..]);
    DecodeFirst(str);
    if alphaIndex != 0 {
      FromPow58(bi2, |str| - 1);
      bi2.MultiplyByUInt8(alphaIndex);
      PartFits(bi2.Digits(), |str| - 1, alphaIndex);
      bi.Add(bi2);
    }
  }

  lemma DecodeFirst(str: string)
    requires str != ""
    ensures DecodeValue(str) == Pow58(|str| - 1) * AlphaIndex(str[0]) + DecodeValue(str[1..])
  {
    Commutes(AlphaIndex(str[0]), Pow58(|str| - 1));
  }

  lemma LengthOf(s: Bytes, str: string)
    requires Shortest(s) && LoadLE(s) == DecodeValue(str)
    ensures |s| <= |str|
  {
    DecodeBelow(str);
    if s != [] { NormalLength(s, |str|); }
  }

  lemma PartFits(s: Bytes, n: nat, d: Byte)
    requires Normal(s) && LoadLE(s) == Pow58(n) * d && d > 0
    ensures s != [] && Shortest(s) && |s| <= n + 1
  {
    hide LoadLE, Pow256;
    Pow58Below(n);
    Commutes(d, Pow58(n));
    AtLeastOnce(d, Pow58(n));
    DigitBelow(d, Pow58(n), Pow256(n));
    OnePowerMore256(n);
    if |s| == 1 {
      assert s == [s[0]];
      LoadOne(s[0]);
    }
    NormalLength(s, n + 1);
  }

  method CountOnes(str: string) returns (zeros: nat)
    ensures zeros == LeadingOnes(str)
  {
    zeros := 0;
    while zeros < |str| && str[zeros] == '1'
      invariant zeros <= |str| && LeadingOnes(str) == zeros + LeadingOnes(str[zeros..])
    {
      assert str[zeros..][1..] == str[zeros + 1..];
      zeros := zeros + 1;
    }
  }

  /** The number a text stands for; texts of up to 255 characters. */
  method DecodeBase58(bi: BigNumber, str: string)
    requires bi.Valid() && bi.length == 0 && 0 < |str| < MAX_BIG_NUMBER
    modifies bi, bi.data
    ensures bi.Valid() && DecodesTo(str, bi.Digits())
  {
    hide LoadLE, DecodeValue, Shortest, LeadingOnes;
    var bi2 := new BigNumber([0]);
    var x := |str|;
    EmptyText(bi.Digits(), str[x..]);
    while x > 0
      invariant x <= |str| && bi.Valid() && bi2.Valid() && fresh(bi2) && fresh(bi2.data)
      invariant Shortest(bi.Digits()) && bi.Value() == DecodeValue(str[x..])
    {
      x := x - 1;
      assert str[x..][1..] == str[x + 1..];
      AddCharacter(bi, bi2, str[x..]);
    }
    assert str[0..] == str;
    var zeros := CountOnes(str);
    ghost var core := bi.Digits();
    LengthAfterOnes(core, str);
    bi.length := bi.length + zeros;
    forall i | bi.length - zeros <= i < bi.length {
      bi.data[i] := 0;
    }
    assert bi.Digits()[..bi.length - zeros] == core;
    assert bi.Digits()[bi.length - zeros..] == ZeroBytes(zeros);
  }

  lemma EmptyText(s: Bytes, str: string)
    requires s == [] && str == ""
    ensures Shortest(s) && LoadLE(s) == DecodeValue(str)
  {
  }

  /** The zero bytes fit, because the ones they stand for have no value. */
  lemma {:induction false} LengthAfterOnes(s: Bytes, str: string)
    requires Shortest(s) && LoadLE(s) == DecodeValue(str)
    ensures |s| + LeadingOnes(str) <= |str|
  {
    hide DecodeValue, LeadingOnes, LoadLE;
    var n := LeadingOnes(str);
    OnesDecode(n, str[n..]);
    assert Ones(n) + str[n..] == str;
    LengthOf(s, str[n..]);
  }

  /** The bytes a text stands for, or none if there are too many. */
  method DecodeAddress(str: string, maxOutputLength: nat, littleEndian: bool) returns (output: Bytes)
    requires 0 < |str| < MAX_BIG_NUMBER
    ensures output == [] || (|output| <= maxOutputLength && DecodesTo(str, if littleEndian then Reversed(output) else output))
    ensures forall s: Bytes :: DecodesTo(str, s) && |s| <= maxOutputLength ==>
              output == if littleEndian then Reversed(s) else s
  {
    hide DecodesTo;
    var bn := new BigNumber([]);
    DecodeBase58(bn, str);
    ghost var d := bn.Digits();
    forall s: Bytes | DecodesTo(str, s) ensures s == d { DecodesToOne(str, s, d); }
    output := [];
    if bn.length <= maxOutputLength {
      if littleEndian {
        for i := 0 to bn.length
          invariant |output| == i && forall k :: 0 <= k < i ==> output[k] == d[|d| - 1 - k]
          invariant bn.Digits() == d
        {
          output := output + [bn.data[bn.length - 1 - i]];
        }
        assert output == Reversed(d);
        ReversedTwice(d);
      } else {
        output := bn.Digits();
      }
    }
  }

  lemma {:induction false} DecodesToOne(str: string, s: Bytes, t: Bytes)
    requires DecodesTo(str, s) && DecodesTo(str, t)
    ensures s == t
  {
    hide LoadLE, LeadingOnes, Shortest;
    var z := LeadingOnes(str);
    ShortestUnique(s[..|s| - z], t[..|t| - z]);
    SameUpToZeros(s, z, t, z);
  }

  /** An address through its text and back, with room for both: the same address exactly when its
      value is at least 58. */
  method AddressThroughText(address: Bytes, littleEndian: bool, str: array<char>, maxOutputLength: nat)
    returns (ok: bool, back: Bytes)
    requires |address| == 25 && str.Length <= MAX_BIG_NUMBER && maxOutputLength >= 25
    modifies str
    ensures var s := if littleEndian then Reversed(address) else address;
            && (ok <==> 25 <= str.Length && |Encoded(s)| + 1 <= str.Length)
            && (ok ==> (back == address <==> LoadLE(s) >= 58))
  {
    hide Encoded, DecodesTo, LoadLE;
    ghost var s := if littleEndian then Reversed(address) else address;
    EncodedDecodesIff(s);
    EncodedNotEmpty(s);
    back := [];
    var n;
    ok, n := EncodeAddress(address, littleEndian, str);
    if ok {
      back := DecodeAddress(str[..n], maxOutputLength, littleEndian);
      ReversedTwice(address);
      if back != [] { AddressRoundTrip(address, littleEndian, back); }
    }
  }

  lemma EncodedNotEmpty(s: Bytes)
    requires s != []
    ensures Encoded(s) != []
  {
  }
}
