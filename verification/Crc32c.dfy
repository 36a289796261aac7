/**
 * CRC-32C (the polynomial of section 12.1 of RFC 3720): the bitwise form, the slicing-table form
 * and the three-lane form of the same checksum.
 *
 * A register is the sequence of its 32 bits, least significant first, so that a shift is a slice
 * and the linearity of the code over GF(2) is a fact about sequences.
 */
module Crc32c {
  function Clear(n: nat): (r: seq<bool>)
    ensures |r| == n && forall i :: 0 <= i < n ==> !r[i]
  {
    seq(n, i => false)
  }

  type Word = b: seq<bool> | |b| == 32 witness Clear(32)

  type Byte = b: seq<bool> | |b| == 8 witness Clear(8)

  type Bytes = seq<Byte>

  /** The bits of an unsigned number. */
  function Bits(v: nat): Word {
    seq(32, i requires 0 <= i < 32 => Bit(v, i))
  }

  predicate Bit(v: nat, i: nat)
    decreases i
  {
    if i == 0 then v % 2 == 1 else Bit(v / 2, i - 1)
  }

  const POLY: Word := Bits(0x82f63b78)

  const ZERO: Word := Clear(32)

  /** 0x80000000 */
  const TOP: Word := Clear(31) + [true]

  const LONG_SHIFT := 8192

  const SHORT_SHIFT := 256

  function Xor(a: Word, b: Word): Word {
    seq(32, i requires 0 <= i < 32 => a[i] != b[i])
  }

  function XorByte(a: Byte, b: Byte): Byte {
    seq(8, i requires 0 <= i < 8 => a[i] != b[i])
  }

  function Not(a: Word): Word {
    seq(32, i requires 0 <= i < 32 => !a[i])
  }

  function ShiftRight(c: Word, k: nat): Word
    requires k <= 32
  {
    c[k..] + Clear(k)
  }

  /** Byte k of a register. */
  function ByteOf(c: Word, k: nat): Byte
    requires k < 4
  {
    c[8 * k..8 * k + 8]
  }

  /** The register whose byte k is b and whose other bytes are 0. */
  function Place(b: Byte, k: nat): Word
    requires k < 4
  {
    Clear(8 * k) + b + Clear(24 - 8 * k)
  }

  function Down8(c: Word): Word {
    ShiftRight(c, 8)
  }

  // ----- The specification: one bit at a time -----

  function Step(c: Word): Word {
    Xor(ShiftRight(c, 1), if c[0] then POLY else ZERO)
  }

  function Steps(c: Word, n: nat): Word
    decreases n
  {
    if n == 0 then c else Steps(Step(c), n - 1)
  }

  /** The register after one more zero byte. */
  function Shift8(c: Word): Word {
    Steps(c, 8)
  }

  /** Append the bytes of s to a register holding c. */
  function Raw(c: Word, s: Bytes): Word
    decreases |s|
  {
    if s == [] then c else Raw(Shift8(Xor(c, Place(s[0], 0))), s[1..])
  }

  /** Append n zero bytes. */
  function Zeros(c: Word, n: nat): Word
    decreases n
  {
    if n == 0 then c else Zeros(Shift8(c), n - 1)
  }

  /** The checksum as the library exposes it, complemented on both sides. */
  function Crc(crc: Word, s: Bytes): Word {
    Not(Raw(Not(crc), s))
  }

  // ----- Exclusive or -----

  lemma XorAssoc(a: Word, b: Word, c: Word)
    ensures Xor(Xor(a, b), c) == Xor(a, Xor(b, c))
  {
  }

  lemma XorComm(a: Word, b: Word)
    ensures Xor(a, b) == Xor(b, a)
  {
  }

  lemma XorZero(a: Word)
    ensures Xor(a, ZERO) == a && Xor(ZERO, a) == a
  {
  }

  lemma NotNot(a: Word)
    ensures Not(Not(a)) == a
  {
  }

  // ----- Linearity -----

  lemma StepLinear(a: Word, b: Word)
    ensures Step(Xor(a, b)) == Xor(Step(a), Step(b))
  {
    hide Bits;
  }

  lemma {:induction false} StepsLinear(a: Word, b: Word, n: nat)
    ensures Steps(Xor(a, b), n) == Xor(Steps(a, n), Steps(b, n))
    decreases n
  {
    hide Step, Xor;
    if n > 0 {
      StepLinear(a, b);
      StepsLinear(Step(a), Step(b), n - 1);
    }
  }

  lemma ShiftLinear(a: Word, b: Word)
    ensures Shift8(Xor(a, b)) == Xor(Shift8(a), Shift8(b))
  {
    hide Steps, Xor;
    StepsLinear(a, b, 8);
  }

  lemma {:induction false} ZerosLinear(a: Word, b: Word, n: nat)
    ensures Zeros(Xor(a, b), n) == Xor(Zeros(a, n), Zeros(b, n))
    decreases n
  {
    hide Shift8, Xor;
    if n > 0 {
      ShiftLinear(a, b);
      ZerosLinear(Shift8(a), Shift8(b), n - 1);
    }
  }

  lemma {:induction false} ZerosAdd(c: Word, m: nat, n: nat)
    ensures Zeros(Zeros(c, m), n) == Zeros(c, m + n)
    decreases m
  {
    hide Shift8;
    if m > 0 { ZerosAdd(Shift8(c), m - 1, n); }
  }

  lemma {:induction false} RawSplits(c: Word, a: Bytes, b: Bytes)
    ensures Raw(c, a + b) == Raw(Raw(c, a), b)
    decreases |a|
  {
    hide Shift8, Xor, Place;
    if a == [] {
      assert a + b == b;
    } else {
      assert (a + b)[1..] == a[1..] + b;
      RawSplits(Shift8(Xor(c, Place(a[0], 0))), a[1..], b);
    }
  }

  /** The register passes through the data as if the data were zeros. */
  lemma {:induction false} RawAffine(c: Word, d: Word, s: Bytes)
    ensures Raw(Xor(c, d), s) == Xor(Zeros(c, |s|), Raw(d, s))
    decreases |s|
  {
    hide Shift8, Xor, Place;
    if s != [] {
      var x := Place(s[0], 0);
      XorAssoc(c, d, x);
      ShiftLinear(c, Xor(d, x));
      RawAffine(Shift8(c), Shift8(Xor(d, x)), s[1..]);
    }
  }

  /** Chained appends equal one append of the concatenation. */
  lemma AppendsChain(crc: Word, a: Bytes, b: Bytes)
    ensures Crc(Crc(crc, a), b) == Crc(crc, a + b)
  {
    hide Raw, Not;
    RawSplits(Not(crc), a, b);
    NotNot(Raw(Not(crc), a));
  }

  /** A message after another: the first one's register moved past the second. */
  lemma Combine(c: Word, a: Bytes, b: Bytes)
    ensures Raw(c, a + b) == Xor(Zeros(Raw(c, a), |b|), Raw(ZERO, b))
  {
    hide Raw, Zeros, Xor;
    RawSplits(c, a, b);
    XorZero(Raw(c, a));
    RawAffine(Raw(c, a), ZERO, b);
  }

  // ----- A register one byte at a time -----

  /** The register without its low byte. */
  function High(c: Word): Word {
    Clear(8) + c[8..]
  }

  lemma StepEven(c: Word)
    requires !c[0]
    ensures Step(c) == ShiftRight(c, 1)
  {
    XorZero(ShiftRight(c, 1));
    hide Xor;
  }

  lemma {:induction false} StepsEven(c: Word, n: nat)
    requires n <= 8 && forall i :: 0 <= i < n ==> !c[i]
    ensures Steps(c, n) == ShiftRight(c, n)
    decreases n
  {
    hide Step;
    if n > 0 {
      StepEven(c);
      StepsEven(ShiftRight(c, 1), n - 1);
    }
  }

  /** Only the low byte meets the polynomial: the rest moves down. */
  lemma ShiftByLowByte(c: Word)
    ensures Shift8(c) == Xor(Shift8(Place(ByteOf(c, 0), 0)), Down8(c))
  {
    hide Xor, Steps;
    assert c == Xor(Place(ByteOf(c, 0), 0), High(c)) by { SplitLowByte(c); }
    StepsEven(High(c), 8);
    assert ShiftRight(High(c), 8) == Down8(c);
    ShiftLinear(Place(ByteOf(c, 0), 0), High(c));
  }

  lemma SplitLowByte(c: Word)
    ensures c == Xor(Place(ByteOf(c, 0), 0), High(c))
  {
  }

  // ----- The bitwise form -----

  /** The inner step of the bitwise loop works on the complement of the register. */
  function TrivialStep(crc: Word): Word {
    Xor(Xor(ShiftRight(crc, 1), TOP), if !crc[0] then POLY else ZERO)
  }

  lemma TrivialStepIsStep(crc: Word)
    ensures Not(TrivialStep(crc)) == Step(Not(crc))
  {
    hide Bits;
  }

  lemma NotXor(a: Word, b: Word)
    ensures Not(Xor(a, b)) == Xor(Not(a), b)
  {
  }

  lemma {:induction false} StepsLast(c: Word, n: nat)
    ensures Steps(c, n + 1) == Step(Steps(c, n))
    decreases n
  {
    hide Step;
    if n > 0 { StepsLast(Step(c), n - 1); }
  }

  lemma RawSnoc(c: Word, s: Bytes, i: nat)
    requires i < |s|
    ensures Raw(c, s[..i + 1]) == Shift8(Xor(Raw(c, s[..i]), Place(s[i], 0)))
  {
    hide Shift8, Xor, Place;
    assert s[..i + 1] == s[..i] + [s[i]];
    RawSplits(c, s[..i], [s[i]]);
  }

  method AppendTrivial(crc: Word, input: Bytes) returns (r: Word)
    ensures r == Crc(crc, input)
  {
    hide Raw, Not, Xor, Step, Steps, TrivialStep, Place;
    r := crc;
    NotNot(crc);
    assert input[..0] == [];
    assert Raw(Not(crc), []) == Not(crc) by { RawEmpty(Not(crc)); }
    for i := 0 to |input|
      invariant Not(r) == Raw(Not(crc), input[..i])
    {
      ghost var x := Xor(Not(r), Place(input[i], 0));
      NotXor(r, Place(input[i], 0));
      r := Xor(r, Place(input[i], 0));
      StepsNone(x);
      for j := 0 to 8
        invariant Not(r) == Steps(x, j)
      {
        TrivialStepIsStep(r);
        StepsLast(x, j);
        r := TrivialStep(r);
      }
      RawSnoc(Not(crc), input, i);
    }
    assert input[..|input|] == input;
    NotNot(r);
  }

  lemma RawEmpty(c: Word)
    ensures Raw(c, []) == c
  {
  }

  lemma StepsNone(c: Word)
    ensures Steps(c, 0) == c
  {
  }

  // ----- The slicing tables -----

  type Row = Byte -> Word

  /** Row 0 is one byte; each later row is the one before it after one more zero byte. */
  ghost predicate SlicingTable(table: seq<Row>) {
    && |table| > 0
    && (forall b: Byte :: table[0](b) == Shift8(Place(b, 0)))
    && (forall k :: 0 <= k < |table| - 1 ==> OneMoreZero(table[0], table[k], table[k + 1]))
  }

  ghost predicate OneMoreZero(first: Row, row: Row, next: Row) {
    forall b: Byte :: next(b) == Xor(first(ByteOf(row(b), 0)), Down8(row(b)))
  }

  lemma {:induction false} RowIsZeros(table: seq<Row>, k: nat, b: Byte)
    requires SlicingTable(table) && k < |table|
    ensures table[k](b) == Zeros(Place(b, 0), k + 1)
  {
    hide Shift8, Xor, Place, ByteOf, Down8;
    var c := Place(b, 0);
    if k == 0 {
      assert Zeros(c, 1) == Zeros(Shift8(c), 0);
    } else {
      RowIsZeros(table, k - 1, b);
      assert OneMoreZero(table[0], table[k - 1], table[k - 1 + 1]);
      ShiftByLowByte(table[k - 1](b));
      ZerosAdd(c, k, 1);
      assert Zeros(Zeros(c, k), 1) == Zeros(Shift8(Zeros(c, k)), 0);
    }
  }

  lemma LowByteMixes(c: Word, b: Byte)
    ensures ByteOf(Xor(c, Place(b, 0)), 0) == XorByte(ByteOf(c, 0), b)
    ensures Down8(Xor(c, Place(b, 0))) == Down8(c)
  {
  }

  /** One byte through row 0. */
  lemma OneByte(table: seq<Row>, c: Word, b: Byte)
    requires SlicingTable(table)
    ensures Xor(table[0](XorByte(ByteOf(c, 0), b)), Down8(c)) == Shift8(Xor(c, Place(b, 0)))
  {
    hide Shift8, Xor, XorByte, Place, ByteOf, Down8;
    LowByteMixes(c, b);
    ShiftByLowByte(Xor(c, Place(b, 0)));
  }

  /** The rows summed over a slice: the first byte takes the last row. */
  function Slices(table: seq<Row>, s: Bytes): Word
    requires |s| <= |table|
  {
    if s == [] then ZERO else Xor(table[|s| - 1](s[0]), Slices(table, s[1..]))
  }

  lemma {:induction false} SlicesAreRaw(table: seq<Row>, s: Bytes)
    requires SlicingTable(table) && |s| <= |table|
    ensures Slices(table, s) == Raw(ZERO, s)
  {
    hide Shift8, Xor, Place;
    if s != [] {
      SlicesAreRaw(table, s[1..]);
      var c := Place(s[0], 0);
      RowIsZeros(table, |s| - 1, s[0]);
      XorZero(c);
      XorZero(Shift8(c));
      RawAffine(Shift8(c), ZERO, s[1..]);
    }
  }

  /** The register's bytes mixed into the data that follows it. */
  function Mix(c: Word, s: Bytes): (r: Bytes)
    ensures |r| == |s|
    decreases |s|
  {
    if s == [] then [] else [XorByte(ByteOf(c, 0), s[0])] + Mix(Down8(c), s[1..])
  }

  function Down(c: Word, n: nat): Word
    decreases n
  {
    if n == 0 then c else Down(Down8(c), n - 1)
  }

  lemma MixOne(c: Word, d: Word, b: Byte)
    ensures Shift8(Xor(Xor(c, d), Place(b, 0)))
         == Xor(Down8(c), Shift8(Xor(d, Place(XorByte(ByteOf(c, 0), b), 0))))
  {
    var mixed := Xor(d, Place(XorByte(ByteOf(c, 0), b), 0));
    assert Xor(Xor(c, d), Place(b, 0)) == Xor(High(c), mixed);
    hide Xor, Place, XorByte;
    ShiftLinear(High(c), mixed);
    StepsEven(High(c), 8);
    assert ShiftRight(High(c), 8) == Down8(c);
  }

  lemma {:induction false} MixIsRaw(c: Word, d: Word, s: Bytes)
    ensures Raw(Xor(c, d), s) == Xor(Raw(d, Mix(c, s)), Down(c, |s|))
    decreases |s|
  {
    hide Shift8, Xor, Place, ByteOf, XorByte, Down8;
    if s == [] {
      XorComm(c, d);
    } else {
      MixOne(c, d, s[0]);
      MixIsRaw(Down8(c), Shift8(Xor(d, Place(XorByte(ByteOf(c, 0), s[0]), 0))), s[1..]);
      assert Mix(c, s)[1..] == Mix(Down8(c), s[1..]);
    }
  }

  lemma {:induction false} ClearFrom(c: Word, m: int, n: nat)
    requires forall i :: 0 <= i < 32 && m <= i ==> !c[i]
    ensures forall i :: 0 <= i < 32 && m - 8 * n <= i ==> !Down(c, n)[i]
    decreases n
  {
    if n > 0 { ClearFrom(Down8(c), m - 8, n - 1); }
  }

  /** A slice of at least four bytes through the tables, register and all. */
  lemma SliceWithRegister(table: seq<Row>, c: Word, s: Bytes)
    requires SlicingTable(table) && 4 <= |s| <= |table|
    ensures Slices(table, Mix(c, s)) == Raw(c, s)
  {
    hide Slices, Mix, Raw, Xor;
    ClearFrom(c, 32, |s|);
    assert Down(c, |s|) == ZERO;
    XorZero(c);
    XorZero(Raw(ZERO, Mix(c, s)));
    MixIsRaw(c, ZERO, s);
    SlicesAreRaw(table, Mix(c, s));
  }

  lemma RawRange(c: Word, s: Bytes, i: nat, j: nat)
    requires i <= j <= |s|
    ensures Raw(c, s[..j]) == Raw(Raw(c, s[..i]), s[i..j])
  {
    hide Raw;
    assert s[..j] == s[..i] + s[i..j];
    RawSplits(c, s[..i], s[i..j]);
  }

  /** The table-driven loops there are, by the alignment they wait for and the slice they take. */
  predicate SliceWidth(align: nat, slice: nat) {
    || (align == 8 && slice == 16)
    || (align == 4 && slice == 12)
    || (align == 8 && slice == 8)
    || (align == 4 && slice == 4)
  }

  method AppendTable(table: seq<Row>, align: nat, slice: nat, address: nat, crci: Word, input: Bytes)
      returns (r: Word)
    requires SlicingTable(table) && SliceWidth(align, slice) && slice <= |table|
    ensures r == Crc(crci, input)
  {
    hide SlicingTable, Raw, Not, Xor, XorByte, ByteOf, Down8, Slices, Mix, Shift8, Place;
    var next := 0;
    var crc := Not(crci);
    RawEmpty(crc);
    assert input[..0] == [];
    while next < |input| && (address + next) % align != 0
      invariant 0 <= next <= |input| && crc == Raw(Not(crci), input[..next])
    {
      OneByte(table, crc, input[next]);
      RawSnoc(Not(crci), input, next);
      crc := Xor(table[0](XorByte(ByteOf(crc, 0), input[next])), Down8(crc));
      next := next + 1;
    }
    while |input| - next >= slice
      invariant 0 <= next <= |input| && crc == Raw(Not(crci), input[..next])
    {
      SliceWithRegister(table, crc, input[next..next + slice]);
      RawRange(Not(crci), input, next, next + slice);
      crc := Slices(table, Mix(crc, input[next..next + slice]));
      next := next + slice;
    }
    while next < |input|
      invariant 0 <= next <= |input| && crc == Raw(Not(crci), input[..next])
    {
      OneByte(table, crc, input[next]);
      RawSnoc(Not(crci), input, next);
      crc := Xor(table[0](XorByte(ByteOf(crc, 0), input[next])), Down8(crc));
      next := next + 1;
    }
    assert input[..next] == input;
    r := Not(crc);
  }

  // ----- Three lanes -----

  /** Row k gives byte k of a register after `shift` zero bytes. */
  ghost predicate ShiftTable(rows: seq<Row>, shift: nat) {
    && |rows| == 4
    && forall k, b: Byte :: 0 <= k < 4 ==> rows[k](b) == Zeros(Place(b, k), shift)
  }

  function ShiftCrc(rows: seq<Row>, crc: Word): Word
    requires |rows| == 4
  {
    Xor(Xor(Xor(rows[0](ByteOf(crc, 0)), rows[1](ByteOf(crc, 1))), rows[2](ByteOf(crc, 2))), rows[3](ByteOf(crc, 3)))
  }

  lemma FourBytes(c: Word)
    ensures c == Xor(Xor(Xor(Place(ByteOf(c, 0), 0), Place(ByteOf(c, 1), 1)), Place(ByteOf(c, 2), 2)), Place(ByteOf(c, 3), 3))
  {
  }

  lemma ShiftCrcIsZeros(rows: seq<Row>, shift: nat, c: Word)
    requires ShiftTable(rows, shift)
    ensures ShiftCrc(rows, c) == Zeros(c, shift)
  {
    hide Xor, Place, ByteOf, Zeros;
    FourBytes(c);
    var b0, b1, b2, b3 := Place(ByteOf(c, 0), 0), Place(ByteOf(c, 1), 1), Place(ByteOf(c, 2), 2), Place(ByteOf(c, 3), 3);
    ZerosLinear(b0, b1, shift);
    ZerosLinear(Xor(b0, b1), b2, shift);
    ZerosLinear(Xor(Xor(b0, b1), b2), b3, shift);
  }

  predicate Unit(unit: nat) {
    unit == 8 || unit == 4
  }

  predicate WholeUnits(n: nat, unit: nat)
    requires Unit(unit)
  {
    if unit == 8 then n % 8 == 0 else n % 4 == 0
  }

  lemma NextUnit(n: nat, unit: nat)
    requires Unit(unit) && WholeUnits(n, unit) && n > 0
    ensures unit <= n && WholeUnits(n - unit, unit)
  {
  }

  lemma EightsAreUnits(n: nat, unit: nat)
    requires Unit(unit) && n % 8 == 0
    ensures WholeUnits(n, unit)
  {
  }

  /** One block of three lanes of `shift` bytes, `unit` bytes per instruction. */
  method ThreeLanes(rows: seq<Row>, shift: nat, unit: nat, crc: Word, block: Bytes) returns (r: Word)
    requires ShiftTable(rows, shift)
    requires Unit(unit) && shift > 0 && shift % 8 == 0 && |block| == 3 * shift
    ensures r == Raw(crc, block)
  {
    hide Raw, Xor, Zeros, ShiftCrc, WholeUnits;
    EightsAreUnits(shift, unit);
    assert |rows| == 4;
    hide ShiftTable;
    var crc0, crc1, crc2 := crc, ZERO, ZERO;
    var lane0, lane1, lane2 := block[..shift], block[shift..2 * shift], block[2 * shift..];
    var next := 0;
    RawEmpty(crc);
    RawEmpty(ZERO);
    assert lane0[..0] == [] && lane1[..0] == [] && lane2[..0] == [];
    while next < shift
      invariant 0 <= next <= shift && WholeUnits(shift - next, unit)
      invariant crc0 == Raw(crc, lane0[..next])
      invariant crc1 == Raw(ZERO, lane1[..next])
      invariant crc2 == Raw(ZERO, lane2[..next])
    {
      NextUnit(shift - next, unit);
      RawRange(crc, lane0, next, next + unit);
      RawRange(ZERO, lane1, next, next + unit);
      RawRange(ZERO, lane2, next, next + unit);
      crc0 := Raw(crc0, lane0[next..next + unit]);
      crc1 := Raw(crc1, lane1[next..next + unit]);
      crc2 := Raw(crc2, lane2[next..next + unit]);
      next := next + unit;
    }
    assert lane0[..next] == lane0 && lane1[..next] == lane1 && lane2[..next] == lane2;
    ShiftCrcIsZeros(rows, shift, crc0);
    Combine(crc, lane0, lane1);
    crc0 := Xor(ShiftCrc(rows, crc0), crc1);
    ShiftCrcIsZeros(rows, shift, crc0);
    Combine(crc, lane0 + lane1, lane2);
    assert (lane0 + lane1) + lane2 == block;
    crc0 := Xor(ShiftCrc(rows, crc0), crc2);
    r := crc0;
  }

  /** All full blocks of three lanes that fit in the rest of the data. */
  method Lanes(rows: seq<Row>, shift: nat, unit: nat, ghost start: Word, crc: Word, buf: Bytes, from: nat)
      returns (r: Word, next: nat)
    requires ShiftTable(rows, shift)
    requires Unit(unit) && shift > 0 && shift % 8 == 0
    requires from <= |buf| && crc == Raw(start, buf[..from])
    ensures from <= next <= |buf| && |buf| - next < 3 * shift
    ensures r == Raw(start, buf[..next])
  {
    hide Raw, ShiftTable;
    r, next := crc, from;
    while |buf| - next >= 3 * shift
      invariant from <= next <= |buf| && r == Raw(start, buf[..next])
    {
      RawRange(start, buf, next, next + 3 * shift);
      r := ThreeLanes(rows, shift, unit, r, buf[next..next + 3 * shift]);
      next := next + 3 * shift;
    }
  }

  /** The remaining eight-byte units. */
  method EightByteUnits(unit: nat, ghost start: Word, crc: Word, buf: Bytes, from: nat) returns (r: Word, next: nat)
    requires Unit(unit) && from <= |buf| && crc == Raw(start, buf[..from])
    ensures from <= next <= |buf| && |buf| - next < 8 && r == Raw(start, buf[..next])
  {
    hide Raw, WholeUnits;
    r, next := crc, from;
    var end := next + (|buf| - next) / 8 * 8;
    EightsAreUnits(end - next, unit);
    while next < end
      invariant from <= next <= end <= |buf| && WholeUnits(end - next, unit)
      invariant r == Raw(start, buf[..next])
    {
      NextUnit(end - next, unit);
      RawRange(start, buf, next, next + unit);
      r := Raw(r, buf[next..next + unit]);
      next := next + unit;
    }
  }

  /** The hardware form; `unit` is 8 or 4 bytes per instruction. */
  method AppendHw(longShifts: seq<Row>, shortShifts: seq<Row>, unit: nat, address: nat, crc: Word, buf: Bytes)
      returns (r: Word)
    requires ShiftTable(longShifts, LONG_SHIFT) && ShiftTable(shortShifts, SHORT_SHIFT)
    requires Unit(unit)
    ensures r == Crc(crc, buf)
  {
    hide Raw, Not, Xor, ShiftTable;
    var next := 0;
    ghost var start := Not(crc);
    var crc0 := Not(crc);
    RawEmpty(crc0);
    assert buf[..0] == [];
    while next < |buf| && (address + next) % 8 != 0
      invariant 0 <= next <= |buf| && crc0 == Raw(start, buf[..next])
    {
      RawRange(start, buf, next, next + 1);
      crc0 := Raw(crc0, buf[next..next + 1]);
      next := next + 1;
    }
    crc0, next := Lanes(longShifts, LONG_SHIFT, unit, start, crc0, buf, next);
    crc0, next := Lanes(shortShifts, SHORT_SHIFT, unit, start, crc0, buf, next);
    crc0, next := EightByteUnits(unit, start, crc0, buf, next);
    while next < |buf|
      invariant 0 <= next <= |buf| && crc0 == Raw(start, buf[..next])
    {
      RawRange(start, buf, next, next + 1);
      crc0 := Raw(crc0, buf[next..next + 1]);
      next := next + 1;
    }
    assert buf[..next] == buf;
    r := Not(crc0);
  }
}
