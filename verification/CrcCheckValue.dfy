/** The check value of CRC-32C: what the nine bytes "123456789" give, worked out bit by bit. */
module CrcCheckValue {
  import opened Crc32c
  import opened CrcPolynomials
  import opened Checksums

  datatype Octet = Octet(b0: bool, b1: bool, b2: bool, b3: bool, b4: bool, b5: bool, b6: bool, b7: bool)

  datatype Register = Register(o0: Octet, o1: Octet, o2: Octet, o3: Octet)

  ghost predicate HoldsOctet(w: seq<bool>, k: nat, o: Octet)
    requires k + 8 <= |w|
  {
    && w[k] == o.b0 && w[k + 1] == o.b1 && w[k + 2] == o.b2 && w[k + 3] == o.b3
    && w[k + 4] == o.b4 && w[k + 5] == o.b5 && w[k + 6] == o.b6 && w[k + 7] == o.b7
  }

  ghost predicate Holds(w: Word, r: Register) {
    HoldsOctet(w, 0, r.o0) && HoldsOctet(w, 8, r.o1) && HoldsOctet(w, 16, r.o2) && HoldsOctet(w, 24, r.o3)
  }

  // ----- One step -----

  /** One byte of a register, one bit lower: `above` comes in at the top, and the byte p if `odd`. */
  function StepOctet(o: Octet, above: bool, odd: bool, p: Octet): Octet {
    Octet(o.b1 != (odd && p.b0), o.b2 != (odd && p.b1), o.b3 != (odd && p.b2), o.b4 != (odd && p.b3),
          o.b5 != (odd && p.b4), o.b6 != (odd && p.b5), o.b7 != (odd && p.b6), above != (odd && p.b7))
  }

  lemma OctetSteps(w: Word, k: nat, o: Octet, p: Octet)
    requires k + 8 <= 32 && HoldsOctet(w, k, o) && HoldsOctet(POLY, k, p)
    ensures HoldsOctet(Step(w), k, StepOctet(o, k < 24 && w[k + 8], w[0], p))
  {
    hide Bits;
    forall i | 0 <= i < 32 ensures Step(w)[i] == ((i < 31 && w[i + 1]) != (w[0] && POLY[i])) {}
    hide Step;
  }

  const P0 := Octet(false, false, false, true, true, true, true, false)
  const P1 := Octet(true, true, false, true, true, true, false, false)
  const P2 := Octet(false, true, true, false, true, true, true, true)
  const P3 := Octet(false, true, false, false, false, false, false, true)

  lemma PolyHolds()
    ensures Holds(POLY, Register(P0, P1, P2, P3))
  {
    hide Bits;
    BitsOfPoly();
  }

  function StepRegister(r: Register): Register {
    var odd := r.o0.b0;
    Register(Octet(r.o0.b1, r.o0.b2, r.o0.b3, r.o0.b4 != odd, r.o0.b5 != odd, r.o0.b6 != odd, r.o0.b7 != odd, r.o1.b0),
             Octet(r.o1.b1 != odd, r.o1.b2 != odd, r.o1.b3, r.o1.b4 != odd, r.o1.b5 != odd, r.o1.b6 != odd, r.o1.b7, r.o2.b0),
             Octet(r.o2.b1, r.o2.b2 != odd, r.o2.b3 != odd, r.o2.b4, r.o2.b5 != odd, r.o2.b6 != odd, r.o2.b7 != odd, r.o3.b0 != odd),
             Octet(r.o3.b1, r.o3.b2 != odd, r.o3.b3, r.o3.b4, r.o3.b5, r.o3.b6, r.o3.b7, odd))
  }

  lemma ByOctets(r: Register)
    ensures var odd := r.o0.b0;
            StepRegister(r) == Register(StepOctet(r.o0, r.o1.b0, odd, P0), StepOctet(r.o1, r.o2.b0, odd, P1),
                                        StepOctet(r.o2, r.o3.b0, odd, P2), StepOctet(r.o3, false, odd, P3))
  {
  }

  lemma RegisterSteps(w: Word, r: Register)
    requires Holds(w, r)
    ensures Holds(Step(w), StepRegister(r))
  {
    hide Bits, Step, StepOctet, StepRegister;
    PolyHolds();
    ByOctets(r);
    assert w[0] == r.o0.b0 && w[8] == r.o1.b0 && w[16] == r.o2.b0 && w[24] == r.o3.b0;
    hide HoldsOctet;
    OctetSteps(w, 0, r.o0, P0);
    OctetSteps(w, 8, r.o1, P1);
    OctetSteps(w, 16, r.o2, P2);
    OctetSteps(w, 24, r.o3, P3);
  }

  // ----- One byte -----

  function EightSteps(r: Register): Register {
    StepRegister(StepRegister(StepRegister(StepRegister(StepRegister(StepRegister(StepRegister(StepRegister(r))))))))
  }

  lemma EightStepsHold(w: Word, r: Register)
    requires Holds(w, r)
    ensures Holds(Shift8(w), EightSteps(r))
  {
    hide Step, StepRegister, Holds;
    var w1, r1 := Step(w), StepRegister(r);
    var w2, r2 := Step(w1), StepRegister(r1);
    var w3, r3 := Step(w2), StepRegister(r2);
    var w4, r4 := Step(w3), StepRegister(r3);
    var w5, r5 := Step(w4), StepRegister(r4);
    var w6, r6 := Step(w5), StepRegister(r5);
    var w7, r7 := Step(w6), StepRegister(r6);
    RegisterSteps(w, r);
    RegisterSteps(w1, r1);
    RegisterSteps(w2, r2);
    RegisterSteps(w3, r3);
    RegisterSteps(w4, r4);
    RegisterSteps(w5, r5);
    RegisterSteps(w6, r6);
    RegisterSteps(w7, r7);
    assert Steps(w, 8) == Steps(w4, 4) == Steps(Step(w7), 0);
  }

  function Mixed(r: Register, o: Octet): Register {
    var l := r.o0;
    r.(o0 := Octet(l.b0 != o.b0, l.b1 != o.b1, l.b2 != o.b2, l.b3 != o.b3,
                   l.b4 != o.b4, l.b5 != o.b5, l.b6 != o.b6, l.b7 != o.b7))
  }

  lemma MixHolds(w: Word, r: Register, b: Byte, o: Octet)
    requires Holds(w, r) && HoldsOctet(b, 0, o)
    ensures Holds(Xor(w, Place(b, 0)), Mixed(r, o))
  {
    hide Holds, HoldsOctet;
    var x := Xor(w, Place(b, 0));
    assert forall i :: 0 <= i < 8 ==> x[i] == (w[i] != b[i]);
    assert forall i :: 8 <= i < 32 ==> x[i] == w[i];
    MixedBits(w, r, b, o, x);
  }

  lemma MixedBits(w: Word, r: Register, b: Byte, o: Octet, x: Word)
    requires Holds(w, r) && HoldsOctet(b, 0, o)
    requires forall i :: 0 <= i < 8 ==> x[i] == (w[i] != b[i])
    requires forall i :: 8 <= i < 32 ==> x[i] == w[i]
    ensures Holds(x, Mixed(r, o))
  {
  }

  // ----- Nine bytes -----

  // The digits in ASCII.

  const D1 := Octet(true, false, false, false, true, true, false, false)
  const D2 := Octet(false, true, false, false, true, true, false, false)
  const D3 := Octet(true, true, false, false, true, true, false, false)
  const D4 := Octet(false, false, true, false, true, true, false, false)
  const D5 := Octet(true, false, true, false, true, true, false, false)
  const D6 := Octet(false, true, true, false, true, true, false, false)
  const D7 := Octet(true, true, true, false, true, true, false, false)
  const D8 := Octet(false, false, false, true, true, true, false, false)
  const D9 := Octet(true, false, false, true, true, true, false, false)

  // The register after each of them, from 0xffffffff on.

  const R0 := Register(Octet(true, true, true, true, true, true, true, true),
                       Octet(true, true, true, true, true, true, true, true),
                       Octet(true, true, true, true, true, true, true, true),
                       Octet(true, true, true, true, true, true, true, true))

  const R1 := Register(Octet(false, false, true, true, true, false, false, false),
                       Octet(false, true, true, false, false, true, true, false),
                       Octet(false, true, false, true, false, false, false, false),
                       Octet(true, true, true, true, false, true, true, false))

  const R2 := Register(Octet(true, true, true, true, true, false, false, true),
                       Octet(true, true, false, true, true, true, false, false),
                       Octet(false, true, false, true, false, true, false, true),
                       Octet(false, false, true, true, false, false, false, true))

  const R3 := Register(Octet(true, false, true, true, false, false, true, false),
                       Octet(false, false, false, false, true, false, true, true),
                       Octet(false, false, true, false, false, false, false, true),
                       Octet(true, true, true, true, false, true, true, true))

  const R4 := Register(Octet(true, false, false, false, true, false, false, false),
                       Octet(true, true, false, true, false, false, false, false),
                       Octet(true, false, true, false, false, false, true, true),
                       Octet(true, false, false, true, false, false, false, false))

  const R5 := Register(Octet(false, true, false, true, false, false, true, true),
                       Octet(false, false, true, true, true, false, true, true),
                       Octet(false, true, true, true, false, true, false, false),
                       Octet(true, true, true, false, false, true, true, true))

  const R6 := Register(Octet(true, false, false, true, true, true, true, false),
                       Octet(false, true, true, true, false, false, false, true),
                       Octet(false, true, false, true, false, false, true, true),
                       Octet(false, true, true, true, true, true, false, true))

  const R7 := Register(Octet(true, false, true, false, true, false, false, false),
                       Octet(false, false, false, true, false, true, true, false),
                       Octet(true, false, true, true, true, true, false, true),
                       Octet(true, false, true, true, false, true, true, true))

  const R8 := Register(Octet(true, false, true, false, false, true, true, false),
                       Octet(true, true, true, true, true, true, true, false),
                       Octet(false, false, false, true, true, true, true, false),
                       Octet(true, true, true, true, true, false, false, true))

  const R9 := Register(Octet(false, false, true, true, true, true, true, false),
                       Octet(true, false, true, true, false, true, true, false),
                       Octet(true, false, false, true, true, true, true, true),
                       Octet(false, false, true, true, true, false, false, false))

  lemma Byte1()
    ensures EightSteps(Mixed(R0, D1)) == R1
  {
  }

  lemma Byte2()
    ensures EightSteps(Mixed(R1, D2)) == R2
  {
  }

  lemma Byte3()
    ensures EightSteps(Mixed(R2, D3)) == R3
  {
  }

  lemma Byte4()
    ensures EightSteps(Mixed(R3, D4)) == R4
  {
  }

  lemma Byte5()
    ensures EightSteps(Mixed(R4, D5)) == R5
  {
  }

  lemma Byte6()
    ensures EightSteps(Mixed(R5, D6)) == R6
  {
  }

  lemma Byte7()
    ensures EightSteps(Mixed(R6, D7)) == R7
  {
  }

  lemma Byte8()
    ensures EightSteps(Mixed(R7, D8)) == R8
  {
  }

  lemma Byte9()
    ensures EightSteps(Mixed(R8, D9)) == R9
  {
  }

  function Digit(k: nat): Octet
    requires 1 <= k <= 9
  {
    [D1, D2, D3, D4, D5, D6, D7, D8, D9][k - 1]
  }

  function After(k: nat): Register
    requires k <= 9
  {
    [R0, R1, R2, R3, R4, R5, R6, R7, R8, R9][k]
  }

  const DIGITS: Coding.Bytes := [0x31, 0x32, 0x33, 0x34, 0x35, 0x36, 0x37, 0x38, 0x39]

  function One(b: bool): nat {
    if b then 1 else 0
  }

  function ValueOf(o: Octet): nat {
    One(o.b0) + 2 * One(o.b1) + 4 * One(o.b2) + 8 * One(o.b3) + 16 * One(o.b4) + 32 * One(o.b5) + 64 * One(o.b6) + 128 * One(o.b7)
  }

  lemma FirstBit(w: seq<bool>)
    requires w != []
    ensures NumberOf(w) == One(w[0]) + 2 * NumberOf(w[1..])
  {
  }

  lemma NumberOfFour(w: seq<bool>, k: nat)
    requires k + 4 <= |w|
    ensures NumberOf(w[k..]) == One(w[k]) + 2 * One(w[k + 1]) + 4 * One(w[k + 2]) + 8 * One(w[k + 3]) + 16 * NumberOf(w[k + 4..])
  {
    hide NumberOf, One;
    FirstBit(w[k..]);
    FirstBit(w[k + 1..]);
    FirstBit(w[k + 2..]);
    FirstBit(w[k + 3..]);
    assert w[k..][1..] == w[k + 1..] && w[k + 1..][1..] == w[k + 2..] && w[k + 2..][1..] == w[k + 3..] && w[k + 3..][1..] == w[k + 4..];
  }

  lemma NumberOfOctet(w: seq<bool>, k: nat, o: Octet)
    requires k + 8 <= |w| && HoldsOctet(w, k, o)
    ensures NumberOf(w[k..]) == ValueOf(o) + 256 * NumberOf(w[k + 8..])
  {
    hide NumberOf, HoldsOctet, One;
    NumberOfFour(w, k);
    NumberOfFour(w, k + 4);
    SameUnits(w, k, o);
  }

  lemma SameUnits(w: seq<bool>, k: nat, o: Octet)
    requires k + 8 <= |w| && HoldsOctet(w, k, o)
    ensures One(w[k]) == One(o.b0) && One(w[k + 1]) == One(o.b1) && One(w[k + 2]) == One(o.b2) && One(w[k + 3]) == One(o.b3)
    ensures One(w[k + 4]) == One(o.b4) && One(w[k + 5]) == One(o.b5) && One(w[k + 6]) == One(o.b6) && One(w[k + 7]) == One(o.b7)
  {
  }

  lemma NumberOfRegister(w: Word, r: Register)
    requires Holds(w, r)
    ensures NumberOf(w) == ValueOf(r.o0) + 256 * ValueOf(r.o1) + 65536 * ValueOf(r.o2) + 16777216 * ValueOf(r.o3)
  {
    hide NumberOf, ValueOf, HoldsOctet;
    NumberOfOctet(w, 0, r.o0);
    NumberOfOctet(w, 8, r.o1);
    NumberOfOctet(w, 16, r.o2);
    NumberOfOctet(w, 24, r.o3);
    assert w[0..] == w && w[32..] == [];
    assert NumberOf([]) == 0 by { NumberOfNone(); }
  }

  lemma NumberOfNone()
    ensures NumberOf([]) == 0
  {
  }

  /** A byte of the stream holds the bits of its number. */
  lemma StreamHolds(v: Coding.Byte, o: Octet)
    requires v == ValueOf(o)
    ensures HoldsOctet(Bits(v)[..8], 0, o)
  {
    hide NumberOf, ValueOf, Bit;
    var w := [o.b0, o.b1, o.b2, o.b3, o.b4, o.b5, o.b6, o.b7];
    NumberOfOctet(w, 0, o);
    NumberOfNone();
    assert w[0..] == w && w[8..] == [];
    forall i | 0 <= i < 8 ensures Bits(v)[..8][i] == w[i] { BitOfNumber(w, i); }
    assert Bits(v)[..8] == w;
  }

  lemma DigitHolds(i: nat)
    requires i < 9
    ensures HoldsOctet(Stream(DIGITS)[i], 0, Digit(i + 1))
  {
    hide Bits, HoldsOctet;
    assert DIGITS[i] == 0x31 + i;
    assert ValueOf(Digit(i + 1)) == 0x31 + i;
    StreamHolds(DIGITS[i], Digit(i + 1));
  }

  lemma {:induction false} BitOfZero(i: nat)
    ensures !Bit(0, i)
  {
    if i > 0 { BitOfZero(i - 1); }
  }

  lemma StartHolds()
    ensures Holds(Not(Bits(0)), After(0))
  {
    forall i | 0 <= i < 32 ensures Not(Bits(0))[i] { BitOfZero(i); }
    hide Bits, Not;
  }

  /** The register after k digits. */
  lemma {:induction false} DigitsHold(k: nat)
    requires k <= 9
    ensures Holds(Raw(Not(Bits(0)), Stream(DIGITS)[..k]), After(k))
  {
    hide Bits, Not, Holds, After, Raw, Stream, HoldsOctet, EightSteps, Mixed, Digit, Shift8, Xor, Place;
    var c, s := Not(Bits(0)), Stream(DIGITS);
    if k == 0 {
      StartHolds();
      assert s[..0] == [];
      RawEmpty(c);
    } else {
      DigitsHold(k - 1);
      DigitHolds(k - 1);
      RawSnoc(c, s, k - 1);
      var before := Raw(c, s[..k - 1]);
      MixHolds(before, After(k - 1), s[k - 1], Digit(k));
      EightStepsHold(Xor(before, Place(s[k - 1], 0)), Mixed(After(k - 1), Digit(k)));
      NextRegister(k);
    }
  }

  lemma NextRegister(k: nat)
    requires 1 <= k <= 9
    ensures EightSteps(Mixed(After(k - 1), Digit(k))) == After(k)
  {
    hide EightSteps, Mixed;
    Byte1();
    Byte2();
    Byte3();
    Byte4();
    Byte5();
    Byte6();
    Byte7();
    Byte8();
    Byte9();
  }

  lemma NotHolds(w: Word, r: Register)
    requires Holds(w, r)
    ensures NumberOf(Not(w)) == 0xffffffff - NumberOf(w)
  {
    hide NumberOf, ValueOf, Holds, HoldsOctet;
    var n := Register(NotOctet(r.o0), NotOctet(r.o1), NotOctet(r.o2), NotOctet(r.o3));
    assert Holds(Not(w), n) by { NotRegister(w, r); }
    NumberOfRegister(w, r);
    NumberOfRegister(Not(w), n);
    NotValue(r.o0);
    NotValue(r.o1);
    NotValue(r.o2);
    NotValue(r.o3);
  }

  function NotOctet(o: Octet): Octet {
    Octet(!o.b0, !o.b1, !o.b2, !o.b3, !o.b4, !o.b5, !o.b6, !o.b7)
  }

  lemma NotValue(o: Octet)
    ensures ValueOf(NotOctet(o)) == 255 - ValueOf(o)
  {
    assert forall b :: One(!b) == 1 - One(b);
    hide One;
  }

  lemma NotRegister(w: Word, r: Register)
    requires Holds(w, r)
    ensures Holds(Not(w), Register(NotOctet(r.o0), NotOctet(r.o1), NotOctet(r.o2), NotOctet(r.o3)))
  {
    hide HoldsOctet, NotOctet;
    NotHoldsOctet(w, 0, r.o0);
    NotHoldsOctet(w, 8, r.o1);
    NotHoldsOctet(w, 16, r.o2);
    NotHoldsOctet(w, 24, r.o3);
  }

  lemma NotHoldsOctet(w: Word, k: nat, o: Octet)
    requires k + 8 <= 32 && HoldsOctet(w, k, o)
    ensures HoldsOctet(Not(w), k, NotOctet(o))
  {
  }

  /** The nine ASCII digits "123456789". */
  lemma CheckValue()
    ensures Value(DIGITS) == 0xe3069283
  {
    hide Bits, Not, Holds, Raw, Stream, NumberOf, After;
    DigitsHold(9);
    var w := Raw(Not(Bits(0)), Stream(DIGITS)[..9]);
    assert Stream(DIGITS)[..9] == Stream(DIGITS);
    NotHolds(w, After(9));
    NumberOfRegister(w, After(9));
    LastRegister();
  }

  lemma LastRegister()
    ensures var r := After(9);
            ValueOf(r.o0) + 256 * ValueOf(r.o1) + 65536 * ValueOf(r.o2) + 16777216 * ValueOf(r.o3) == 0x1cf96d7c
  {
  }
}
