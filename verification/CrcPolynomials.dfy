/** What a CRC-32C register means: a remainder of polynomials over the field of two elements.

    A polynomial is the set of the exponents that occur in it. */
module CrcPolynomials {
  import opened Crc32c

  type Poly = set<nat>

  /** The generator of section 12.1 of RFC 3720. */
  const GENERATOR: Poly := {32, 28, 27, 26, 25, 23, 22, 20, 19, 18, 14, 13, 11, 10, 9, 8, 6, 0}

  function Sum(p: Poly, q: Poly): Poly {
    (p - q) + (q - p)
  }

  /** x^n p */
  ghost function TimesPower(p: Poly, n: nat): Poly {
    set e | e in p :: e + n
  }

  /** The sum of x^e q over the exponents e of p that are below n. */
  ghost function Product(p: Poly, q: Poly, n: nat): Poly {
    if n == 0 then {} else Sum(Product(p, q, n - 1), if n - 1 in p then TimesPower(q, n - 1) else {})
  }

  ghost predicate Below(p: Poly, n: nat) {
    forall e :: e in p ==> e < n
  }

  ghost predicate IsMultiple(m: Poly) {
    exists q, n: nat :: Below(q, n) && m == Product(q, GENERATOR, n)
  }

  /** a divided by the generator leaves r. */
  ghost predicate IsRemainder(a: Poly, r: Poly) {
    Below(r, 32) && exists m :: IsMultiple(m) && a == Sum(m, r)
  }

  /** Bits as they are sent: the first is the coefficient of the highest power. */
  ghost function PolyOf(bits: seq<bool>): Poly {
    set i: nat | i < |bits| && Sends(bits, i) :: i
  }

  predicate Sends(bits: seq<bool>, i: nat)
    requires i < |bits|
  {
    bits[|bits| - 1 - i]
  }

  /** The bits of a message: byte after byte, the least significant bit of each first. */
  function Sent(s: Bytes): (bits: seq<bool>)
    ensures |bits| == 8 * |s|
  {
    if s == [] then [] else s[0] + Sent(s[1..])
  }

  lemma InPoly(bits: seq<bool>, i: nat)
    ensures i in PolyOf(bits) <==> i < |bits| && bits[|bits| - 1 - i]
  {
    if i < |bits| { assert Sends(bits, i) == bits[|bits| - 1 - i]; }
  }

  // ----- Sums and shifts -----

  lemma ShiftSum(p: Poly, q: Poly, n: nat)
    ensures TimesPower(Sum(p, q), n) == Sum(TimesPower(p, n), TimesPower(q, n))
  {
    var a, b := TimesPower(Sum(p, q), n), Sum(TimesPower(p, n), TimesPower(q, n));
    forall e ensures e in a <==> e in b {
      assert e in TimesPower(p, n) <==> e >= n && e - n in p;
      assert e in TimesPower(q, n) <==> e >= n && e - n in q;
    }
  }

  lemma ShiftShift(p: Poly, m: nat, n: nat)
    ensures TimesPower(TimesPower(p, m), n) == TimesPower(p, m + n)
  {
    var a, b := TimesPower(TimesPower(p, m), n), TimesPower(p, m + n);
    forall e ensures e in a <==> e in b {
      assert e in a <==> e >= n && e - n in TimesPower(p, m);
    }
  }

  lemma ShiftNone(p: Poly)
    ensures TimesPower(p, 0) == p
  {
    assert forall e :: e in p ==> e + 0 in TimesPower(p, 0);
  }

  // ----- Multiples of the generator -----

  lemma {:induction false} ProductMore(p: Poly, q: Poly, n: nat, m: nat)
    requires Below(p, n) && n <= m
    ensures Product(p, q, m) == Product(p, q, n)
    decreases m
  {
    if n < m { ProductMore(p, q, n, m - 1); }
  }

  lemma {:induction false} ProductSum(p: Poly, p': Poly, q: Poly, n: nat)
    ensures Product(Sum(p, p'), q, n) == Sum(Product(p, q, n), Product(p', q, n))
  {
    if n > 0 { ProductSum(p, p', q, n - 1); }
  }

  lemma {:induction false} ProductShift(p: Poly, q: Poly, n: nat)
    ensures Product(TimesPower(p, 1), q, n + 1) == TimesPower(Product(p, q, n), 1)
  {
    if n == 0 {
      assert 0 !in TimesPower(p, 1);
    } else {
      ProductShift(p, q, n - 1);
      assert n in TimesPower(p, 1) <==> n - 1 in p;
      var last := if n - 1 in p then TimesPower(q, n - 1) else {};
      ShiftSum(Product(p, q, n - 1), last, 1);
      ShiftShift(q, n - 1, 1);
    }
  }

  lemma MultipleSum(a: Poly, b: Poly)
    requires IsMultiple(a) && IsMultiple(b)
    ensures IsMultiple(Sum(a, b))
  {
    hide Product;
    var p, m: nat :| Below(p, m) && a == Product(p, GENERATOR, m);
    var q, n: nat :| Below(q, n) && b == Product(q, GENERATOR, n);
    var k := if m < n then n else m;
    ProductMore(p, GENERATOR, m, k);
    ProductMore(q, GENERATOR, n, k);
    ProductSum(p, q, GENERATOR, k);
    assert Below(Sum(p, q), k);
  }

  lemma {:induction false} MultipleShift(a: Poly, n: nat)
    requires IsMultiple(a)
    ensures IsMultiple(TimesPower(a, n))
  {
    hide Product;
    if n == 0 {
      ShiftNone(a);
    } else {
      MultipleShift(a, n - 1);
      var b := TimesPower(a, n - 1);
      var p, m: nat :| Below(p, m) && b == Product(p, GENERATOR, m);
      ProductShift(p, GENERATOR, m);
      ShiftShift(a, n - 1, 1);
      assert Below(TimesPower(p, 1), m + 1);
    }
  }

  lemma GeneratorIsMultiple()
    ensures IsMultiple(GENERATOR) && IsMultiple({})
  {
    ShiftNone(GENERATOR);
    assert Product({0}, GENERATOR, 0) == {};
    assert Below({0}, 1) && Product({0}, GENERATOR, 1) == GENERATOR;
    assert Below({}, 0) && Product({}, GENERATOR, 0) == {};
  }

  // ----- Congruence -----

  ghost predicate Cong(a: Poly, b: Poly) {
    IsMultiple(Sum(a, b))
  }

  lemma CongTrans(a: Poly, b: Poly, c: Poly)
    requires Cong(a, b) && Cong(b, c)
    ensures Cong(a, c)
  {
    hide IsMultiple;
    MultipleSum(Sum(a, b), Sum(b, c));
    assert Sum(Sum(a, b), Sum(b, c)) == Sum(a, c);
  }

  lemma CongShift(a: Poly, b: Poly, n: nat)
    requires Cong(a, b)
    ensures Cong(TimesPower(a, n), TimesPower(b, n))
  {
    hide IsMultiple;
    MultipleShift(Sum(a, b), n);
    ShiftSum(a, b, n);
  }

  lemma CongAdd(a: Poly, b: Poly, c: Poly)
    requires Cong(a, b)
    ensures Cong(Sum(a, c), Sum(b, c))
  {
    hide IsMultiple;
    assert Sum(Sum(a, c), Sum(b, c)) == Sum(a, b);
  }

  // ----- Registers -----

  lemma BitOfByte(v: nat, i: nat)
    ensures Bit(v, i + 8) == Bit(v / 256, i)
  {
    assert Bit(v, i + 8) == Bit(v / 2, i + 7) == Bit(v / 4, i + 6) == Bit(v / 8, i + 5) == Bit(v / 16, i + 4);
    assert Bit(v / 16, i + 4) == Bit(v / 32, i + 3) == Bit(v / 64, i + 2) == Bit(v / 128, i + 1) == Bit(v / 256, i);
  }

  lemma BitOfPoly(i: nat)
    requires i < 8
    ensures POLY[i] == Bit(0x82f63b78, i) && POLY[i + 8] == Bit(0x82f63b, i)
    ensures POLY[i + 16] == Bit(0x82f6, i) && POLY[i + 24] == Bit(0x82, i)
  {
    hide Bit;
    BitOfByte(0x82f63b78, i);
    BitOfByte(0x82f63b78, i + 8);
    BitOfByte(0x82f63b78, i + 16);
    BitOfByte(0x82f63b, i);
    BitOfByte(0x82f63b, i + 8);
    BitOfByte(0x82f6, i);
  }

  lemma BitsOf82f63b78()
    ensures forall i :: 0 <= i < 8 ==> Bit(0x82f63b78, i) == [false, false, false, true, true, true, true, false][i]
  {
    assert !Bit(0x82f63b78, 0) && !Bit(0x82f63b78, 1) && !Bit(0x82f63b78, 2) && Bit(0x82f63b78, 3);
    assert Bit(0x82f63b78, 4) && Bit(0x82f63b78, 5) && Bit(0x82f63b78, 6) && !Bit(0x82f63b78, 7);
  }

  lemma BitsOf82f63b()
    ensures forall i :: 0 <= i < 8 ==> Bit(0x82f63b, i) == [true, true, false, true, true, true, false, false][i]
  {
    assert Bit(0x82f63b, 0) && Bit(0x82f63b, 1) && !Bit(0x82f63b, 2) && Bit(0x82f63b, 3);
    assert Bit(0x82f63b, 4) && Bit(0x82f63b, 5) && !Bit(0x82f63b, 6) && !Bit(0x82f63b, 7);
  }

  lemma BitsOf82f6()
    ensures forall i :: 0 <= i < 8 ==> Bit(0x82f6, i) == [false, true, true, false, true, true, true, true][i]
  {
    assert !Bit(0x82f6, 0) && Bit(0x82f6, 1) && Bit(0x82f6, 2) && !Bit(0x82f6, 3);
    assert Bit(0x82f6, 4) && Bit(0x82f6, 5) && Bit(0x82f6, 6) && Bit(0x82f6, 7);
  }

  lemma BitsOf82()
    ensures forall i :: 0 <= i < 8 ==> Bit(0x82, i) == [false, true, false, false, false, false, false, true][i]
  {
    assert !Bit(0x82, 0) && Bit(0x82, 1) && !Bit(0x82, 2) && !Bit(0x82, 3);
    assert !Bit(0x82, 4) && !Bit(0x82, 5) && !Bit(0x82, 6) && Bit(0x82, 7);
  }

  lemma BitsOfPoly()
    ensures POLY == [false, false, false, true, true, true, true, false] + [true, true, false, true, true, true, false, false]
                  + [false, true, true, false, true, true, true, true] + [false, true, false, false, false, false, false, true]
  {
    hide Bit;
    BitsOf82f63b78();
    BitsOf82f63b();
    BitsOf82f6();
    BitsOf82();
    forall i | 0 <= i < 8
      ensures POLY[i] == Bit(0x82f63b78, i) && POLY[i + 8] == Bit(0x82f63b, i) && POLY[i + 16] == Bit(0x82f6, i) && POLY[i + 24] == Bit(0x82, i)
    {
      BitOfPoly(i);
    }
    forall i | 0 <= i < 32 ensures POLY[i] == POLY[i / 8 * 8 + i % 8] {}
  }

  /** The code's constant is the generator without its leading term. */
  lemma PolyIsGenerator()
    ensures PolyOf(POLY) == GENERATOR - {32}
  {
    hide Bits;
    BitsOfPoly();
    forall i: nat ensures i in PolyOf(POLY) <==> i in GENERATOR - {32} {
      InPoly(POLY, i);
    }
  }

  lemma PolyXor(a: Word, b: Word)
    ensures PolyOf(Xor(a, b)) == Sum(PolyOf(a), PolyOf(b))
  {
    forall i: nat ensures i in PolyOf(Xor(a, b)) <==> i in Sum(PolyOf(a), PolyOf(b)) {
      InPoly(Xor(a, b), i);
      InPoly(a, i);
      InPoly(b, i);
    }
  }

  /** Bits that follow push the earlier ones up. */
  lemma PolyConcat(a: seq<bool>, b: seq<bool>)
    ensures PolyOf(a + b) == Sum(TimesPower(PolyOf(a), |b|), PolyOf(b))
  {
    var p, q := PolyOf(a + b), Sum(TimesPower(PolyOf(a), |b|), PolyOf(b));
    forall i: nat ensures i in p <==> i in q {
      assert i in TimesPower(PolyOf(a), |b|) <==> i >= |b| && i - |b| in PolyOf(a);
      InPoly(a + b, i);
      InPoly(b, i);
      if i >= |b| { InPoly(a, i - |b|); }
    }
  }

  lemma PolyClear(n: nat)
    ensures PolyOf(Clear(n)) == {}
  {
  }

  lemma StepPoly(c: Word)
    ensures PolyOf(Step(c)) == Sum(PolyOf(c[1..] + [false]), if c[0] then GENERATOR - {32} else {})
  {
    hide PolyOf, Xor;
    assert ShiftRight(c, 1) == c[1..] + [false];
    PolyXor(c[1..] + [false], if c[0] then POLY else ZERO);
    PolyIsGenerator();
    PolyClear(32);
  }

  lemma RisePoly(c: Word)
    ensures TimesPower(PolyOf(c), 1) == Sum(if c[0] then {32} else {}, PolyOf(c[1..] + [false]))
  {
    var low := c[1..] + [false];
    PolyConcat(c, [false]);
    assert c + [false] == [c[0]] + low;
    PolyConcat([c[0]], low);
    assert PolyOf([false]) == {};
    assert PolyOf([true]) == {0} by { InPoly([true], 0); }
    assert TimesPower({0}, 32) == {32};
  }

  /** One step of the register multiplies it by x. */
  lemma StepCong(c: Word)
    ensures Cong(TimesPower(PolyOf(c), 1), PolyOf(Step(c)))
  {
    hide PolyOf, IsMultiple, Step, TimesPower;
    StepPoly(c);
    RisePoly(c);
    GeneratorIsMultiple();
    var low := PolyOf(c[1..] + [false]);
    if c[0] {
      assert Sum(Sum({32}, low), Sum(low, GENERATOR - {32})) == GENERATOR;
    } else {
      assert Sum(Sum({}, low), Sum(low, {})) == {};
    }
  }

  lemma {:induction false} StepsCong(c: Word, n: nat)
    ensures Cong(TimesPower(PolyOf(c), n), PolyOf(Steps(c, n)))
    decreases n
  {
    hide PolyOf, Cong, Step, TimesPower;
    if n == 0 {
      ShiftNone(PolyOf(c));
      CongSame(PolyOf(c));
    } else {
      StepCong(c);
      CongShift(TimesPower(PolyOf(c), 1), PolyOf(Step(c)), n - 1);
      ShiftShift(PolyOf(c), 1, n - 1);
      StepsCong(Step(c), n - 1);
      CongTrans(TimesPower(PolyOf(c), n), TimesPower(PolyOf(Step(c)), n - 1), PolyOf(Steps(c, n)));
    }
  }

  lemma CongSame(a: Poly)
    ensures Cong(a, a)
  {
    GeneratorIsMultiple();
    assert Sum(a, a) == {};
  }

  /** One byte: the register moves up by eight powers and the byte comes in at the power 32. */
  lemma ByteCong(c: Word, b: Byte)
    ensures Cong(Sum(TimesPower(PolyOf(c), 8), TimesPower(PolyOf(b), 32)), PolyOf(Shift8(Xor(c, Place(b, 0)))))
  {
    hide PolyOf, Cong, Steps, TimesPower, Xor;
    PolyXor(c, Place(b, 0));
    assert Place(b, 0) == b + Clear(24);
    PolyConcat(b, Clear(24));
    PolyClear(24);
    assert PolyOf(Place(b, 0)) == TimesPower(PolyOf(b), 24);
    ShiftSum(PolyOf(c), PolyOf(Place(b, 0)), 8);
    ShiftShift(PolyOf(b), 24, 8);
    StepsCong(Xor(c, Place(b, 0)), 8);
  }

  /** The register after a message, before the division is carried out. */
  ghost function Dividend(c: Word, s: Bytes): Poly {
    Sum(TimesPower(PolyOf(c), 8 * |s|), TimesPower(PolyOf(Sent(s)), 32))
  }

  lemma DividendStep(c: Word, s: Bytes)
    requires s != []
    ensures Dividend(c, s) == Sum(TimesPower(Sum(TimesPower(PolyOf(c), 8), TimesPower(PolyOf(s[0]), 32)), 8 * |s[1..]|),
                                  TimesPower(PolyOf(Sent(s[1..])), 32))
  {
    hide PolyOf, TimesPower;
    var b, t, n := PolyOf(s[0]), PolyOf(Sent(s[1..])), 8 * |s[1..]|;
    PolyConcat(s[0], Sent(s[1..]));
    assert PolyOf(Sent(s)) == Sum(TimesPower(b, n), t);
    ShiftSum(TimesPower(b, n), t, 32);
    ShiftShift(b, n, 32);
    ShiftSum(TimesPower(PolyOf(c), 8), TimesPower(b, 32), n);
    ShiftShift(PolyOf(c), 8, n);
    ShiftShift(b, 32, n);
  }

  lemma {:induction false} RawCong(c: Word, s: Bytes)
    ensures Cong(Dividend(c, s), PolyOf(Raw(c, s)))
    decreases |s|
  {
    hide PolyOf, Cong, TimesPower, Shift8, Place, Xor, Dividend, Sum;
    if s == [] {
      EmptyDividend(c);
      CongSame(PolyOf(c));
    } else {
      var c' := Shift8(Xor(c, Place(s[0], 0)));
      var up := Sum(TimesPower(PolyOf(c), 8), TimesPower(PolyOf(s[0]), 32));
      var n, t := 8 * |s[1..]|, TimesPower(PolyOf(Sent(s[1..])), 32);
      DividendStep(c, s);
      ByteCong(c, s[0]);
      CongShift(up, PolyOf(c'), n);
      CongAdd(TimesPower(up, n), TimesPower(PolyOf(c'), n), t);
      RawCong(c', s[1..]);
      assert Dividend(c', s[1..]) == Sum(TimesPower(PolyOf(c'), n), t) by { DividendIs(c', s[1..]); }
      CongTrans(Dividend(c, s), Dividend(c', s[1..]), PolyOf(Raw(c, s)));
    }
  }

  lemma EmptyDividend(c: Word)
    ensures Dividend(c, []) == PolyOf(c)
  {
    ShiftNone(PolyOf(c));
    assert PolyOf([]) == {};
  }

  lemma DividendIs(c: Word, s: Bytes)
    ensures Dividend(c, s) == Sum(TimesPower(PolyOf(c), 8 * |s|), TimesPower(PolyOf(Sent(s)), 32))
  {
  }

  /** The register is the remainder: c x^(8|s|) + s x^32, divided by the generator. */
  lemma RawIsRemainder(c: Word, s: Bytes)
    ensures IsRemainder(Dividend(c, s), PolyOf(Raw(c, s)))
  {
    hide IsMultiple, Dividend, Raw;
    RawCong(c, s);
    var a, r := Dividend(c, s), PolyOf(Raw(c, s));
    assert IsMultiple(Sum(a, r)) && a == Sum(Sum(a, r), r);
  }

  // ----- There is only one remainder -----

  lemma {:induction false} ProductBelow(p: Poly, n: nat)
    ensures Below(Product(p, GENERATOR, n), n + 32)
  {
    if n > 0 {
      ProductBelow(p, n - 1);
      assert Below(TimesPower(GENERATOR, n - 1), n + 32);
    }
  }

  /** The leading term of the quotient shows. */
  lemma LeadingTerm(p: Poly, n: nat)
    requires n in p
    ensures 32 + n in Product(p, GENERATOR, n + 1)
  {
    ProductBelow(p, n);
    assert 32 in GENERATOR;
    assert 32 + n in TimesPower(GENERATOR, n);
  }

  /** A multiple of degree below 32 is nothing. */
  lemma {:induction false} SmallMultiple(p: Poly, n: nat)
    requires Below(Product(p, GENERATOR, n), 32)
    ensures Product(p, GENERATOR, n) == {}
  {
    if n > 0 {
      if n - 1 in p {
        LeadingTerm(p, n - 1);
        assert false;
      }
      SmallMultiple(p, n - 1);
    }
  }

  lemma OneRemainder(a: Poly, r: Poly, s: Poly)
    requires IsRemainder(a, r) && IsRemainder(a, s)
    ensures r == s
  {
    hide Product;
    var m :| IsMultiple(m) && a == Sum(m, r);
    var k :| IsMultiple(k) && a == Sum(k, s);
    MultipleSum(m, k);
    assert Sum(m, k) == Sum(r, s);
    var q, n: nat :| Below(q, n) && Sum(m, k) == Product(q, GENERATOR, n);
    SmallMultiple(q, n);
    assert r == Sum(Sum(r, s), s);
  }

  /** The checksum as the library exposes it: complemented before and after, it is the remainder. */
  lemma CrcIsRemainder(crc: Word, s: Bytes)
    ensures IsRemainder(Dividend(Not(crc), s), PolyOf(Not(Crc(crc, s))))
  {
    hide IsRemainder, Dividend, Raw, Not, PolyOf;
    RawIsRemainder(Not(crc), s);
    NotNot(Raw(Not(crc), s));
  }

  /** And nothing else is: a register with that property is the checksum. */
  lemma CrcIsTheRemainder(crc: Word, s: Bytes, r: Word)
    requires IsRemainder(Dividend(Not(crc), s), PolyOf(Not(r)))
    ensures r == Crc(crc, s)
  {
    hide IsRemainder, Dividend, Raw, Not;
    CrcIsRemainder(crc, s);
    OneRemainder(Dividend(Not(crc), s), PolyOf(Not(r)), PolyOf(Not(Crc(crc, s))));
    SamePoly(Not(r), Not(Crc(crc, s)));
    NotNot(r);
    NotNot(Crc(crc, s));
  }

  lemma SamePoly(a: Word, b: Word)
    requires PolyOf(a) == PolyOf(b)
    ensures a == b
  {
    forall i | 0 <= i < 32 ensures a[i] == b[i] {
      InPoly(a, 31 - i);
      InPoly(b, 31 - i);
    }
  }

  // ----- Errors that a checksum always shows -----

  /** The generator has a constant term, so a multiple that x divides is x times a multiple. */
  lemma DivideByX(d: Poly, q: Poly, n: nat)
    requires Below(q, n) && TimesPower(d, 1) == Product(q, GENERATOR, n)
    ensures IsMultiple(d)
  {
    ConstantTerm(q, n);
    assert 0 !in TimesPower(d, 1);
    assert 0 in GENERATOR;
    if n == 0 {
      assert TimesPower({}, 1) == {};
      SameUnshifted(d, {});
      GeneratorIsMultiple();
    } else {
      assert 0 !in q;
      var p := set e | e in q :: if e > 0 then e - 1 else 0;
      forall e ensures e in TimesPower(p, 1) <==> e in q {
        if e in q { assert e - 1 in p; }
      }
      assert TimesPower(p, 1) == q && Below(p, n - 1);
      ProductShift(p, GENERATOR, n - 1);
      SameUnshifted(d, Product(p, GENERATOR, n - 1));
    }
  }

  lemma {:induction false} ConstantTerm(q: Poly, n: nat)
    ensures 0 in Product(q, GENERATOR, n) <==> n > 0 && 0 in q
  {
    if n > 0 {
      ConstantTerm(q, n - 1);
      assert 0 in GENERATOR;
      if n == 1 { ShiftNone(GENERATOR); } else { assert 0 !in TimesPower(GENERATOR, n - 1); }
    }
  }

  lemma SameUnshifted(a: Poly, b: Poly)
    requires TimesPower(a, 1) == TimesPower(b, 1)
    ensures a == b
  {
    forall e ensures e in a <==> e in b {
      if e in a { assert e + 1 in TimesPower(b, 1); }
      if e in b { assert e + 1 in TimesPower(a, 1); }
    }
  }

  lemma {:induction false} DivideByPower(d: Poly, n: nat)
    requires IsMultiple(TimesPower(d, n))
    ensures IsMultiple(d)
  {
    hide Product;
    if n == 0 {
      ShiftNone(d);
    } else {
      var e := TimesPower(d, n - 1);
      ShiftShift(d, n - 1, 1);
      var q, m: nat :| Below(q, m) && TimesPower(e, 1) == Product(q, GENERATOR, m);
      DivideByX(e, q, m);
      DivideByPower(d, n - 1);
    }
  }

  /** Two messages of one length that differ, but only inside 32 consecutive bits from bit k on. */
  ghost predicate Burst(a: seq<bool>, b: seq<bool>, k: nat) {
    |a| == |b| && a != b && forall i :: 0 <= i < |a| && a[i] != b[i] ==> k <= i < k + 32
  }

  /** The difference, moved down to below degree 32. */
  lemma BurstPoly(a: seq<bool>, b: seq<bool>, k: nat) returns (d: Poly, n: nat)
    requires Burst(a, b, k)
    ensures Sum(PolyOf(a), PolyOf(b)) == TimesPower(d, n) && Below(d, 32) && d != {}
  {
    var e := Sum(PolyOf(a), PolyOf(b));
    forall i: nat ensures i in e <==> i < |a| && a[|a| - 1 - i] != b[|a| - 1 - i] {
      InPoly(a, i);
      InPoly(b, i);
    }
    n := if |a| >= k + 32 then |a| - k - 32 else 0;
    d := set i | i in e && i >= n :: i - n;
    forall i: nat ensures i in e <==> i in TimesPower(d, n) {
      if i in e { assert i >= n && i - n in d; }
    }
    assert Below(d, 32);
    var j :| 0 <= j < |a| && a[j] != b[j];
    assert |a| - 1 - j in e;
  }

  /** Every burst of at most 32 bits changes the register. */
  lemma BurstChangesRaw(c: Word, s: Bytes, t: Bytes, k: nat)
    requires Burst(Sent(s), Sent(t), k)
    ensures Raw(c, s) != Raw(c, t)
  {
    hide PolyOf, TimesPower, Raw, Sent, Product;
    if Raw(c, s) == Raw(c, t) {
      var d, n := BurstPoly(Sent(s), Sent(t), k);
      RawCong(c, s);
      RawCong(c, t);
      var r := PolyOf(Raw(c, s));
      assert Cong(r, Dividend(c, t)) by { assert Sum(r, Dividend(c, t)) == Sum(Dividend(c, t), r); }
      CongTrans(Dividend(c, s), r, Dividend(c, t));
      ShiftSum(PolyOf(Sent(s)), PolyOf(Sent(t)), 32);
      ShiftShift(d, n, 32);
      assert Sum(Dividend(c, s), Dividend(c, t)) == TimesPower(d, n + 32);
      DivideByPower(d, n + 32);
      var q, m: nat :| Below(q, m) && d == Product(q, GENERATOR, m);
      SmallMultiple(q, m);
      assert false;
    }
  }

  /** So the checksum shows every burst of at most 32 bits. */
  lemma BurstIsDetected(crc: Word, s: Bytes, t: Bytes, k: nat)
    requires Burst(Sent(s), Sent(t), k)
    ensures Crc(crc, s) != Crc(crc, t)
  {
    hide Raw, Sent, Not;
    BurstChangesRaw(Not(crc), s, t, k);
    NotNot(Raw(Not(crc), s));
    NotNot(Raw(Not(crc), t));
  }
}
