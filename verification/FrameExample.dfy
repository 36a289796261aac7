/** One frame of the log, byte by byte: checksum, length and type as they stand on disk. */
module FrameExample {
  import opened Crc32c
  import opened Checksums
  import opened CrcCheckValue
  import WriteAheadLog

  const TYPE := Octet(true, false, false, false, false, false, false, false)
  const LETTER := Octet(true, false, false, false, false, true, true, false)

  const AFTER_TYPE := Register(Octet(true, false, true, true, false, true, false, true),
                               Octet(true, true, true, true, false, true, false, false),
                               Octet(true, false, false, true, false, true, true, true),
                               Octet(true, true, true, true, true, false, true, false))

  const AFTER_LETTER := Register(Octet(true, true, false, true, true, true, false, false),
                                 Octet(false, false, false, false, false, false, false, false),
                                 Octet(true, false, false, false, true, false, false, true),
                                 Octet(false, true, true, true, false, false, false, true))

  lemma TypeByte()
    ensures EightSteps(Mixed(R0, TYPE)) == AFTER_TYPE
  {
  }

  lemma LetterByte()
    ensures EightSteps(Mixed(AFTER_TYPE, LETTER)) == AFTER_LETTER
  {
  }

  /** One more byte through the register. */
  lemma ByteHolds(c: Word, r: Register, v: Coding.Byte, o: Octet)
    requires Holds(c, r) && v == ValueOf(o)
    ensures Holds(Shift8(Xor(c, Place(Bits(v)[..8], 0))), EightSteps(Mixed(r, o)))
  {
    hide Bits, Holds, HoldsOctet, Mixed, EightSteps, Xor, Place, Shift8, ValueOf;
    StreamHolds(v, o);
    MixHolds(c, r, Bits(v)[..8], o);
    EightStepsHold(Xor(c, Place(Bits(v)[..8], 0)), Mixed(r, o));
  }

  lemma TwoBytes()
    ensures Holds(Raw(Not(Bits(0)), Stream([1, 0x61])), AFTER_LETTER)
  {
    hide Bits, Not, Holds, HoldsOctet, Raw, EightSteps, Mixed, Shift8, Xor, Place, ValueOf;
    var c, s := Not(Bits(0)), Stream([1, 0x61]);
    StartHolds();
    RawEmpty(c);
    assert s[..0] == [] && s[..2] == s;
    RawSnoc(c, s, 0);
    RawSnoc(c, s, 1);
    Values();
    ByteHolds(c, R0, 1, TYPE);
    TypeByte();
    ByteHolds(Raw(c, s[..1]), AFTER_TYPE, 0x61, LETTER);
    LetterByte();
  }

  lemma Values()
    ensures ValueOf(TYPE) == 1 && ValueOf(LETTER) == 0x61
    ensures var r := AFTER_LETTER;
            ValueOf(r.o0) + 256 * ValueOf(r.o1) + 65536 * ValueOf(r.o2) + 16777216 * ValueOf(r.o3) == 0x8e91003b
  {
  }

  lemma ChecksumOfTwo()
    ensures Value([1, 0x61]) == 0x716effc4
  {
    hide Bits, Not, Holds, Raw, Stream, NumberOf, ValueOf;
    TwoBytes();
    var w := Raw(Not(Bits(0)), Stream([1, 0x61]));
    NotHolds(w, AFTER_LETTER);
    NumberOfRegister(w, AFTER_LETTER);
    Values();
  }

  /** The record "a" in one fragment. */
  lemma FrameOfOneByte()
    ensures WriteAheadLog.Frame(WriteAheadLog.FULL, [0x61]) == [0xb5, 0xcd, 0x0b, 0xa2, 1, 0, 1, 0x61]
  {
    hide Extend;
    ChecksumOfTwo();
    ExtendChains(0, [1], [0x61]);
    assert [1] + [0x61] == [1, 0x61];
    assert Mask(0x716effc4) == 0xa20bcdb5;
    FixedBytes();
  }

  lemma FixedBytes()
    ensures Coding.EncodeFixed32(0xa20bcdb5) == [0xb5, 0xcd, 0x0b, 0xa2]
  {
  }
}
