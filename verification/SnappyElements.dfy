/** The bytes of every element that the Snappy format has, field by field, and that parsing is exactly
    their inverse. The compressor writes only some of them. */
module SnappyElements {
  import opened Wrappers
  import opened Coding
  import opened SnappyFormat

  /** The kinds of elements by their tags: a literal with its length in the tag or in `width` bytes
      after it, and copies with offsets of eleven bits, two bytes and four bytes. */
  datatype Written =
    | ShortLiteral(bytes: Bytes)
    | LongLiteral(width: nat, bytes: Bytes)
    | NearCopy(offset: nat, len: nat)
    | FarCopy(offset: nat, len: nat)
    | WideCopy(offset: nat, len: nat)

  /** The fields fit. A length is stored less one in 32 bits, so four bytes can also say "empty". */
  predicate Fits(w: Written) {
    match w
    case ShortLiteral(b) => 1 <= |b| <= 60
    case LongLiteral(width, b) => 1 <= width <= 4 && |b| < TWO_32 && (|b| - 1) % TWO_32 < Pow256(width)
    case NearCopy(offset, len) => 4 <= len <= 11 && offset < 2048
    case FarCopy(offset, len) => 1 <= len <= 64 && offset < 65536
    case WideCopy(offset, len) => 1 <= len <= 64 && offset < TWO_32
  }

  /** The two low bits are the kind, the six above them what the kind makes of them. */
  function TagByte(w: Written): Byte
    requires Fits(w)
  {
    match w
    case ShortLiteral(b) => 4 * (|b| - 1)
    case LongLiteral(width, _) => 4 * (59 + width)
    case NearCopy(offset, len) => 1 + 4 * (len - 4) + 32 * (offset / 256)
    case FarCopy(_, len) => 2 + 4 * (len - 1)
    case WideCopy(_, len) => 3 + 4 * (len - 1)
  }

  function Encoded(w: Written): Bytes
    requires Fits(w)
  {
    [TagByte(w)] +
    match w
    case ShortLiteral(b) => b
    case LongLiteral(width, b) => StoreLE((|b| - 1) % TWO_32, width) + b
    case NearCopy(offset, _) => [offset % 256]
    case FarCopy(offset, _) => StoreLE(offset, 2)
    case WideCopy(offset, _) => StoreLE(offset, 4)
  }

  function Meaning(w: Written): Element {
    match w
    case ShortLiteral(b) => Literal(b)
    case LongLiteral(_, b) => Literal(b)
    case NearCopy(offset, len) => Copy(offset, len)
    case FarCopy(offset, len) => Copy(offset, len)
    case WideCopy(offset, len) => Copy(offset, len)
  }

  lemma Powers()
    ensures Pow256(1) == 256 && Pow256(2) == 65536 && Pow256(4) == TWO_32
  {
    assert Pow256(3) == 16777216;
  }

  // ----- What is written parses back -----

  lemma TagEntries(w: Written)
    requires Fits(w)
    ensures var c, t := TagByte(w), CharTable(TagByte(w));
            match w
            case ShortLiteral(b) => c % 4 == 0 && t == TagEntry(0, |b|, 0)
            case LongLiteral(width, _) => c % 4 == 0 && t == TagEntry(width, 1, 0)
            case NearCopy(offset, len) => c % 4 == 1 && t == TagEntry(1, len, offset / 256 * 256)
            case FarCopy(_, len) => c % 4 == 2 && t == TagEntry(2, len, 0)
            case WideCopy(_, len) => c % 4 == 3 && t == TagEntry(4, len, 0)
  {
    hide Pow256;
    if w.NearCopy? { assert TagByte(w) / 4 == (w.len - 4) + 8 * (w.offset / 256); }
  }

  /** The fields after the tag. */
  lemma Fields(w: Written, rest: Bytes)
    requires Fits(w)
    ensures var s := Encoded(w) + rest;
            var x := CharTable(TagByte(w)).extra;
            && s[0] == TagByte(w) && |s| > x
            && (w.LongLiteral? ==> LoadLE(s[1..1 + x]) == (|w.bytes| - 1) % TWO_32 && |s| >= 1 + x + |w.bytes| && s[1 + x..1 + x + |w.bytes|] == w.bytes)
            && (w.ShortLiteral? ==> |s| >= 1 + |w.bytes| && s[1..1 + |w.bytes|] == w.bytes)
            && (w.NearCopy? ==> LoadLE(s[1..2]) == w.offset % 256)
            && (w.FarCopy? ==> LoadLE(s[1..3]) == w.offset)
            && (w.WideCopy? ==> LoadLE(s[1..5]) == w.offset)
  {
    hide CharTable, TagByte, Pow256;
    TagEntries(w);
    Powers();
    var s := Encoded(w) + rest;
    match w {
      case ShortLiteral(b) =>
        assert s[1..1 + |b|] == b;
      case LongLiteral(width, b) =>
        var field := StoreLE((|b| - 1) % TWO_32, width);
        LoadStored((|b| - 1) % TWO_32, width);
        assert s == [TagByte(w)] + field + b + rest;
        assert s[1..1 + width] == field;
        assert s[1 + width..1 + width + |b|] == b;
      case NearCopy(offset, _) =>
        assert s[1..2] == [offset % 256];
        OneByte(offset % 256);
      case FarCopy(offset, _) =>
        LoadStored(offset, 2);
        assert s[1..3] == StoreLE(offset, 2);
      case WideCopy(offset, _) =>
        LoadStored(offset, 4);
        assert s[1..5] == StoreLE(offset, 4);
    }
  }

  lemma OneByte(b: Byte)
    ensures LoadLE([b]) == b
  {
  }

  lemma ParseAsLiteral(s: Bytes, x: nat, b: Bytes)
    requires s != [] && s[0] % 4 == 0 && CharTable(s[0]).extra == x && |s| >= 1 + x + |b|
    requires LiteralLength(s) == |b| && s[1 + x..1 + x + |b|] == b
    ensures ParseElement(s) == Some((Literal(b), 1 + x + |b|))
  {
    hide CharTable, LiteralLength;
  }

  lemma ParseAsCopy(s: Bytes, t: TagEntry, offset: nat)
    requires s != [] && s[0] % 4 != 0 && CharTable(s[0]) == t && |s| >= 1 + t.extra
    requires t.copyOffset + LoadLE(s[1..1 + t.extra]) == offset
    ensures ParseElement(s) == Some((Copy(offset, t.len), 1 + t.extra))
  {
    hide CharTable, LoadLE;
  }

  /** Every element that fits, whatever follows it, parses to its meaning and takes its own bytes. */
  lemma WrittenParses(w: Written, rest: Bytes)
    requires Fits(w)
    ensures ParseElement(Encoded(w) + rest) == Some((Meaning(w), |Encoded(w)|))
  {
    hide CharTable, TagByte, LoadLE, StoreLE, Pow256, ParseElement;
    TagEntries(w);
    Fields(w, rest);
    var s := Encoded(w) + rest;
    match w {
      case ShortLiteral(b) => ParseAsLiteral(s, 0, b);
      case LongLiteral(width, b) => ParseAsLiteral(s, width, b);
      case NearCopy(offset, len) => ParseAsCopy(s, TagEntry(1, len, offset / 256 * 256), offset);
      case FarCopy(offset, len) => ParseAsCopy(s, TagEntry(2, len, 0), offset);
      case WideCopy(offset, len) => ParseAsCopy(s, TagEntry(4, len, 0), offset);
    }
  }

  // ----- What parses was written -----

  lemma ParsedShortLiteral(s: Bytes) returns (w: Written)
    requires s != [] && s[0] % 4 == 0 && s[0] / 4 < 60 && ParseElement(s).Some?
    ensures Fits(w) && Encoded(w) == s[..ParseElement(s).value.1] && Meaning(w) == ParseElement(s).value.0
  {
    var n := s[0] / 4 + 1;
    w := ShortLiteral(s[1..1 + n]);
    assert [s[0]] + s[1..1 + n] == s[..1 + n];
  }

  lemma ParsedLongLiteral(s: Bytes) returns (w: Written)
    requires s != [] && s[0] % 4 == 0 && s[0] / 4 >= 60 && ParseElement(s).Some?
    ensures Fits(w) && Encoded(w) == s[..ParseElement(s).value.1] && Meaning(w) == ParseElement(s).value.0
  {
    hide LoadLE, StoreLE, Pow256;
    var x := s[0] / 4 - 59;
    assert CharTable(s[0]) == TagEntry(x, 1, 0);
    hide CharTable;
    var field, n := s[1..1 + x], LiteralLength(s);
    var b := s[1 + x..1 + x + n];
    w := LongLiteral(x, b);
    LoadBelow(field);
    StoreLoaded(field);
    LengthField(LoadLE(field), x);
    assert s[..1 + x + n] == [s[0]] + (field + b);
  }

  lemma {:induction false} Grows(n: nat)
    requires n <= 4
    ensures Pow256(n) <= TWO_32
  {
    Powers();
    assert Pow256(3) == 256 * Pow256(2);
  }

  /** A stored length less one, and back. */
  lemma LengthField(v: nat, width: nat)
    requires 1 <= width <= 4 && v < Pow256(width)
    ensures ((v + 1) % TWO_32 - 1) % TWO_32 == v
  {
    Grows(width);
  }

  lemma ParsedCopy(s: Bytes) returns (w: Written)
    requires s != [] && s[0] % 4 != 0 && ParseElement(s).Some?
    ensures Fits(w) && Encoded(w) == s[..ParseElement(s).value.1] && Meaning(w) == ParseElement(s).value.0
  {
    var t := CharTable(s[0]);
    var field := s[1..1 + t.extra];
    var v := LoadLE(field);
    LoadBelow(field);
    StoreLoaded(field);
    Powers();
    if s[0] % 4 == 1 {
      assert field == [s[1]];
      OneByte(s[1]);
      w := NearCopy(t.copyOffset + v, t.len);
      assert w.offset / 256 == s[0] / 32 && w.offset % 256 == s[1];
      assert s[0] / 4 == s[0] / 32 * 8 + s[0] / 4 % 8;
    } else if s[0] % 4 == 2 {
      w := FarCopy(v, t.len);
    } else {
      w := WideCopy(v, t.len);
    }
    assert Encoded(w) == [s[0]] + field;
  }

  lemma ParsedWasWritten(s: Bytes) returns (w: Written)
    requires s != [] && ParseElement(s).Some?
    ensures Fits(w) && Encoded(w) == s[..ParseElement(s).value.1] && Meaning(w) == ParseElement(s).value.0
  {
    hide ParseElement, Fits, Encoded, Meaning;
    if s[0] % 4 != 0 {
      w := ParsedCopy(s);
    } else if s[0] / 4 < 60 {
      w := ParsedShortLiteral(s);
    } else {
      w := ParsedLongLiteral(s);
    }
  }

  /** Parsing succeeds exactly where some element stands at the front. */
  lemma ParsesIff(s: Bytes)
    requires s != []
    ensures ParseElement(s).Some? <==> exists w :: Fits(w) && Encoded(w) <= s
  {
    hide ParseElement, Fits, Encoded;
    if ParseElement(s).Some? {
      var w := ParsedWasWritten(s);
    }
    if w :| Fits(w) && Encoded(w) <= s {
      assert s == Encoded(w) + s[|Encoded(w)|..];
      WrittenParses(w, s[|Encoded(w)|..]);
    }
  }

  /** No stream begins with two different elements. */
  lemma OneElement(v: Written, w: Written, a: Bytes, b: Bytes)
    requires Fits(v) && Fits(w) && Encoded(v) + a == Encoded(w) + b
    ensures v == w
  {
    hide ParseElement, CharTable, TagByte, Encoded, LoadLE;
    WrittenParses(v, a);
    WrittenParses(w, b);
    Fields(v, a);
    Fields(w, b);
    TagEntries(v);
    TagEntries(w);
  }

  // ----- Whole streams -----

  function EncodedAll(ws: seq<Written>): Bytes
    requires forall w :: w in ws ==> Fits(w)
  {
    if ws == [] then [] else Encoded(ws[0]) + EncodedAll(ws[1..])
  }

  /** What the elements append one after the other; none if a copy reaches before the start. */
  function Effect(out: Bytes, ws: seq<Written>): Option<Bytes>
    decreases |ws|
  {
    if ws == [] then Some(out)
    else
      match Meaning(ws[0])
      case Literal(b) => Effect(out + b, ws[1..])
      case Copy(offset, len) =>
        if 1 <= offset <= |out| then Effect(CopyFromSelf(out, offset, len), ws[1..]) else None
  }

  lemma {:induction false} WrittenRuns(ws: seq<Written>, out: Bytes)
    requires forall w :: w in ws ==> Fits(w)
    ensures Run(EncodedAll(ws), out) == Effect(out, ws)
    decreases |ws|
  {
    hide ParseElement, CopyFromSelf, Fits, Encoded;
    if ws != [] {
      var w, rest := ws[0], EncodedAll(ws[1..]);
      WrittenParses(w, rest);
      assert (Encoded(w) + rest)[|Encoded(w)|..] == rest;
      var next := Apply(out, Meaning(w));
      if next.Some? { WrittenRuns(ws[1..], next.value); }
    }
  }

  lemma {:induction false} RunWasWritten(s: Bytes, out: Bytes) returns (ws: seq<Written>)
    requires Run(s, out).Some?
    ensures (forall w :: w in ws ==> Fits(w)) && EncodedAll(ws) == s
    decreases |s|
  {
    hide ParseElement, Fits, Encoded;
    if s == [] {
      ws := [];
    } else {
      var w := ParsedWasWritten(s);
      var n := ParseElement(s).value.1;
      var rest := RunWasWritten(s[n..], Apply(out, ParseElement(s).value.0).value);
      ws := [w] + rest;
      assert s == s[..n] + s[n..];
    }
  }

  /** Uncompression accepts exactly the streams of elements, copies in range, whose total is the announced
      length, and returns what the elements append. */
  lemma UncompressIff(s: Bytes, r: Bytes)
    ensures Uncompress(s) == Some(r) <==>
              exists n: nat, ws :: Announces(s, n, |r|) && IsStream(s[n..], ws) && Effect([], ws) == Some(r)
  {
    if Uncompress(s) == Some(r) {
      var n := GetVarint32(s, 0).value.1;
      var ws := RunWasWritten(s[n..], []);
      WrittenRuns(ws, []);
      VarintIff(s, |r|, n);
      assert Announces(s, n, |r|) && IsStream(s[n..], ws) && Effect([], ws) == Some(r);
    } else if n: nat, ws :| Announces(s, n, |r|) && IsStream(s[n..], ws) && Effect([], ws) == Some(r) {
      VarintIff(s, |r|, n);
      WrittenRuns(ws, []);
    }
  }

  /** The first n bytes are a varint for the length, modulo 2^32. */
  ghost predicate Announces(s: Bytes, n: nat, length: nat) {
    n <= |s| && n <= 5 && IsVarint(s[..n]) && length == DigitSum(s[..n]) % TWO_32
  }

  ghost predicate IsStream(s: Bytes, ws: seq<Written>) {
    (forall w :: w in ws ==> Fits(w)) && EncodedAll(ws) == s
  }
}
