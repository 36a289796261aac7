/** What the bytes of a write batch mean, whoever wrote them: tags, length-prefixed keys and values. */
module BatchParsing {
  import opened Wrappers
  import opened Coding
  import opened WriteBatches

  /** a is a varint for the length of x, and x. */
  ghost predicate IsPrefixed(a: Bytes, x: Bytes) {
    exists n: nat :: PrefixOf(a, n, x)
  }

  predicate PrefixOf(a: Bytes, n: nat, x: Bytes) {
    n <= |a| && n <= 5 && IsVarint(a[..n]) && |x| == DigitSum(a[..n]) % TWO_32 && a[n..] == x
  }

  /** a is one record: tag 1, key and value, or tag 0 and key. */
  ghost predicate IsRecord(a: Bytes, op: Op) {
    && a != []
    && match op
       case Put(key, value) => a[0] == 1 && exists k: nat :: k <= |a[1..]| && IsPrefixed(a[1..][..k], key) && IsPrefixed(a[1..][k..], value)
       case Delete(key) => a[0] == 0 && IsPrefixed(a[1..], key)
  }

  /** s is records for the operations, and then rest. */
  ghost predicate Front(s: Bytes, ops: seq<Op>, rest: Bytes) {
    if ops == [] then s == rest
    else exists n: nat :: n <= |s| && IsRecord(s[..n], ops[0]) && Front(s[n..], ops[1..], rest)
  }

  ghost predicate NoRecord(s: Bytes) {
    forall n: nat, op :: n <= |s| ==> !IsRecord(s[..n], op)
  }

  // ----- Strings -----

  lemma PrefixedReads(a: Bytes, x: Bytes, rest: Bytes)
    requires IsPrefixed(a, x)
    ensures GetLengthPrefixed(a + rest) == Some((x, rest))
  {
    hide GetVarint32, DigitSum, IsVarint;
    var n: nat :| PrefixOf(a, n, x);
    var s := a + rest;
    assert s[..n] == a[..n] && s[n..] == x + rest;
    VarintIff(s, |x|, n);
    assert (x + rest)[..|x|] == x && (x + rest)[|x|..] == rest;
  }

  lemma ReadIsPrefixed(s: Bytes) returns (n: nat)
    requires GetLengthPrefixed(s).Some?
    ensures n <= |s| && IsPrefixed(s[..n], GetLengthPrefixed(s).value.0) && s[n..] == GetLengthPrefixed(s).value.1
  {
    hide GetVarint32, DigitSum, IsVarint;
    var (v, m) := GetVarint32(s, 0).value;
    VarintIff(s, v, m);
    n := m + v;
    var a := s[..n];
    assert a[..m] == s[..m] && a[m..] == s[m..][..v];
    assert PrefixOf(a, m, s[m..][..v]);
    assert s[m..][v..] == s[n..];
  }

  // ----- Records -----

  lemma RecordReads(s: Bytes, n: nat, op: Op)
    requires n <= |s| && IsRecord(s[..n], op)
    ensures ParseOne(s) == Some((op, s[n..]))
  {
    hide GetLengthPrefixed, IsPrefixed;
    var a := s[..n];
    assert s[0] == a[0] && s[1..] == a[1..] + s[n..];
    match op
    case Put(key, value) =>
      var k: nat :| k <= |a[1..]| && IsPrefixed(a[1..][..k], key) && IsPrefixed(a[1..][k..], value);
      assert s[1..] == a[1..][..k] + (a[1..][k..] + s[n..]);
      PrefixedReads(a[1..][..k], key, a[1..][k..] + s[n..]);
      PrefixedReads(a[1..][k..], value, s[n..]);
    case Delete(key) =>
      PrefixedReads(a[1..], key, s[n..]);
  }

  lemma ReadIsRecord(s: Bytes) returns (n: nat)
    requires s != [] && ParseOne(s).Some?
    ensures n <= |s| && IsRecord(s[..n], ParseOne(s).value.0) && s[n..] == ParseOne(s).value.1
  {
    hide GetLengthPrefixed, IsPrefixed;
    var t := s[1..];
    var k := ReadIsPrefixed(t);
    if s[0] == TAG_VALUE {
      var m := ReadIsPrefixed(t[k..]);
      n := 1 + k + m;
      var a := s[..n];
      assert a[1..][..k] == t[..k] && a[1..][k..] == t[k..][..m];
      assert t[k..][m..] == s[n..];
    } else {
      n := 1 + k;
      assert s[..n][1..] == t[..k];
    }
  }

  lemma NoRecordIff(s: Bytes)
    requires s != []
    ensures ParseOne(s).None? <==> NoRecord(s)
  {
    hide IsRecord, ParseOne;
    if ParseOne(s).Some? {
      var n := ReadIsRecord(s);
    } else if n: nat, op :| n <= |s| && IsRecord(s[..n], op) {
      RecordReads(s, n, op);
      assert false;
    }
  }

  // ----- Batches -----

  lemma {:induction false} ParseIs(s: Bytes) returns (rest: Bytes)
    ensures Front(s, Parse(s).ops, rest) && if Parse(s).ok then rest == [] else rest != [] && NoRecord(rest)
    decreases |s|
  {
    hide IsRecord, ParseOne, NoRecord;
    if s == [] {
      rest := [];
    } else if ParseOne(s).None? {
      NoRecordIff(s);
      rest := s;
    } else {
      var n := ReadIsRecord(s);
      rest := ParseIs(s[n..]);
      assert Parse(s).ops[1..] == Parse(s[n..]).ops;
    }
  }

  lemma {:induction false} FrontParses(s: Bytes, ops: seq<Op>, rest: Bytes)
    requires Front(s, ops, rest)
    ensures Parse(s) == Parsed(ops + Parse(rest).ops, Parse(rest).ok)
    decreases |ops|
  {
    hide IsRecord, ParseOne, Parse;
    var more := Parse(rest).ops;
    if ops == [] {
      assert ops + more == more;
    } else {
      var n: nat :| n <= |s| && IsRecord(s[..n], ops[0]) && Front(s[n..], ops[1..], rest);
      RecordIsNotEmpty(s[..n], ops[0]);
      RecordReads(s, n, ops[0]);
      FrontParses(s[n..], ops[1..], rest);
      ParseStep(s);
      assert [ops[0]] + (ops[1..] + more) == ops + more;
    }
  }

  lemma ParseStep(s: Bytes)
    requires s != [] && ParseOne(s).Some?
    ensures var rest := Parse(ParseOne(s).value.1);
            Parse(s) == Parsed([ParseOne(s).value.0] + rest.ops, rest.ok)
  {
    hide ParseOne;
  }

  lemma RecordIsNotEmpty(a: Bytes, op: Op)
    requires IsRecord(a, op)
    ensures a != []
  {
  }

  /** On any bytes: `ops` are the records up to the end, or up to the first place where none stands. */
  lemma ParseIff(s: Bytes, ops: seq<Op>, ok: bool)
    ensures Parse(s) == Parsed(ops, ok) <==>
              exists rest :: Front(s, ops, rest) && if ok then rest == [] else rest != [] && NoRecord(rest)
  {
    hide Front, NoRecord;
    if Parse(s) == Parsed(ops, ok) {
      var rest := ParseIs(s);
    } else if rest :| Front(s, ops, rest) && if ok then rest == [] else rest != [] && NoRecord(rest) {
      assert ops + [] == ops;
      FrontParses(s, ops, rest);
      if rest != [] { NoRecordIff(rest); }
    }
  }
}
