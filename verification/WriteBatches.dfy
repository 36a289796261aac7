/** Write batches: a header of sequence number and count, then tagged records. */
module WriteBatches {
  import opened Wrappers
  import opened Coding

  const HEADER: nat := 12

  datatype Op = Put(key: Bytes, value: Bytes) | Delete(key: Bytes)

  const TAG_DELETION: Byte := 0
  const TAG_VALUE: Byte := 1

  // ----- Length-prefixed strings -----

  predicate Short(s: Bytes) {
    |s| < TWO_32
  }

  function LengthPrefixed(s: Bytes): (r: Bytes)
    requires Short(s)
    ensures r != []
  {
    EncodeVarint32(|s|) + s
  }

  /** A length-prefixed string at the front of s, and what follows it. */
  function GetLengthPrefixed(s: Bytes): (r: Option<(Bytes, Bytes)>)
    ensures r.Some? ==> |r.value.1| <= |s|
  {
    var n := GetVarint32(s, 0);
    if n.None? then None
    else
      var rest := s[n.value.1..];
      if |rest| < n.value.0 then None else Some((rest[..n.value.0], rest[n.value.0..]))
  }

  lemma ReadPrefixed(s: Bytes, rest: Bytes)
    requires Short(s)
    ensures GetLengthPrefixed(LengthPrefixed(s) + rest) == Some((s, rest))
  {
    hide GetVarint32, EncodeVarint32;
    var v := EncodeVarint32(|s|);
    EncodeVarint32IsVarint(|s|);
    ReadVarint(|s|, 0, s + rest);
    var all := LengthPrefixed(s) + rest;
    assert all == v + (s + rest);
    assert all[|v|..] == s + rest;
    assert (s + rest)[..|s|] == s && (s + rest)[|s|..] == rest;
  }

  // ----- Records -----

  predicate ShortOp(op: Op) {
    Short(op.key) && (op.Put? ==> Short(op.value))
  }

  function Record(op: Op): (r: Bytes)
    requires ShortOp(op)
    ensures r != []
  {
    match op
    case Put(key, value) => [TAG_VALUE] + LengthPrefixed(key) + LengthPrefixed(value)
    case Delete(key) => [TAG_DELETION] + LengthPrefixed(key)
  }

  predicate ShortOps(ops: seq<Op>) {
    forall op :: op in ops ==> ShortOp(op)
  }

  function Records(ops: seq<Op>): Bytes
    requires ShortOps(ops)
  {
    if ops == [] then [] else Records(ops[..|ops| - 1]) + Record(ops[|ops| - 1])
  }

  /** One record at the front of s, and what follows it. */
  function ParseOne(s: Bytes): (r: Option<(Op, Bytes)>)
    requires s != []
    ensures r.Some? ==> |r.value.1| < |s|
  {
    if s[0] == TAG_VALUE then
      var key := GetLengthPrefixed(s[1..]);
      if key.None? then None
      else
        var value := GetLengthPrefixed(key.value.1);
        if value.None? then None else Some((Put(key.value.0, value.value.0), value.value.1))
    else if s[0] == TAG_DELETION then
      var key := GetLengthPrefixed(s[1..]);
      if key.None? then None else Some((Delete(key.value.0), key.value.1))
    else None
  }

  /** The records of s up to the first malformed one; `ok` when there is none. */
  datatype Parsed = Parsed(ops: seq<Op>, ok: bool)

  function Parse(s: Bytes): Parsed {
    if s == [] then Parsed([], true)
    else
      var one := ParseOne(s);
      if one.None? then Parsed([], false)
      else
        var rest := Parse(one.value.1);
        Parsed([one.value.0] + rest.ops, rest.ok)
  }

  lemma ParseRecord(op: Op, rest: Bytes)
    requires ShortOp(op)
    ensures ParseOne(Record(op) + rest) == Some((op, rest))
  {
    hide GetLengthPrefixed, LengthPrefixed;
    var s := Record(op) + rest;
    match op
    case Put(key, value) =>
      ReadPrefixed(key, LengthPrefixed(value) + rest);
      ReadPrefixed(value, rest);
      assert s[1..] == LengthPrefixed(key) + (LengthPrefixed(value) + rest);
    case Delete(key) =>
      ReadPrefixed(key, rest);
      assert s[1..] == LengthPrefixed(key) + rest;
  }

  lemma {:induction false} RecordsSplit(a: seq<Op>, b: seq<Op>)
    requires ShortOps(a) && ShortOps(b)
    ensures ShortOps(a + b) && Records(a + b) == Records(a) + Records(b)
  {
    hide Record;
    if b == [] {
      assert a + b == a;
    } else {
      var n := |b| - 1;
      RecordsSplit(a, b[..n]);
      assert (a + b)[..|a + b| - 1] == a + b[..n];
    }
  }

  /** Reading back what was written: the records are exactly the operations. */
  lemma {:induction false} ParseRecords(ops: seq<Op>)
    requires ShortOps(ops)
    ensures Parse(Records(ops)) == Parsed(ops, true)
  {
    hide Record, ParseOne;
    if ops != [] {
      var rest := ops[1..];
      RecordsSplit([ops[0]], rest);
      assert [ops[0]] + rest == ops;
      assert Records([ops[0]]) == Records([]) + Record(ops[0]) == Record(ops[0]);
      assert Records(ops) == Record(ops[0]) + Records(rest);
      ParseRecord(ops[0], Records(rest));
      ParseRecords(rest);
    }
  }

  // ----- Batches -----

  /** rep is a batch of these operations. */
  ghost predicate Holds(rep: Bytes, ops: seq<Op>) {
    && ShortOps(ops) && |rep| >= HEADER
    && LoadLE(rep[8..HEADER]) == |ops| && rep[HEADER..] == Records(ops)
  }

  /** The operations with the sequence numbers they are applied under. */
  function Numbered(first: nat, ops: seq<Op>): (r: seq<(nat, Op)>)
    ensures |r| == |ops|
  {
    seq(|ops|, i requires 0 <= i < |ops| => (first + i, ops[i]))
  }

  class WriteBatch {
    var rep: Bytes

    constructor ()
      ensures Holds(rep, [])
    {
      rep := seq(HEADER, i => 0);
      new;
      LoadZeros(rep[8..HEADER]);
    }

    method SetCount(n: nat)
      requires |rep| >= HEADER && n < TWO_32
      modifies this
      ensures |rep| == |old(rep)| && rep[..8] == old(rep[..8]) && rep[HEADER..] == old(rep[HEADER..])
      ensures LoadLE(rep[8..HEADER]) == n
    {
      var fixed := EncodeFixed32(n);
      ghost var was := rep;
      rep := rep[..8] + fixed + rep[HEADER..];
      assert rep[8..HEADER] == fixed && rep[HEADER..] == was[HEADER..] && rep[..8] == was[..8];
    }

    /** Put and Delete: one more record. */
    method Add(op: Op, ghost ops: seq<Op>)
      requires Holds(rep, ops) && ShortOp(op) && |ops| + 1 < TWO_32
      modifies this
      ensures Holds(rep, ops + [op]) && rep[..8] == old(rep[..8])
    {
      hide LoadLE, Record;
      RecordsSplit(ops, [op]);
      assert Records([op]) == Records([]) + Record(op);
      SetCount(LoadLE(rep[8..HEADER]) + 1);
      ghost var counted := rep;
      rep := rep + Record(op);
      assert rep[..HEADER] == counted[..HEADER];
      assert rep[8..HEADER] == counted[8..HEADER] && rep[HEADER..] == counted[HEADER..] + Record(op);
    }

    /** Append: all the records of another batch. */
    method Append(src: WriteBatch, ghost ops: seq<Op>, ghost more: seq<Op>)
      requires Holds(rep, ops) && Holds(src.rep, more) && src != this && |ops| + |more| < TWO_32
      modifies this
      ensures Holds(rep, ops + more) && rep[..8] == old(rep[..8])
    {
      hide LoadLE, Records;
      RecordsSplit(ops, more);
      var records := src.rep[HEADER..];
      SetCount(LoadLE(rep[8..HEADER]) + LoadLE(src.rep[8..HEADER]));
      ghost var counted := rep;
      rep := rep + records;
      assert rep[..8] == counted[..8];
      assert rep[8..HEADER] == counted[8..HEADER];
      assert rep[HEADER..] == counted[HEADER..] + records;
    }

    /** InsertInto: apply the records under consecutive sequence numbers, and report whether
        they were well formed and as many as the header says. */
    method InsertInto(first: nat) returns (applied: seq<(nat, Op)>, ok: bool)
      ensures |rep| < HEADER ==> applied == [] && !ok
      ensures |rep| >= HEADER ==>
                var all := Parse(rep[HEADER..]);
                applied == Numbered(first, all.ops) && ok == (all.ok && |all.ops| == LoadLE(rep[8..HEADER]))
    {
      hide ParseOne;
      applied := [];
      if |rep| < HEADER {
        return applied, false;
      }
      var input := rep[HEADER..];
      ghost var done: seq<Op> := [];
      var found := 0;
      while input != []
        invariant found == |done| && applied == Numbered(first, done)
        invariant Parse(rep[HEADER..]) == Parsed(done + Parse(input).ops, Parse(input).ok)
        decreases |input|
      {
        var one := ParseOne(input);
        if one.None? {
          assert done + [] == done;
          return applied, false;
        }
        ghost var op, rest := one.value.0, Parse(one.value.1);
        assert done + ([op] + rest.ops) == (done + [op]) + rest.ops;
        applied := applied + [(first + found, one.value.0)];
        done := done + [op];
        found := found + 1;
        input := one.value.1;
      }
      assert done + [] == done;
      ok := found == LoadLE(rep[8..HEADER]);
    }
  }

  lemma LoadZeros(s: Bytes)
    requires forall i :: 0 <= i < |s| ==> s[i] == 0
    ensures LoadLE(s) == 0
  {
    if s != [] { LoadZeros(s[1..]); }
  }

  /** A batch that was built is applied whole and in order. */
  lemma BuiltBatchApplies(rep: Bytes, ops: seq<Op>)
    requires Holds(rep, ops)
    ensures Parse(rep[HEADER..]) == Parsed(ops, true) && |ops| == LoadLE(rep[8..HEADER])
  {
    ParseRecords(ops);
  }
}
