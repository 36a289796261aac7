/** The Snappy compressor: literal and copy elements found through a hash table. */
module SnappyEncoder {
  import opened Wrappers
  import opened Coding
  import opened SnappyFormat

  const BLOCK_SIZE: nat := 65536
  const MAX_HASH_TABLE_SIZE: nat := 16384
  const INPUT_MARGIN_BYTES: nat := 15

  function MaxCompressedLength(n: nat): nat {
    32 + n + n / 6
  }

  // ----- Emitting elements -----

  /** The bytes of n, low byte first, as the loop of EmitLiteral writes them. */
  function LittleEndian(n: nat): (s: Bytes)
    ensures LoadLE(s) == n
    ensures n < 256 ==> |s| <= 1
    ensures n < 65536 ==> |s| <= 2
    ensures n > 0 ==> |s| >= 1
    decreases n
  {
    if n == 0 then [] else [n % 256] + LittleEndian(n / 256)
  }

  lemma ShortLiteral(lit: Bytes)
    requires 1 <= |lit| <= 60
    ensures ParseElement([4 * (|lit| - 1)] + lit) == Some((Literal(lit), 1 + |lit|))
  {
    var s := [4 * (|lit| - 1)] + lit;
    assert s[1..1 + |lit|] == lit;
  }

  lemma LongTag(n: nat)
    requires 1 <= n <= 2
    ensures (59 + n) * 4 % 4 == 0 && CharTable((59 + n) * 4) == TagEntry(n, 1, 0)
  {
  }

  lemma {:induction false} LongLiteral(extra: Bytes, lit: Bytes)
    requires 1 <= |extra| <= 2 && 1 <= |lit| <= BLOCK_SIZE && LoadLE(extra) == |lit| - 1
    ensures ParseElement([(59 + |extra|) * 4] + extra + lit) == Some((Literal(lit), 1 + |extra| + |lit|))
  {
    hide LoadLE, CharTable, ParseElement;
    LongTag(|extra|);
    var tag: Byte := (59 + |extra|) * 4;
    ParseLong(tag, extra, lit, [tag] + extra + lit);
  }

  lemma ParseLong(tag: Byte, extra: Bytes, lit: Bytes, s: Bytes)
    requires s == [tag] + extra + lit && tag % 4 == 0 && CharTable(tag) == TagEntry(|extra|, 1, 0)
    requires extra != [] && LoadLE(extra) + 1 == |lit| < TWO_32
    ensures ParseElement(s) == Some((Literal(lit), 1 + |extra| + |lit|))
  {
    hide LoadLE, CharTable;
    var n := 1 + |extra|;
    assert |s| == n + |lit| && s[0] == tag;
    assert s[1..n] == extra;
    assert s[n..n + |lit|] == lit;
    assert LiteralLength(s) == |lit|;
  }

  /** EmitLiteral: the length in the tag, or in bytes after it. */
  method EmitLiteral(lit: Bytes) returns (op: Bytes)
    requires 1 <= |lit| <= BLOCK_SIZE
    ensures op != [] && ParseElement(op) == Some((Literal(lit), |op|))
    ensures |op| <= |lit| + (if |lit| <= 60 then 1 else if |lit| <= 256 then 2 else 3)
  {
    hide ParseElement, LoadLE;
    var n := |lit| - 1;
    if n < 60 {
      ShortLiteral(lit);
      op := [4 * n] + lit;
    } else {
      var extra: Bytes := [];
      var left: nat, count := n, 0;
      while left > 0
        invariant extra + LittleEndian(left) == LittleEndian(n) && |extra| == count
      {
        extra := extra + [left % 256];
        left := left / 256;
        count := count + 1;
      }
      assert extra == LittleEndian(n);
      LongLiteral(extra, lit);
      op := [(59 + count) * 4] + extra + lit;
    }
  }

  lemma NearCopy(offset: nat, len: nat)
    requires 4 <= len < 12 && offset < 2048
    ensures ParseElement([1 + (len - 4) * 4 + offset / 256 * 32, offset % 256]) == Some((Copy(offset, len), 2))
  {
    hide CharTable;
    var s: Bytes := [1 + (len - 4) * 4 + offset / 256 * 32, offset % 256];
    assert s[1..2] == [offset % 256] && LoadLE(s[1..2]) == offset % 256;
    NearTag(len - 4, offset / 256);
  }

  lemma NearTag(len: nat, high: nat)
    requires len < 8 && high < 8
    ensures var tag := 1 + len * 4 + high * 32;
            tag % 4 == 1 && CharTable(tag) == TagEntry(1, len + 4, high * 256)
  {
    var tag := 1 + len * 4 + high * 32;
    assert tag / 4 == len + 8 * high;
  }

  lemma FarCopy(offset: nat, len: nat)
    requires 4 <= len <= 64 && offset < 65536
    ensures ParseElement([2 + (len - 1) * 4, offset % 256, offset / 256]) == Some((Copy(offset, len), 3))
  {
    var s: Bytes := [2 + (len - 1) * 4, offset % 256, offset / 256];
    assert s[1..3] == [offset % 256, offset / 256];
    assert s[1..3][1..] == [offset / 256] && LoadLE([offset / 256]) == offset / 256;
    assert LoadLE(s[1..3]) == offset;
    assert CharTable(s[0]) == TagEntry(2, len, 0);
  }

  method EmitCopyLessThan64(offset: nat, len: nat) returns (op: Bytes)
    requires 4 <= len <= 64 && offset < 65536
    ensures op != [] && ParseElement(op) == Some((Copy(offset, len), |op|))
    ensures |op| <= 3
  {
    hide ParseElement;
    if len < 12 && offset < 2048 {
      NearCopy(offset, len);
      op := [1 + (len - 4) * 4 + offset / 256 * 32, offset % 256];
    } else {
      FarCopy(offset, len);
      op := [2 + (len - 1) * 4, offset % 256, offset / 256];
    }
  }

  /** The stream b, run after out, appends exactly what takes it to `next`. */
  ghost predicate Appends(b: Bytes, out: Bytes, next: Bytes) {
    Run(b, out) == Some(next)
  }

  lemma AppendsOne(op: Bytes, e: Element, out: Bytes)
    requires op != [] && ParseElement(op) == Some((e, |op|)) && Apply(out, e).Some?
    ensures Appends(op, out, Apply(out, e).value)
  {
    assert op[|op|..] == [];
  }

  lemma AppendsThen(a: Bytes, b: Bytes, out: Bytes, mid: Bytes, next: Bytes)
    requires Appends(a, out, mid) && Appends(b, mid, next)
    ensures Appends(a + b, out, next)
  {
    RunAppend(a, b, out);
  }

  lemma CopySplits(out: Bytes, offset: nat, a: nat, b: nat)
    requires 1 <= offset <= |out|
    ensures CopyFromSelf(CopyFromSelf(out, offset, a), offset, b) == CopyFromSelf(out, offset, a + b)
  {
    hide CopyFromSelf;
    var first := CopyFromSelf(out, offset, a);
    var r := CopyFromSelf(first, offset, b);
    assert r[..|out|] == r[..|first|][..|out|] == out;
    forall i | |out| <= i < |first| ensures r[i] == r[i - offset] {
      assert r[i] == r[..|first|][i] == first[i] && r[i - offset] == r[..|first|][i - offset] == first[i - offset];
    }
    CopyIsPeriodic(out, offset, a + b, r);
  }

  /** EmitCopy: 64-byte pieces, an extra 60 when the rest would be too short, the remainder. */
  method EmitCopy(offset: nat, len: nat, ghost out: Bytes) returns (op: Bytes)
    requires 1 <= offset <= |out| && offset < 65536 && len >= 4
    ensures Appends(op, out, CopyFromSelf(out, offset, len))
    ensures |op| < len && 64 * |op| <= 3 * len + 384
  {
    hide CopyFromSelf, Appends;
    op := [];
    var left: nat := len;
    NoCopy(out, offset);
    while left >= 68
      invariant 4 <= left <= len
      invariant Appends(op, out, CopyFromSelf(out, offset, len - left)) && |op| <= len - left
      invariant 64 * |op| <= 3 * (len - left)
    {
      op := AppendCopy(op, offset, 64, out, len - left);
      left := left - 64;
    }
    if left > 64 {
      op := AppendCopy(op, offset, 60, out, len - left);
      left := left - 60;
    }
    op := AppendCopy(op, offset, left, out, len - left);
  }

  lemma NoCopy(out: Bytes, offset: nat)
    requires 1 <= offset <= |out|
    ensures Appends([], out, CopyFromSelf(out, offset, 0))
  {
  }

  method AppendCopy(op0: Bytes, offset: nat, len: nat, ghost out: Bytes, ghost done: nat) returns (op: Bytes)
    requires 1 <= offset <= |out| && offset < 65536 && 4 <= len <= 64
    requires Appends(op0, out, CopyFromSelf(out, offset, done))
    ensures Appends(op, out, CopyFromSelf(out, offset, done + len))
    ensures |op| <= |op0| + 3
  {
    var piece := EmitCopyLessThan64(offset, len);
    ghost var mid := CopyFromSelf(out, offset, done);
    CopySplits(out, offset, done, len);
    AppendsOne(piece, Copy(offset, len), mid);
    AppendsThen(op0, piece, out, mid, CopyFromSelf(mid, offset, len));
    op := op0 + piece;
  }

  // ----- Matching -----

  /** UNALIGNED_LOAD32 compares equal exactly when the four bytes do. */
  function Load32(s: Bytes, i: nat): nat
    requires i + 4 <= |s|
  {
    LoadLE(s[i..i + 4])
  }

  lemma Load32Equal(s: Bytes, i: nat, j: nat)
    requires i + 4 <= |s| && j + 4 <= |s|
    ensures Load32(s, i) == Load32(s, j) <==> s[i..i + 4] == s[j..j + 4]
    ensures Load32(s, i) < TWO_32
  {
    LoadInjective(s[i..i + 4], s[j..j + 4]);
    LoadBelow(s[i..i + 4]);
    assert Pow256(4) == TWO_32 by { assert Pow256(1) == 256 && Pow256(2) == 65536; }
  }

  lemma {:induction false} LoadInjective(a: Bytes, b: Bytes)
    requires |a| == |b|
    ensures LoadLE(a) == LoadLE(b) <==> a == b
  {
    if a != [] {
      LoadInjective(a[1..], b[1..]);
      if LoadLE(a) == LoadLE(b) {
        assert a[0] == LoadLE(a) % 256 && b[0] == LoadLE(b) % 256;
        assert a == [a[0]] + a[1..] && b == [b[0]] + b[1..];
      }
    }
  }

  /** How many low-order bytes two words agree on: what the bit scan of their exclusive
      or, shifted right by three, computes. */
  function AgreeingBytes(x: nat, y: nat): (n: nat)
    requires x != y
    decreases x + y
  {
    if x % 256 != y % 256 then 0 else 1 + AgreeingBytes(x / 256, y / 256)
  }

  lemma {:induction false} AgreeingIsFirstDifference(a: Bytes, b: Bytes)
    requires |a| == |b| && LoadLE(a) != LoadLE(b)
    ensures var n := AgreeingBytes(LoadLE(a), LoadLE(b)); n < |a| && a[..n] == b[..n] && a[n] != b[n]
  {
    assert a != [];
    assert LoadLE(a) % 256 == a[0] && LoadLE(b) % 256 == b[0];
    if a[0] == b[0] {
      assert LoadLE(a) / 256 == LoadLE(a[1..]) && LoadLE(b) / 256 == LoadLE(b[1..]);
      AgreeingIsFirstDifference(a[1..], b[1..]);
      var n := AgreeingBytes(LoadLE(a[1..]), LoadLE(b[1..]));
      assert a[..n + 1] == [a[0]] + a[1..][..n] && b[..n + 1] == [b[0]] + b[1..][..n];
    }
  }

  /** The m bytes at s1 and at s2 agree. */
  ghost predicate Agree(s: Bytes, s1: nat, s2: nat, m: nat) {
    s1 < s2 && s2 + m <= |s| && s[s1..s1 + m] == s[s2..s2 + m]
  }

  lemma WordAgrees(s: Bytes, s1: nat, s2: nat, m: nat)
    requires Agree(s, s1, s2, m) && s2 + m + 4 <= |s| && Load32(s, s2 + m) == Load32(s, s1 + m)
    ensures Agree(s, s1, s2, m + 4)
  {
    Load32Equal(s, s2 + m, s1 + m);
    ExtendMatch(s, s1, s2, m, 4);
  }

  lemma WordDiffers(s: Bytes, s1: nat, s2: nat, m: nat)
    requires Agree(s, s1, s2, m) && s2 + m + 4 <= |s| && Load32(s, s2 + m) != Load32(s, s1 + m)
    ensures var n := AgreeingBytes(Load32(s, s2 + m), Load32(s, s1 + m));
            Agree(s, s1, s2, m + n) && s2 + m + n < |s| && s[s1 + m + n] != s[s2 + m + n]
  {
    var a, b := s[s2 + m..s2 + m + 4], s[s1 + m..s1 + m + 4];
    AgreeingIsFirstDifference(a, b);
    var n := AgreeingBytes(LoadLE(a), LoadLE(b));
    assert s[s2 + m..s2 + m + n] == a[..n] && s[s1 + m..s1 + m + n] == b[..n];
    ExtendMatch(s, s1, s2, m, n);
  }

  /** FindMatchLength: word by word, then inside the first word that differs. */
  method FindMatchLength(s: Bytes, s1: nat, s2: nat) returns (matched: nat)
    requires s1 < s2 <= |s|
    ensures s2 + matched <= |s| && s[s1..s1 + matched] == s[s2..s2 + matched]
    ensures s2 + matched < |s| ==> s[s1 + matched] != s[s2 + matched]
  {
    hide Load32, AgreeingBytes, Agree;
    matched := 0;
    NoneAgree(s, s1, s2);
    while s2 + matched + 4 <= |s| && Load32(s, s2 + matched) == Load32(s, s1 + matched)
      invariant s2 + matched <= |s| && Agree(s, s1, s2, matched)
      decreases |s| - matched
    {
      WordAgrees(s, s1, s2, matched);
      matched := matched + 4;
    }
    if s2 + matched + 4 <= |s| {
      WordDiffers(s, s1, s2, matched);
      matched := matched + AgreeingBytes(Load32(s, s2 + matched), Load32(s, s1 + matched));
    } else {
      while s2 + matched < |s| && s[s1 + matched] == s[s2 + matched]
        invariant s2 + matched <= |s| && Agree(s, s1, s2, matched)
        decreases |s| - matched
      {
        ByteAgrees(s, s1, s2, matched);
        matched := matched + 1;
      }
    }
    AgreeMeans(s, s1, s2, matched);
  }

  lemma NoneAgree(s: Bytes, s1: nat, s2: nat)
    requires s1 < s2 <= |s|
    ensures Agree(s, s1, s2, 0)
  {
  }

  lemma ByteAgrees(s: Bytes, s1: nat, s2: nat, m: nat)
    requires Agree(s, s1, s2, m) && s2 + m < |s| && s[s1 + m] == s[s2 + m]
    ensures Agree(s, s1, s2, m + 1)
  {
    ExtendMatch(s, s1, s2, m, 1);
  }

  lemma AgreeMeans(s: Bytes, s1: nat, s2: nat, m: nat)
    requires Agree(s, s1, s2, m)
    ensures s1 < s2 && s2 + m <= |s| && s[s1..s1 + m] == s[s2..s2 + m]
  {
  }

  lemma ExtendMatch(s: Bytes, s1: nat, s2: nat, m: nat, n: nat)
    requires s1 < s2 && s2 + m + n <= |s| && s[s1..s1 + m] == s[s2..s2 + m]
    requires s[s1 + m..s1 + m + n] == s[s2 + m..s2 + m + n]
    ensures s[s1..s1 + m + n] == s[s2..s2 + m + n]
  {
    assert s[s1..s1 + m + n] == s[s1..s1 + m] + s[s1 + m..s1 + m + n];
    assert s[s2..s2 + m + n] == s[s2..s2 + m] + s[s2 + m..s2 + m + n];
  }

  /** A match in the input is a copy in the output, overlapping or not. */
  lemma MatchIsCopy(s: Bytes, cand: nat, ip: nat, len: nat)
    requires cand < ip && ip + len <= |s| && s[cand..cand + len] == s[ip..ip + len]
    ensures s[..ip + len] == CopyFromSelf(s[..ip], ip - cand, len)
  {
    var r := s[..ip + len];
    assert r[..ip] == s[..ip];
    forall i | ip <= i < |r| ensures r[i] == r[i - (ip - cand)] {
      assert s[ip..ip + len][i - ip] == s[cand..cand + len][i - ip];
    }
    CopyIsPeriodic(s[..ip], ip - cand, len, r);
  }

  // ----- The hash table -----

  /** Sizes the hash table may take: powers of two from 256 to 16384. */
  predicate TableSize(n: nat) {
    n in {256, 512, 1024, 2048, 4096, 8192, 16384}
  }

  method GetHashTable(inputSize: nat) returns (table: array<nat>)
    ensures fresh(table) && TableSize(table.Length)
    ensures forall i :: 0 <= i < table.Length ==> table[i] == 0
    ensures table.Length == MAX_HASH_TABLE_SIZE || inputSize <= table.Length
  {
    var htsize := 256;
    while htsize < MAX_HASH_TABLE_SIZE && htsize < inputSize
      invariant TableSize(htsize)
      decreases MAX_HASH_TABLE_SIZE - htsize
    {
      htsize := 2 * htsize;
    }
    table := new nat[htsize](_ => 0);
  }

  /** HashBytes: the high bits of a 32-bit product. */
  function HashBytes(bytes: nat, tableSize: nat): (h: nat)
    requires TableSize(tableSize)
    ensures h < tableSize
  {
    HighBits(bytes * 0x1e35a7bd % TWO_32, tableSize)
  }

  function HighBits(x: nat, tableSize: nat): (h: nat)
    requires x < TWO_32 && TableSize(tableSize)
    ensures h < tableSize
  {
    x / (TWO_32 / tableSize)
  }

  // ----- One fragment -----

  /** What has been emitted covers `n` bytes of the fragment, after `prior`, and is small. */
  ghost predicate Covers(input: Bytes, prior: Bytes, op: Bytes, n: nat)
    requires n <= |input|
  {
    Appends(op, prior, prior + input[..n]) && 61 * |op| <= 62 * n
  }

  /** All bytes are the same. */
  predicate OneValue(input: Bytes) {
    forall i :: 0 <= i < |input| ==> input[i] == input[0]
  }

  /** Every table entry is a position before `ip`. */
  ghost predicate TableBefore(table: array<nat>, ip: nat)
    reads table
  {
    forall i :: 0 <= i < table.Length ==> table[i] < ip
  }

  lemma EmitLiteralCovers(input: Bytes, prior: Bytes, op: Bytes, from: nat, to: nat, lit: Bytes)
    requires from < to <= |input| <= BLOCK_SIZE && Covers(input, prior, op, from)
    requires lit != [] && ParseElement(lit) == Some((Literal(input[from..to]), |lit|))
    ensures Appends(op + lit, prior, prior + input[..to])
  {
    var mid := prior + input[..from];
    assert prior + input[..to] == mid + input[from..to];
    AppendsOne(lit, Literal(input[from..to]), mid);
    AppendsThen(op, lit, prior, mid, prior + input[..to]);
  }

  /** A match after `ip` bytes, copied in the whole output so far. */
  lemma CopyInContext(input: Bytes, prior: Bytes, cand: nat, ip: nat, len: nat)
    requires cand < ip && ip + len <= |input| && input[cand..cand + len] == input[ip..ip + len]
    ensures prior + input[..ip + len] == CopyFromSelf(prior + input[..ip], ip - cand, len)
  {
    hide CopyFromSelf;
    var s := prior + input;
    var p := |prior|;
    assert s[..p + ip] == prior + input[..ip] && s[..p + ip + len] == prior + input[..ip + len];
    assert s[p + cand..p + cand + len] == input[cand..cand + len];
    assert s[p + ip..p + ip + len] == input[ip..ip + len];
    MatchIsCopy(s, p + cand, p + ip, len);
  }

  /** Hash of the four bytes at i. */
  function Hash(input: Bytes, i: nat, tableSize: nat): (h: nat)
    requires i + 4 <= |input| && TableSize(tableSize)
    ensures h < tableSize
  {
    HashBytes(Load32(input, i), tableSize)
  }

  predicate Within(input: Bytes, probes: seq<nat>) {
    forall k :: 0 <= k < |probes| ==> probes[k] + 4 <= |input|
  }

  /** The position that bucket h holds after the probes: the last of them with that hash, or what was there. */
  ghost function Bucket(input: Bytes, was: seq<nat>, probes: seq<nat>, h: nat): nat
    requires h < |was| && TableSize(|was|) && Within(input, probes)
  {
    if probes == [] then was[h]
    else
      var n := |probes| - 1;
      if Hash(input, probes[n], |was|) == h then probes[n] else Bucket(input, was, probes[..n], h)
  }

  /** The four bytes at p are those at the position that its bucket holds. */
  ghost predicate Hits(input: Bytes, was: seq<nat>, probes: seq<nat>, p: nat)
    requires TableSize(|was|) && p + 4 <= |input| && Within(input, probes)
  {
    var candidate := Bucket(input, was, probes, Hash(input, p, |was|));
    candidate + 4 <= |input| && Load32(input, p) == Load32(input, candidate)
  }

  /** Positions from `start` on, 1 apart for 32 probes, then 2 apart, and so on, none of which hit. */
  ghost predicate Misses(input: Bytes, was: seq<nat>, start: nat, probes: seq<nat>) {
    && TableSize(|was|) && Within(input, probes)
    && (probes != [] ==> probes[0] == start)
    && (forall k :: 0 <= k < |probes| - 1 ==> probes[k + 1] == probes[k] + (32 + k) / 32)
    && forall k :: 0 <= k < |probes| ==> !Hits(input, was, probes[..k], probes[k])
  }

  /** Where the probe after these is. */
  ghost function NextProbe(start: nat, probes: seq<nat>): nat {
    if probes == [] then start else probes[|probes| - 1] + (31 + |probes|) / 32
  }

  lemma OneMoreMiss(input: Bytes, was: seq<nat>, start: nat, probes: seq<nat>, p: nat)
    requires Misses(input, was, start, probes) && p == NextProbe(start, probes) && p + 4 <= |input|
    requires !Hits(input, was, probes, p)
    ensures Misses(input, was, start, probes + [p])
  {
    hide Hits;
    var more := probes + [p];
    forall k | 0 <= k < |more| ensures !Hits(input, was, more[..k], more[k]) {
      assert more[..k] == if k < |probes| then probes[..k] else probes;
    }
  }

  /** The table is what the probes have made of it. */
  ghost predicate Recorded(input: Bytes, was: seq<nat>, probes: seq<nat>, now: seq<nat>)
    requires TableSize(|was|) && Within(input, probes)
  {
    |now| == |was| && forall h :: 0 <= h < |was| ==> now[h] == Bucket(input, was, probes, h)
  }

  lemma RecordProbe(input: Bytes, was: seq<nat>, probes: seq<nat>, now: seq<nat>, p: nat)
    requires TableSize(|was|) && Within(input, probes) && p + 4 <= |input|
    requires Recorded(input, was, probes, now)
    ensures Recorded(input, was, probes + [p], now[Hash(input, p, |was|) := p])
  {
    assert (probes + [p])[..|probes|] == probes;
  }

  /** Step 1: scan forward, further apart as the search goes on, for four bytes seen before: the first probe
      that hits. Not found: the end of the scannable input is too close. */
  method FindMatch(input: Bytes, table: array<nat>, start: nat, ipLimit: nat)
    returns (found: bool, ip: nat, candidate: nat, ghost probes: seq<nat>)
    requires TableSize(table.Length) && start >= 1 && TableBefore(table, start)
    requires ipLimit + INPUT_MARGIN_BYTES == |input| && start + 4 <= |input|
    modifies table
    ensures Misses(input, old(table[..]), start, probes) && ip == NextProbe(start, probes)
    ensures found ==> start <= ip <= ipLimit && candidate < ip && Load32(input, ip) == Load32(input, candidate)
    ensures found ==> candidate == Bucket(input, old(table[..]), probes, Hash(input, ip, table.Length))
    ensures found ==> TableBefore(table, ip + 1)
    ensures !found ==> ip + (32 + |probes|) / 32 > ipLimit
  {
    hide Load32, HashBytes, Bucket, Hits, Misses, Recorded;
    var skip := 32;
    var nextIp := start;
    candidate := 0;
    ip := start;
    probes := [];
    ghost var was := table[..];
    NoProbes(input, was, start);
    while true
      invariant start <= nextIp && nextIp + 4 <= |input| && skip == 32 + |probes|
      invariant TableBefore(table, nextIp) && nextIp == NextProbe(start, probes)
      invariant TableSize(|was|) && Within(input, probes)
      invariant Misses(input, was, start, probes) && Recorded(input, was, probes, table[..])
      decreases |input| - nextIp
    {
      ip := nextIp;
      var hash := Hash(input, ip, table.Length);
      var between := skip / 32;
      skip := skip + 1;
      nextIp := ip + between;
      if nextIp > ipLimit {
        return false, ip, candidate, probes;
      }
      ghost var now := table[..];
      candidate := table[hash];
      assert candidate == now[hash] == Bucket(input, was, probes, hash) by { BucketIs(input, was, probes, now, hash); }
      table[hash] := ip;
      assert table[..] == now[hash := ip];
      if Load32(input, ip) == Load32(input, candidate) {
        return true, ip, candidate, probes;
      }
      NoHit(input, was, probes, ip);
      OneMoreMiss(input, was, start, probes, ip);
      RecordProbe(input, was, probes, now, ip);
      probes := probes + [ip];
    }
  }

  lemma NoProbes(input: Bytes, was: seq<nat>, start: nat)
    requires TableSize(|was|)
    ensures Misses(input, was, start, []) && Recorded(input, was, [], was)
  {
  }

  lemma BucketIs(input: Bytes, was: seq<nat>, probes: seq<nat>, now: seq<nat>, h: nat)
    requires TableSize(|was|) && Within(input, probes) && Recorded(input, was, probes, now) && h < |was|
    ensures h < |now| && now[h] == Bucket(input, was, probes, h)
  {
  }

  lemma NoHit(input: Bytes, was: seq<nat>, probes: seq<nat>, p: nat)
    requires TableSize(|was|) && Within(input, probes) && p + 4 <= |input|
    requires var c := Bucket(input, was, probes, Hash(input, p, |was|)); c + 4 <= |input| && Load32(input, p) != Load32(input, c)
    ensures !Hits(input, was, probes, p)
  {
  }

  /** Step 3: copies for as long as the bytes right after the last one were seen before. */
  method EmitMatches(input: Bytes, ghost prior: Bytes, op0: Bytes, table: array<nat>, ip0: nat, candidate0: nat, ipLimit: nat)
    returns (op: Bytes, ip: nat, exhausted: bool)
    requires TableSize(table.Length) && TableBefore(table, ip0 + 1) && |input| <= BLOCK_SIZE
    requires ipLimit + INPUT_MARGIN_BYTES == |input|
    requires candidate0 < ip0 <= ipLimit && Load32(input, ip0) == Load32(input, candidate0)
    requires Appends(op0, prior, prior + input[..ip0]) && 61 * |op0| <= 62 * ip0 + 61
    modifies table
    ensures ip0 < ip <= |input| && Covers(input, prior, op, ip)
    ensures !exhausted ==> ip < ipLimit && TableBefore(table, ip + 1)
    ensures OneValue(input) ==> exhausted && ip == |input| && 64 * |op| <= 64 * |op0| + 3 * |input| + 384
  {
    hide Load32, Appends, CopyFromSelf, HashBytes;
    op, ip := op0, ip0;
    var candidate: nat := candidate0;
    var again := true;
    exhausted := false;
    while again
      invariant ip0 <= ip <= |input| && (again ==> ip <= ipLimit) && (!again ==> ip0 < ip)
      invariant (again ==> !exhausted) && (!again && !exhausted ==> ip < ipLimit)
      invariant again ==> candidate < ip && Load32(input, ip) == Load32(input, candidate)
      invariant !exhausted ==> TableBefore(table, ip + 1)
      invariant Appends(op, prior, prior + input[..ip]) && 61 * |op| <= 62 * ip + 61
      invariant !again ==> 61 * |op| <= 62 * ip
      invariant OneValue(input) && again ==> op == op0
      invariant OneValue(input) && !again ==> exhausted && ip == |input| && 64 * |op| <= 64 * |op0| + 3 * |input| + 384
      decreases again, |input| - ip
    {
      var matched, piece := EmitMatch(input, prior, op, ip, candidate, ipLimit);
      op, ip := op + piece, ip + matched;
      again := false;
      if ip >= ipLimit {
        exhausted := true;
      } else {
        assert TableBefore(table, ip - 1);
        table[Hash(input, ip - 1, table.Length)] := ip - 1;
        assert TableBefore(table, ip);
        var curHash := Hash(input, ip, table.Length);
        candidate := table[curHash];
        table[curHash] := ip;
        again := Load32(input, ip) == Load32(input, candidate);
      }
    }
  }

  method EmitMatch(input: Bytes, ghost prior: Bytes, op: Bytes, ip: nat, candidate: nat, ipLimit: nat)
    returns (matched: nat, piece: Bytes)
    requires |input| <= BLOCK_SIZE && ipLimit + INPUT_MARGIN_BYTES == |input|
    requires candidate < ip <= ipLimit && Load32(input, ip) == Load32(input, candidate)
    requires Appends(op, prior, prior + input[..ip])
    ensures 4 <= matched <= |input| - ip && |piece| < matched && 64 * |piece| <= 3 * matched + 384
    ensures input[candidate..candidate + matched] == input[ip..ip + matched]
    ensures ip + matched < |input| ==> input[candidate + matched] != input[ip + matched]
    ensures Appends(op + piece, prior, prior + input[..ip + matched])
  {
    hide Appends, CopyFromSelf, Load32;
    var more := FindMatchLength(input, candidate + 4, ip + 4);
    matched := 4 + more;
    Load32Equal(input, ip, candidate);
    ExtendMatch(input, candidate, ip, 4, more);
    ghost var mid := prior + input[..ip];
    CopyInContext(input, prior, candidate, ip, matched);
    piece := EmitCopy(ip - candidate, matched, mid);
    AppendsThen(op, piece, prior, mid, prior + input[..ip + matched]);
  }

  /** CompressFragment: the elements decode to the fragment, within 62/61 of its size plus one. */
  method CompressFragment(input: Bytes, ghost prior: Bytes, table: array<nat>) returns (op: Bytes)
    requires |input| <= BLOCK_SIZE && TableSize(table.Length)
    requires forall i :: 0 <= i < table.Length ==> table[i] == 0
    modifies table
    ensures Appends(op, prior, prior + input)
    ensures 61 * |op| <= 62 * |input| + 61
    ensures OneValue(input) && |input| >= INPUT_MARGIN_BYTES + 2 ==> 64 * |op| <= 3 * |input| + 512
  {
    hide Appends, ParseElement, Load32, Misses, Bucket;
    op := [];
    var nextEmit := 0;
    NothingYet(input, prior);
    if |input| >= INPUT_MARGIN_BYTES {
      var ipLimit := |input| - INPUT_MARGIN_BYTES;
      var ip := 1;
      var done := false;
      while !done
        invariant 0 <= nextEmit <= |input| && Covers(input, prior, op, nextEmit)
        invariant !done ==> nextEmit < ip && ip + 4 <= |input| && TableBefore(table, ip)
        invariant OneValue(input) && ipLimit >= 2 ==>
                    if done then nextEmit == |input| && 64 * |op| <= 3 * |input| + 512
                    else op == [] && nextEmit == 0 && ip == 1 && forall i :: 0 <= i < table.Length ==> table[i] == 0
        decreases !done, |input| - ip
      {
        var found, candidate;
        ghost var was := table[..];
        ghost var probes;
        found, ip, candidate, probes := FindMatch(input, table, ip, ipLimit);
        if OneValue(input) && ipLimit >= 2 { FirstProbeHits(input, was, probes); }
        if !found {
          done := true;
        } else {
          var lit := EmitLiteral(input[nextEmit..ip]);
          EmitLiteralCovers(input, prior, op, nextEmit, ip, lit);
          op, ip, done := EmitMatches(input, prior, op + lit, table, ip, candidate, ipLimit);
          nextEmit := ip;
          ip := ip + 1;
        }
      }
    }
    if nextEmit < |input| {
      var lit := EmitLiteral(input[nextEmit..]);
      assert input[nextEmit..] == input[nextEmit..|input|];
      EmitLiteralCovers(input, prior, op, nextEmit, |input|, lit);
      op := op + lit;
    }
    assert input[..|input|] == input;
  }

  /** In a run of one byte the second position is already a match for the first. */
  lemma FirstProbeHits(input: Bytes, was: seq<nat>, probes: seq<nat>)
    requires OneValue(input) && |input| >= 5 && (forall h :: 0 <= h < |was| ==> was[h] == 0)
    requires Misses(input, was, 1, probes)
    ensures probes == []
  {
    Load32Equal(input, 1, 0);
    assert Hits(input, was, [], 1);
    assert probes[..0] == [];
  }

  /** A fragment of a run, small or not. */
  lemma RunFragment(input: Bytes, from: nat, n: nat, length: nat)
    requires OneValue(input) && from + n <= |input|
    requires 61 * length <= 62 * n + 61
    requires OneValue(input[from..from + n]) && n >= INPUT_MARGIN_BYTES + 2 ==> 64 * length <= 3 * n + 512
    ensures 64 * length <= 3 * n + 1152
  {
    var s := input[from..from + n];
    assert forall i :: 0 <= i < n ==> s[i] == input[from + i];
  }

  lemma NothingYet(input: Bytes, prior: Bytes)
    ensures Covers(input, prior, [], 0)
  {
    assert prior + input[..0] == prior;
  }

  // ----- Whole inputs -----

  /** A bound on what a run of one byte is compressed to. */
  function MaxRunLength(n: nat): nat {
    (3 * n + 1152 * (n / BLOCK_SIZE + 1) + 320) / 64
  }

  /** The lengths of all fragments together. */
  ghost predicate Sizes(n: nat, fragments: nat, body: nat, run: bool) {
    && fragments * BLOCK_SIZE < n + BLOCK_SIZE
    && 61 * body <= 62 * n + 61 * fragments
    && (run ==> 64 * body <= 3 * n + 1152 * fragments)
  }

  lemma TotalSize(n: nat, fragments: nat, header: nat, body: nat, run: bool)
    requires Sizes(n, fragments, body, run) && header <= 5
    ensures header + body <= MaxCompressedLength(n)
    ensures run ==> header + body <= MaxRunLength(n)
  {
    assert fragments <= n / BLOCK_SIZE + 1;
  }

  lemma NoSize(run: bool)
    ensures Sizes(0, 0, 0, run)
  {
  }

  lemma NextSize(done: nat, n: nat, fragments: nat, body: nat, piece: nat, run: bool)
    requires Sizes(done, fragments, body, run) && done == fragments * BLOCK_SIZE && 0 < n
    requires 61 * piece <= 62 * n + 61 && (run ==> 64 * piece <= 3 * n + 1152)
    ensures Sizes(done + n, fragments + 1, body + piece, run)
  {
  }

  /** Compress: a length header, then the input in fragments of at most 64 KB. */
  method Compress(input: Bytes) returns (compressed: Bytes)
    requires |input| < TWO_32
    ensures Uncompress(compressed) == Some(input)
    ensures |compressed| <= MaxCompressedLength(|input|)
    ensures OneValue(input) ==> |compressed| <= MaxRunLength(|input|)
  {
    hide Appends, OneValue, EncodeVarint32, Sizes, MaxCompressedLength, MaxRunLength;
    assert Sizes(0, 0, 0, OneValue(input)) by { NoSize(OneValue(input)); }
    var header := EncodeVarint32(|input|);
    var body: Bytes := [];
    var done: nat := 0;
    ghost var fragments := 0;
    NothingYet(input, []);
    assert [] + input[..0] == input[..0];
    while done < |input|
      invariant done <= |input| && Appends(body, [], input[..done])
      invariant Sizes(done, fragments, |body|, OneValue(input))
      invariant done < |input| ==> done == fragments * BLOCK_SIZE
    {
      var n := if |input| - done < BLOCK_SIZE then |input| - done else BLOCK_SIZE;
      var fragment := input[done..done + n];
      var table := GetHashTable(n);
      var piece := CompressFragment(fragment, input[..done], table);
      assert input[..done] + fragment == input[..done + n];
      AppendsThen(body, piece, [], input[..done], input[..done + n]);
      if OneValue(input) { RunFragment(input, done, n, |piece|); }
      NextSize(done, n, fragments, |body|, |piece|, OneValue(input));
      body, done := body + piece, done + n;
      fragments := fragments + 1;
    }
    assert input[..done] == input;
    compressed := header + body;
    RoundTrip(header, body, input);
    TotalSize(|input|, fragments, |header|, |body|, OneValue(input));
  }

  lemma RoundTrip(header: Bytes, body: Bytes, input: Bytes)
    requires |input| < TWO_32 && header == EncodeVarint32(|input|) && Appends(body, [], input)
    ensures Uncompress(header + body) == Some(input)
  {
    EncodeVarint32IsVarint(|input|);
    ReadVarint(|input|, 0, body);
    assert (header + body)[|header|..] == body;
  }
}
