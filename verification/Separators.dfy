/** Byte-string order, internal keys over it, and the short keys that separate blocks. */
module Separators {
  import opened Coding

  // ----- The bytewise order -----

  /** memcmp order, a prefix before what extends it. */
  predicate Less(a: Bytes, b: Bytes) {
    if a == [] then b != []
    else if b == [] then false
    else a[0] < b[0] || (a[0] == b[0] && Less(a[1..], b[1..]))
  }

  lemma {:induction false} LessTotal(a: Bytes, b: Bytes)
    ensures Less(a, b) || a == b || Less(b, a)
    ensures !(Less(a, b) && Less(b, a)) && !Less(a, a)
  {
    if a != [] { LessTotal(a[1..], a[1..]); }
    if a != [] && b != [] {
      LessTotal(a[1..], b[1..]);
      assert a == [a[0]] + a[1..] && b == [b[0]] + b[1..];
    }
  }

  lemma {:induction false} LessTrans(a: Bytes, b: Bytes, c: Bytes)
    requires Less(a, b) && Less(b, c)
    ensures Less(a, c)
  {
    if a != [] && b[0] == a[0] && c[0] == b[0] { LessTrans(a[1..], b[1..], c[1..]); }
  }

  /** The first byte that differs decides. */
  lemma {:induction false} LessAt(a: Bytes, b: Bytes, i: nat)
    requires i < |a| && i < |b| && a[..i] == b[..i] && a[i] < b[i]
    ensures Less(a, b)
    decreases i
  {
    if i > 0 {
      assert a[0] == a[..i][0] && b[0] == b[..i][0];
      assert a[1..][..i - 1] == a[..i][1..] && b[1..][..i - 1] == b[..i][1..];
      LessAt(a[1..], b[1..], i - 1);
    }
  }

  // ----- Shortening user keys -----

  /** At their first difference there is room for a byte between the two keys. */
  ghost predicate GapAt(start: Bytes, limit: Bytes, i: nat) {
    i < |start| && i < |limit| && start[..i] == limit[..i] && (start[i] as int) + 1 < limit[i]
  }

  ghost predicate HasGap(start: Bytes, limit: Bytes) {
    exists i: nat :: GapAt(start, limit, i)
  }

  lemma OneGap(start: Bytes, limit: Bytes, i: nat, d: nat)
    requires GapAt(start, limit, i) && d < |start| && d < |limit| && start[..d] == limit[..d] && start[d] != limit[d]
    ensures i == d
  {
  }

  lemma {:induction false} NothingShorterBetween(start: Bytes, limit: Bytes, i: nat, s: Bytes)
    requires i < |start| && i <= |limit| && start[..i] == limit[..i] && |s| <= i
    ensures Less(s, start) || Less(limit, s)
    decreases i
  {
    if s != [] {
      assert start[0] == start[..i][0] && limit[0] == limit[..i][0];
      assert start[1..][..i - 1] == start[..i][1..] && limit[1..][..i - 1] == limit[..i][1..];
      NothingShorterBetween(start[1..], limit[1..], i - 1, s[1..]);
    }
  }

  /** A key from `start` up to below `limit`: the shortest there is, where a byte fits in between. */
  method FindShortestSeparator(start: Bytes, limit: Bytes) returns (r: Bytes)
    ensures r == start || (Less(start, r) && Less(r, limit))
    ensures r != start <==> HasGap(start, limit)
    ensures forall i: nat :: GapAt(start, limit, i) ==> |r| == i + 1 <= |start|
    ensures r != start ==> forall s: Bytes :: |s| < |r| ==> Less(s, start) || Less(limit, s)
  {
    var diff := 0;
    while diff < |start| && diff < |limit| && start[diff] == limit[diff]
      invariant diff <= |start| && diff <= |limit| && start[..diff] == limit[..diff]
    {
      diff := diff + 1;
    }
    r := start;
    if diff < |start| && diff < |limit| {
      var b: int := start[diff];
      if b < 0xff && b + 1 < limit[diff] {
        r := start[..diff] + [b + 1];
        assert r[..diff] == start[..diff];
        assert GapAt(start, limit, diff);
        LessAt(start, r, diff);
        LessAt(r, limit, diff);
        forall s: Bytes | |s| < |r| ensures Less(s, start) || Less(limit, s) {
          NothingShorterBetween(start, limit, diff, s);
        }
      }
    }
    forall i: nat | GapAt(start, limit, i) ensures i == diff < |start| && diff < |limit| {
      if diff < |start| && diff < |limit| { OneGap(start, limit, i, diff); }
    }
  }

  lemma {:induction false} NothingShorterAbove(key: Bytes, i: nat, s: Bytes)
    requires i < |key| && (forall j :: 0 <= j < i ==> key[j] == 0xff) && |s| <= i
    ensures Less(s, key)
    decreases i
  {
    if s != [] { NothingShorterAbove(key[1..], i - 1, s[1..]); }
  }

  /** The shortest key at or above this one: cut after the first byte that can be raised. */
  method FindShortSuccessor(key: Bytes) returns (r: Bytes)
    ensures r == key || Less(key, r)
    ensures r == key <==> forall i :: 0 <= i < |key| ==> key[i] == 0xff
    ensures forall i :: 0 <= i < |key| && key[i] != 0xff ==> |r| <= i + 1
    ensures (forall i :: 0 <= i < |key| - 1 ==> key[i] == 0xff) ==> |r| == |key|
    ensures forall s: Bytes :: |s| < |r| ==> Less(s, key)
  {
    for i := 0 to |key|
      invariant forall j :: 0 <= j < i ==> key[j] == 0xff
    {
      if key[i] != 0xff {
        r := key[..i] + [key[i] + 1];
        assert r[..i] == key[..i];
        LessAt(key, r, i);
        LessTotal(key, r);
        forall s: Bytes | |s| < |r| ensures Less(s, key) { NothingShorterAbove(key, i, s); }
        return;
      }
    }
    r := key;
    forall s: Bytes | |s| < |r| ensures Less(s, key) { NothingShorterAbove(key, |key| - 1, s); }
  }

  // ----- Internal keys -----

  /** A user key and a packed sequence number and type that follow it. */
  datatype InternalKey = InternalKey(user: Bytes, tag: nat)

  /** kMaxSequenceNumber with the type used for seeking. */
  const MAX_TAG: nat := 0xFF_FFFF_FFFF_FFFF * 256 + 1

  predicate KeyLess(a: InternalKey, b: InternalKey) {
    Less(a.user, b.user) || (a.user == b.user && a.tag > b.tag)
  }

  lemma KeyTotal(a: InternalKey, b: InternalKey)
    ensures KeyLess(a, b) || a == b || KeyLess(b, a)
    ensures !(KeyLess(a, b) && KeyLess(b, a)) && !KeyLess(a, a)
  {
    LessTotal(a.user, b.user);
    LessTotal(a.user, a.user);
  }

  lemma KeyTrans(a: InternalKey, b: InternalKey, c: InternalKey)
    requires KeyLess(a, b) && KeyLess(b, c)
    ensures KeyLess(a, c)
  {
    if Less(a.user, b.user) && Less(b.user, c.user) { LessTrans(a.user, b.user, c.user); }
  }

  /** A separator is at or after the last key of a block and before the first of the next. */
  method SeparateInternal(start: InternalKey, limit: InternalKey) returns (r: InternalKey)
    ensures r == start || (Less(start.user, r.user) && Less(r.user, limit.user))
    ensures |r.user| < |start.user| <==> exists i: nat :: GapAt(start.user, limit.user, i) && i + 1 < |start.user|
  {
    var tmp := FindShortestSeparator(start.user, limit.user);
    if |tmp| < |start.user| && Less(start.user, tmp) {
      r := InternalKey(tmp, MAX_TAG);
      LessTotal(start.user, tmp);
    } else {
      r := start;
    }
  }

  method SuccessorInternal(key: InternalKey) returns (r: InternalKey)
    ensures r == key || KeyLess(key, r)
    ensures r == key <==> forall i :: 0 <= i < |key.user| - 1 ==> key.user[i] == 0xff
  {
    var tmp := FindShortSuccessor(key.user);
    if |tmp| < |key.user| && Less(key.user, tmp) {
      r := InternalKey(tmp, MAX_TAG);
    } else {
      r := key;
    }
  }
}
