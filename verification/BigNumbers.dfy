/** Base-256 arithmetic in place: the BigNumber class. */
module BigNumbers {
  import opened Coding

  const MAX_BIG_NUMBER: nat := 256

  // ----- Numbers as byte strings, least significant byte first -----

  lemma {:induction false} LoadSplit(s: Bytes, i: nat)
    requires i <= |s|
    ensures LoadLE(s) == LoadLE(s[..i]) + Pow256(i) * LoadLE(s[i..])
    decreases i
  {
    if i == 0 {
      assert s[..0] == [] && s[0..] == s;
    } else {
      LoadSplit(s[1..], i - 1);
      assert s[1..][..i - 1] == s[..i][1..] && s[1..][i - 1..] == s[i..];
      Regroup(Pow256(i - 1), LoadLE(s[i..]));
    }
  }

  lemma Regroup(p: nat, h: nat)
    ensures 256 * (p * h) == (256 * p) * h
  {
  }

  lemma AtLeastOnce(d: nat, p: nat)
    requires d > 0
    ensures p <= d * p
  {
  }

  lemma LoadSnoc(s: Bytes, i: nat)
    requires i < |s|
    ensures LoadLE(s[..i + 1]) == LoadLE(s[..i]) + s[i] * Pow256(i)
  {
    LoadSplit(s[..i + 1], i);
    assert s[..i + 1][..i] == s[..i] && s[..i + 1][i..] == [s[i]];
    LoadOne(s[i]);
  }

  lemma LoadOne(d: Byte)
    ensures LoadLE([d]) == d
  {
    assert [d][1..] == [];
  }

  lemma {:induction false} PowerPositive(n: nat)
    ensures Pow256(n) > 0
  {
    if n > 0 { PowerPositive(n - 1); }
  }

  /** No high byte is zero, except in a zero of one byte. */
  predicate Normal(s: Bytes) {
    |s| == 1 || (s != [] && s[|s| - 1] != 0)
  }

  lemma NormalAtLeast(s: Bytes)
    requires s != [] && s[|s| - 1] != 0
    ensures Pow256(|s| - 1) <= LoadLE(s)
  {
    var n: nat := |s| - 1;
    LoadSnoc(s, n);
    assert s[..n + 1] == s;
    AtLeastOnce(s[n], Pow256(n));
  }

  /** A normal number is as long as its value needs. */
  lemma NormalLength(s: Bytes, n: nat)
    requires s != [] && s[|s| - 1] != 0 && LoadLE(s) < Pow256(n)
    ensures |s| <= n
  {
    NormalAtLeast(s);
    if n < |s| {
      PowersGrow(n, |s| - 1);
    }
  }

  lemma {:induction false} PowersGrow(m: nat, n: nat)
    requires m <= n
    ensures Pow256(m) <= Pow256(n)
    decreases n - m
  {
    if m < n { PowersGrow(m, n - 1); PowerPositive(n - 1); }
  }

  /** Two byte strings without high zeros that stand for one number are one string. */
  lemma {:induction false} LoadInjective(s: Bytes, t: Bytes)
    requires |s| == |t| && LoadLE(s) == LoadLE(t)
    ensures s == t
  {
    if s != [] {
      assert s[0] == LoadLE(s) % 256 && t[0] == LoadLE(t) % 256;
      LoadInjective(s[1..], t[1..]);
      assert s == [s[0]] + s[1..] && t == [t[0]] + t[1..];
    }
  }

  /** High zeros do not count. */
  lemma {:induction false} LoadHighZeros(s: Bytes, n: nat)
    requires n <= |s| && forall i :: n <= i < |s| ==> s[i] == 0
    ensures LoadLE(s[..n]) == LoadLE(s)
    decreases |s| - n
  {
    if n < |s| {
      LoadSnoc(s, n);
      LoadHighZeros(s, n + 1);
    } else {
      assert s[..n] == s;
    }
  }

  /** No high zero byte: the shortest form of a number, empty for zero. */
  predicate Shortest(s: Bytes) {
    s == [] || s[|s| - 1] != 0
  }

  lemma {:induction false} ShortestUnique(s: Bytes, t: Bytes)
    requires Shortest(s) && Shortest(t) && LoadLE(s) == LoadLE(t)
    ensures s == t
  {
    if s == [] || t == [] {
      if s != [] { NormalAtLeast(s); PowerPositive(|s| - 1); }
      if t != [] { NormalAtLeast(t); PowerPositive(|t| - 1); }
    } else {
      LoadBelow(s);
      LoadBelow(t);
      NormalLength(s, |t|);
      NormalLength(t, |s|);
      LoadInjective(s, t);
    }
  }

  // ----- Steps of the loops -----

  /** One digit of a multiplication: what is carried on is what the digit does not hold. */
  lemma MultiplyStep(done: nat, carry: nat, p: nat, b: nat, low: nat, d: nat)
    requires done + carry * p == b * low
    ensures var t := carry + d * b;
            (done + t % 256 * p) + t / 256 * (256 * p) == b * (low + d * p)
  {
    var t := carry + d * b;
    var q, r := t / 256, t % 256;
    assert t == 256 * q + r;
    assert t * p == q * (256 * p) + r * p;
    assert t * p == carry * p + d * b * p;
    assert b * (low + d * p) == b * low + d * b * p;
  }

  lemma AddStep(done: nat, overflow: nat, p: nat, lowA: nat, lowB: nat, da: nat, db: nat)
    requires done + overflow * p == lowA + lowB
    ensures var t := da + db + overflow;
            (done + t % 256 * p) + t / 256 * (256 * p) == (lowA + da * p) + (lowB + db * p)
  {
    var t := da + db + overflow;
    var q, r := t / 256, t % 256;
    assert t == 256 * q + r;
    assert t * p == q * (256 * p) + r * p;
    assert t * p == da * p + db * p + overflow * p;
  }

  /** Borrowing from the next byte. */
  lemma BorrowStep(done: int, carry: nat, p: nat, d: nat, low: nat, b: int)
    requires done - carry * p == low - b
    ensures (done + (256 + d - carry) * p) - 1 * (256 * p) == (low + d * p) - b
  {
    assert (256 + d - carry) * p == 256 * p + d * p - carry * p;
  }

  class BigNumber {
    const data: array<Byte>
    var length: nat

    ghost predicate Valid()
      reads this
    {
      length <= data.Length == MAX_BIG_NUMBER
    }

    /** The bytes in use. */
    function Digits(): (s: Bytes)
      requires Valid()
      reads this, data
      ensures |s| == length
    {
      data[..length]
    }

    ghost function Value(): nat
      requires Valid()
      reads this, data
    {
      LoadLE(Digits())
    }

    constructor (source: Bytes)
      requires |source| <= MAX_BIG_NUMBER
      ensures Valid() && fresh(data) && Digits() == source
    {
      data := new Byte[MAX_BIG_NUMBER](i requires 0 <= i < 256 => if i < |source| then source[i] else 0);
      length := |source|;
      new;
      assert data[..length] == source;
    }

    /** -1, 0 or 1 as the number compares to 58; more than one byte counts as more. */
    method CompareTo58() returns (c: int)
      requires Valid() && length > 0
      ensures c >= 0 <==> length > 1 || data[0] >= 58
      ensures Normal(Digits()) ==> c == if Value() > 58 then 1 else if Value() == 58 then 0 else -1
    {
      if length > 1 {
        c := 1;
      } else if data[0] > 58 {
        c := 1;
      } else if data[0] < 58 {
        c := -1;
      } else {
        c := 0;
      }
      if Normal(Digits()) { CompareMeans(Digits()); }
    }

    method Normalise()
      requires Valid() && length > 0
      modifies `length
      ensures Valid() && 0 < length <= old(length) && Normal(Digits()) && Value() == old(Value())
    {
      ghost var all := data[..length];
      while length > 1 && data[length - 1] == 0
        invariant Valid() && 0 < length <= |all|
        invariant forall i :: length <= i < |all| ==> all[i] == 0
      {
        length := length - 1;
      }
      assert all[..length] == data[..length];
      LoadHighZeros(all, length);
    }

    method ModuloWith58() returns (r: Byte)
      requires Valid() && length > 0
      ensures r == Value() % 58
    {
      var x := length;
      var result: int := 0;
      assert data[x..length] == [];
      while x > 0
        invariant x <= length && 0 <= result < 58
        invariant result == LoadLE(data[x..length]) % 58
      {
        x := x - 1;
        ghost var high := LoadLE(data[x + 1..length]);
        assert data[x..length][1..] == data[x + 1..length];
        ModuloStep(high, data[x]);
        result := result * (256 % 58) % 58;
        result := (result + data[x] % 58) % 58;
      }
      assert data[0..length] == data[..length];
      r := result;
    }

    /** Long division, high byte first. */
    method LongDivide(ans: array<Byte>) returns (rest: nat)
      requires Valid() && 0 < length <= ans.Length && ans != data
      modifies ans
      ensures rest < 58 && Divided(Digits(), ans[..length], 0, rest)
    {
      hide Divided, LoadLE;
      ghost var all := Digits();
      var temp: int := 0;
      var x := length;
      DivideStart(all, ans[x..length]);
      while x > 0
        invariant x <= length && 0 <= temp < 58
        invariant Divided(all, ans[x..length], x, temp)
      {
        DivideNext(all, ans[x..length], x, temp);
        x := x - 1;
        ghost var high := ans[x + 1..length];
        temp := temp * 256 + data[x];
        ans[x] := temp / 58;
        assert ans[x..length] == [ans[x]] + high;
        temp := temp - (ans[x] as int) * 58;
      }
      assert ans[0..length] == ans[..length];
      rest := temp;
    }

    /** Division in place; `ans` receives the quotient before it is stored. */
    method DivideBy58(ans: array<Byte>)
      requires Valid() && 0 < length <= ans.Length && ans != data
      modifies this, data, ans
      ensures Valid() && length <= old(length) && Value() == old(Value()) / 58
      ensures old(Normal(Digits()) && (Value() >= 58 || Value() == 0)) ==> length > 0 && Normal(Digits())
    {
      ghost var all := Digits();
      if length == 1 && data[0] == 0 {
        assert all == [0];
        LoadOne(0);
        return;
      }
      if Normal(all) && LoadLE(all) == 0 { ZeroIsShort(all); }
      hide Divided, Normal, LoadLE;
      var rest := LongDivide(ans);
      ghost var quotient := ans[..length];
      Quotient(all, quotient, rest);
      StoreQuotient(ans);
      assert Digits() == quotient[..length];
      if length == |quotient| { assert quotient[..length] == quotient; }
    }

    /** Copy the quotient back, without a high zero byte. */
    method StoreQuotient(ans: array<Byte>)
      requires Valid() && 0 < length <= ans.Length && ans != data
      modifies this, data
      ensures Valid() && length == old(length) - (if ans[old(length) - 1] == 0 then 1 else 0)
      ensures Digits() == ans[..length] && LoadLE(ans[..length]) == LoadLE(ans[..old(length)])
    {
      hide LoadLE;
      ghost var quotient := ans[..length];
      if ans[length - 1] == 0 {
        length := length - 1;
        LoadHighZeros(quotient, length);
      }
      forall i | 0 <= i < length {
        data[i] := ans[i];
      }
      assert quotient[..length] == ans[..length];
      assert ans[..|quotient|] == quotient;
    }

    method SubtractUInt8(b: Byte)
      requires Valid() && length > 0 && b <= Value()
      modifies this, data
      ensures Valid() && 0 < length <= old(length) && Normal(Digits()) && Value() == old(Value()) - b
    {
      hide Borrowed, LoadLE, Normal;
      ghost var all := Digits();
      var carry: int := b;
      var x := 0;
      BorrowStart(all, b);
      while data[x] < carry
        invariant 0 <= x < length == |all| && 0 <= carry < 256
        invariant Borrowed(all, data[..length], x, carry, b)
        decreases length - x
      {
        ghost var now := data[..length];
        BorrowNext(all, now, x, carry, b);
        data[x] := 255 - carry + data[x] + 1;
        assert data[..length] == now[x := 256 + now[x] - carry];
        carry := 1;
        x := x + 1;
      }
      ghost var last := data[..length];
      BorrowLast(all, last, x, carry, b);
      data[x] := data[x] - carry;
      assert data[..length] == last[x := last[x] - carry];
      Normalise();
    }

    /** Multiplication byte by byte; a carry left over becomes one more byte. */
    method MultiplyByUInt8(b: Byte)
      requires Valid() && 0 < length < MAX_BIG_NUMBER
      modifies this, data
      ensures Valid() && 0 < length <= old(length) + 1 && Value() == old(Value()) * b
      ensures old(Normal(Digits())) ==> Normal(Digits())
    {
      ghost var all := Digits();
      if b == 0 {
        length := 1;
        data[0] := 0;
        assert data[..length] == [0];
        LoadOne(0);
        return;
      }
      if length == 1 && data[0] == 0 {
        assert all == [0];
        LoadOne(0);
        return;
      }
      hide Multiplied, LoadLE, Normal;
      var carry := MultiplyBytes(b);
      MultiplyLast(all, data[..length], carry, b);
      ghost var product := data[..length];
      if carry != 0 {
        length := length + 1;
        data[length - 1] := carry;
        assert data[..length] == product + [carry];
      }
    }

    method MultiplyBytes(b: Byte) returns (left: Byte)
      requires Valid()
      modifies data
      ensures Multiplied(old(Digits()), data[..length], length, left, b)
    {
      hide Multiplied, LoadLE, Times;
      ghost var all := Digits();
      var carry: int := 0;
      var x := 0;
      MultiplyStart(all, b);
      while x < length
        invariant x <= length && 0 <= carry < 256
        invariant Multiplied(all, data[..length], x, carry, b)
      {
        ghost var now := data[..length];
        MultiplyNext(all, now, x, carry, b);
        assert now[x] == data[x];
        carry := carry + Times(data[x], b);
        data[x] := carry % 256;
        assert data[..length] == now[x := carry % 256];
        carry := carry / 256;
        x := x + 1;
      }
      left := carry;
    }

    /** An overflow carried up through the bytes of the longer number. */
    method Propagate(over: int, from: nat, ghost all: Bytes, ghost more: Bytes) returns (overflow: int, x: nat)
      requires Valid() && |more| <= from <= length == |all| && 0 <= over <= 1
      requires Added(all, data[..length], more, from, over)
      modifies data
      ensures |more| <= x <= length && 0 <= overflow <= 1 && (overflow == 1 ==> x == length)
      ensures Added(all, data[..length], more, x, overflow)
    {
      hide Added, LoadLE;
      overflow, x := over, from;
      while overflow != 0 && x < length
        invariant |more| <= x <= length && 0 <= overflow <= 1
        invariant Added(all, data[..length], more, x, overflow)
      {
        ghost var now := data[..length];
        AddNext(all, now, more, x, overflow);
        data[x] := (data[x] as int + 1) % 256;
        overflow := if data[x] == 0 then 1 else 0;
        assert data[..length] == now[x := data[x]];
        x := x + 1;
      }
    }

    /** Addition byte by byte, then the overflow on through the longer number. */
    method Add(b: BigNumber)
      requires Valid() && b.Valid() && b.data != data && b != this
      requires length < MAX_BIG_NUMBER && b.length < MAX_BIG_NUMBER
      modifies this, data
      ensures Valid() && Value() == old(Value()) + old(b.Value())
      ensures old(length) <= length && old(b.length) <= length <= MAX_BIG_NUMBER
      ensures old(Shortest(Digits()) && Shortest(b.Digits()) && b.length > 0) ==> Shortest(Digits())
    {
      hide Added, LoadLE;
      ghost var was, more := Digits(), b.Digits();
      if length < b.length {
        forall i | length <= i < b.length {
          data[i] := 0;
        }
        length := b.length;
      }
      ghost var all := data[..length];
      AddStart(was, all, more);
      var overflow: int := 0;
      var x := 0;
      while x < b.length
        invariant x <= b.length <= length == |all| && 0 <= overflow <= 1 && b.data[..b.length] == more
        invariant Added(all, data[..length], more, x, overflow)
      {
        ghost var now := data[..length];
        AddNext(all, now, more, x, overflow);
        assert now[x] == data[x] && more[x] == b.data[x];
        var t := (b.data[x] as int) + overflow;
        data[x] := (data[x] + t) % 256;
        overflow := if data[x] < t then 1 else 0;
        assert data[..length] == now[x := data[x]];
        x := x + 1;
      }
      overflow, x := Propagate(overflow, x, all, more);
      ghost var sum := data[..length];
      AddLast(was, all, sum, more, x, overflow);
      if overflow != 0 {
        length := length + 1;
        data[length - 1] := 1;
        assert data[..length] == sum + [1];
      }
    }
  }

  // ----- Division -----

  /** The quotient of the high bytes of `all`, from x on, and what is left. */
  ghost predicate Divided(all: Bytes, high: Bytes, x: nat, rest: nat) {
    x <= |all| && |high| == |all| - x && LoadLE(all[x..]) == 58 * LoadLE(high) + rest
  }

  lemma DivideStart(all: Bytes, none: Bytes)
    requires none == []
    ensures Divided(all, none, |all|, 0)
  {
    assert all[|all|..] == [];
  }

  lemma DivideNext(all: Bytes, high: Bytes, x: nat, rest: nat)
    requires Divided(all, high, x, rest) && 0 < x && rest < 58
    ensures var t := rest * 256 + all[x - 1];
            t / 58 < 256 && Divided(all, [t / 58] + high, x - 1, t - t / 58 * 58)
  {
    var t := rest * 256 + all[x - 1];
    assert all[x - 1..][1..] == all[x..];
    assert ([t / 58] + high)[1..] == high;
  }

  lemma Quotient(all: Bytes, quotient: Bytes, rest: nat)
    requires all != [] && Divided(all, quotient, 0, rest) && rest < 58
    ensures LoadLE(quotient) == LoadLE(all) / 58
    ensures Normal(all) && LoadLE(all) >= 58 ==>
              if quotient[|all| - 1] == 0 then |all| > 1 && Normal(quotient[..|all| - 1]) else Normal(quotient)
  {
    assert all[0..] == all;
    hide LoadLE, Pow256;
    var n: nat := |all| - 1;
    if quotient[n] == 0 {
      LoadHighZeros(quotient, n);
      if n == 0 {
        EmptyIsZero(quotient[..n]);
      } else if n > 1 && quotient[n - 1] == 0 && Normal(all) {
        LoadHighZeros(quotient, n - 1);
        LoadBelow(quotient[..n - 1]);
        NormalAtLeast(all);
        OnePowerMore256(n - 1);
      }
    }
  }

  lemma ZeroIsShort(s: Bytes)
    requires Normal(s) && LoadLE(s) == 0
    ensures s == [0]
  {
    if |s| == 1 {
      LoadOne(s[0]);
    } else {
      NormalAtLeast(s);
      PowerPositive(|s| - 1);
    }
  }

  lemma EmptyIsZero(s: Bytes)
    requires s == []
    ensures LoadLE(s) == 0
  {
  }

  lemma OnePowerMore256(n: nat)
    ensures Pow256(n + 1) == 256 * Pow256(n)
  {
  }

  // ----- Subtraction -----

  /** Bytes below x are done; `carry` is still to be taken from byte x. */
  ghost predicate Borrowed(all: Bytes, now: Bytes, x: nat, carry: nat, b: nat) {
    && x < |all| == |now| && now[x..] == all[x..]
    && (x > 0 ==> carry == 1) && b <= LoadLE(all)
    && LoadLE(now[..x]) - carry * Pow256(x) == LoadLE(all[..x]) - b
  }

  lemma BorrowStart(all: Bytes, b: nat)
    requires all != [] && b <= LoadLE(all)
    ensures Borrowed(all, all, 0, b, b)
  {
    assert all[..0] == [];
  }

  lemma BorrowNext(all: Bytes, now: Bytes, x: nat, carry: nat, b: nat)
    requires Borrowed(all, now, x, carry, b) && now[x] < carry < 256
    ensures x + 1 < |all| && Borrowed(all, now[x := 256 + now[x] - carry], x + 1, 1, b)
  {
    var next := now[x := 256 + now[x] - carry];
    assert all[x] == all[x..][0] == now[x..][0] == now[x];
    BorrowStep(LoadLE(now[..x]), carry, Pow256(x), now[x], LoadLE(all[..x]), b);
    LoadSnoc(all, x);
    LoadSnoc(next, x);
    hide LoadLE;
    OnePowerMore256(x);
    hide Pow256;
    assert next[..x] == now[..x];
    assert next[x + 1..] == now[x..][1..] == all[x..][1..] == all[x + 1..];
    assert LoadLE(next[..x + 1]) - 1 * Pow256(x + 1) == LoadLE(all[..x + 1]) - b;
    if x + 1 == |all| {
      assert all[..x + 1] == all;
      LoadBelow(next[..x + 1]);
    }
  }

  lemma BorrowLast(all: Bytes, now: Bytes, x: nat, carry: nat, b: nat)
    requires Borrowed(all, now, x, carry, b) && carry <= now[x]
    ensures LoadLE(now[x := now[x] - carry]) == LoadLE(all) - b
  {
    var next := now[x := now[x] - carry];
    LoadSplit(all, x + 1);
    LoadSplit(next, x + 1);
    LoadSnoc(all, x);
    LoadSnoc(next, x);
    hide LoadLE, Pow256;
    assert next[..x] == now[..x];
    assert next[x + 1..] == now[x..][1..] == all[x..][1..] == all[x + 1..];
    assert all[x] == all[x..][0] == now[x..][0];
    Distribute(now[x], carry, Pow256(x));
  }

  lemma Distribute(a: int, b: int, p: int)
    ensures (a - b) * p == a * p - b * p
  {
  }

  // ----- Multiplication -----

  function Times(d: Byte, b: Byte): nat {
    (d as int) * (b as int)
  }

  ghost predicate Multiplied(all: Bytes, now: Bytes, x: nat, carry: nat, b: nat) {
    && x <= |all| == |now| && now[x..] == all[x..]
    && LoadLE(now[..x]) + carry * Pow256(x) == b * LoadLE(all[..x])
  }

  lemma MultiplyStart(all: Bytes, b: nat)
    ensures Multiplied(all, all, 0, 0, b)
  {
    assert all[..0] == [];
  }

  lemma MultiplyNext(all: Bytes, now: Bytes, x: nat, carry: nat, b: Byte)
    requires Multiplied(all, now, x, carry, b) && x < |all| && carry < 256
    ensures var t := carry + Times(now[x], b);
            t / 256 < 256 && Multiplied(all, now[x := t % 256], x + 1, t / 256, b)
  {
    assert all[x] == all[x..][0] == now[x..][0] == now[x];
    ProductFits(now[x], b);
    var t := carry + (now[x] as int) * (b as int);
    var next := now[x := t % 256];
    MultiplyStep(LoadLE(now[..x]), carry, Pow256(x), b, LoadLE(all[..x]), now[x]);
    LoadSnoc(all, x);
    LoadSnoc(next, x);
    OnePowerMore256(x);
    hide LoadLE, Pow256;
    assert next[..x] == now[..x];
    assert next[x + 1..] == now[x..][1..] == all[x..][1..] == all[x + 1..];
  }

  lemma ProductFits(d: Byte, b: Byte)
    ensures (d as int) * (b as int) <= 255 * 255
  {
    Bounded(d, b);
  }

  lemma Bounded(d: nat, b: nat)
    requires d <= 255 && b <= 255
    ensures d * b <= 255 * 255
  {
    assert d * b <= 255 * b;
  }

  lemma MultiplyLast(all: Bytes, now: Bytes, carry: Byte, b: Byte)
    requires Multiplied(all, now, |all|, carry, b) && all != [] && b > 0
    requires |all| > 1 || all[0] != 0
    ensures LoadLE(if carry == 0 then now else now + [carry]) == LoadLE(all) * b
    ensures Normal(all) ==> Normal(if carry == 0 then now else now + [carry])
  {
    var n := |all|;
    assert all[..n] == all && now[..n] == now;
    var result := now + [carry];
    LoadSnoc(result, n);
    assert result[..n] == now && result[..n + 1] == result;
    Commutes(b, LoadLE(all));
    if carry == 0 && Normal(all) && n > 1 {
      TopByteStays(all, now, b);
    }
  }

  lemma Commutes(a: nat, b: nat)
    ensures a * b == b * a
  {
  }

  lemma TopByteStays(all: Bytes, now: Bytes, b: nat)
    requires |all| == |now| > 0 && all[|all| - 1] != 0 && LoadLE(now) == b * LoadLE(all) && b > 0
    ensures now[|all| - 1] != 0
  {
    hide LoadLE, Pow256;
    var n: nat := |all| - 1;
    NormalAtLeast(all);
    AtLeastOnce(b, LoadLE(all));
    if now[n] == 0 {
      LoadHighZeros(now, n);
      LoadBelow(now[..n]);
    }
  }

  // ----- Addition -----

  function ByteAt(s: Bytes, x: nat): nat {
    if x < |s| then s[x] else 0
  }

  function Low(s: Bytes, x: nat): Bytes {
    if x <= |s| then s[..x] else s
  }

  ghost predicate Added(all: Bytes, now: Bytes, more: Bytes, x: nat, overflow: nat) {
    && x <= |all| == |now| && |more| <= |all| && now[x..] == all[x..]
    && LoadLE(now[..x]) + overflow * Pow256(x) == LoadLE(all[..x]) + LoadLE(Low(more, x))
  }

  lemma AddStart(was: Bytes, all: Bytes, more: Bytes)
    requires |was| <= |all| && |more| <= |all| && all[..|was|] == was && forall i :: |was| <= i < |all| ==> all[i] == 0
    ensures Added(all, all, more, 0, 0) && LoadLE(all) == LoadLE(was)
  {
    assert all[..0] == [] && Low(more, 0) == [];
    LoadHighZeros(all, |was|);
  }

  lemma LowSnoc(s: Bytes, x: nat)
    ensures LoadLE(Low(s, x + 1)) == LoadLE(Low(s, x)) + ByteAt(s, x) * Pow256(x)
  {
    if x < |s| {
      LoadSnoc(s, x);
    } else if x == |s| {
      assert s[..x] == s;
    }
  }

  lemma AddNext(all: Bytes, now: Bytes, more: Bytes, x: nat, overflow: nat)
    requires Added(all, now, more, x, overflow) && x < |all| && overflow <= 1
    ensures var t := now[x] + ByteAt(more, x) + overflow;
            Added(all, now[x := t % 256], more, x + 1, t / 256)
  {
    assert all[x] == all[x..][0] == now[x..][0] == now[x];
    var t := now[x] + ByteAt(more, x) + overflow;
    var next := now[x := t % 256];
    AddStep(LoadLE(now[..x]), overflow, Pow256(x), LoadLE(all[..x]), LoadLE(Low(more, x)), now[x], ByteAt(more, x));
    LowSnoc(more, x);
    LoadSnoc(all, x);
    LoadSnoc(next, x);
    OnePowerMore256(x);
    hide LoadLE, Pow256;
    assert next[..x] == now[..x];
    assert next[x + 1..] == now[x..][1..] == all[x..][1..] == all[x + 1..];
  }

  lemma AddLast(was: Bytes, all: Bytes, sum: Bytes, more: Bytes, x: nat, overflow: nat)
    requires Added(all, sum, more, x, overflow) && |more| <= x && overflow <= 1 && (overflow == 1 ==> x == |all|)
    requires LoadLE(all) == LoadLE(was) && |all| == (if |was| < |more| then |more| else |was|)
    requires |was| <= |all|
    ensures LoadLE(if overflow == 0 then sum else sum + [1]) == LoadLE(was) + LoadLE(more)
    ensures Shortest(was) && Shortest(more) && more != [] ==> Shortest(if overflow == 0 then sum else sum + [1])
  {
    hide LoadLE, Pow256;
    var n := |all|;
    assert Low(more, x) == more;
    if overflow == 1 {
      assert all[..n] == all && sum[..n] == sum;
      var result := sum + [1];
      LoadSnoc(result, n);
      assert result[..n] == sum && result[..n + 1] == result;
    } else {
      LoadSplit(all, x);
      LoadSplit(sum, x);
      if Shortest(was) && Shortest(more) && more != [] {
        TopOfSum(was, sum, more);
      }
    }
  }

  lemma TopOfSum(was: Bytes, sum: Bytes, more: Bytes)
    requires Shortest(was) && Shortest(more) && more != []
    requires |sum| == (if |was| < |more| then |more| else |was|)
    requires LoadLE(sum) == LoadLE(was) + LoadLE(more)
    ensures sum[|sum| - 1] != 0
  {
    hide LoadLE, Pow256;
    var n: nat := |sum| - 1;
    NormalAtLeast(if |was| < |more| then more else was);
    if sum[n] == 0 {
      LoadHighZeros(sum, n);
      LoadBelow(sum[..n]);
    }
  }

  lemma CompareMeans(s: Bytes)
    requires s != [] && Normal(s)
    ensures if |s| > 1 then LoadLE(s) > 58 else LoadLE(s) == s[0]
  {
    if |s| == 1 {
      assert s == [s[0]];
      LoadOne(s[0]);
    } else {
      NormalAtLeast(s);
      PowersGrow(1, |s| - 1);
      assert Pow256(1) == 256;
    }
  }

  lemma SameRemainder(a: nat, b: nat, k: nat)
    requires a == b + 58 * k
    ensures a % 58 == b % 58
  {
  }

  lemma RemainderOfSum(a: nat, b: nat)
    ensures (a % 58 + b % 58) % 58 == (a + b) % 58
  {
    SameRemainder(a + b, a % 58 + b % 58, a / 58 + b / 58);
  }

  lemma ModuloStep(high: nat, d: Byte)
    ensures (high % 58 * (256 % 58) % 58 + d % 58) % 58 == (d + 256 * high) % 58
  {
    var q, r := high / 58, high % 58;
    SameRemainder(256 * high, 24 * r, 256 * q + 4 * r);
    RemainderOfSum(24 * r, d);
    RemainderOfSum(256 * high, d);
  }
}
