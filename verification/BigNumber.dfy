/**
 The `BigNumber` of src/Base58.cpp: at most 256 bytes, updated in place.

 A method states its effect twice over: `Bytes()` is the operation of module LittleEndian on the
 old bytes, and `Num()` is the arithmetic meaning of that operation.
 */
module BigNumber {
  import opened LittleEndian

  const MAX_BIG_NUMBER := 256

  datatype Comparison = LessThan | Equal | MoreThan

  class BigNumber {
    const data: array<u8>
    var length: nat

    ghost predicate Valid()
      reads this
    {
      data.Length == MAX_BIG_NUMBER && length < MAX_BIG_NUMBER
    }

    ghost function Bytes(): seq<u8>
      reads this, data
      requires Valid()
    {
      data[..length]
    }

    ghost function Num(): nat
      reads this, data
      requires Valid()
    {
      Value(Bytes())
    }

    constructor (source: seq<u8>, len: nat)
      requires len < MAX_BIG_NUMBER
      requires source == [] || |source| == len
      ensures Valid() && fresh(data)
      ensures Bytes() == if source == [] then Zeros(len) else source
    {
      data := new u8[MAX_BIG_NUMBER](i requires 0 <= i < MAX_BIG_NUMBER => if i < |source| then source[i] else 0);
      length := len;
    }

    method CompareTo58() returns (c: Comparison)
      requires Valid() && length > 0
      ensures length > 1 ==> c == MoreThan
      ensures length == 1 ==> c == if Num() > 58 then MoreThan else if Num() < 58 then LessThan else Equal
    {
      SingleByte(data[0]);
      assert length == 1 ==> Bytes() == [data[0]];
      if length > 1 {
        return MoreThan;
      }
      if data[0] > 58 {
        return MoreThan;
      } else if data[0] < 58 {
        return LessThan;
      }
      return Equal;
    }

    /** The longer number counts as more; among equal lengths, or without high zeros, the comparison is numeric. */
    method CompareToBigInt(b: BigNumber) returns (c: Comparison)
      requires Valid() && b.Valid()
      ensures length != b.length ==> c == if length > b.length then MoreThan else LessThan
      ensures length == b.length ==>
        c == if Num() > b.Num() then MoreThan else if Num() < b.Num() then LessThan else Equal
      ensures Minimal(Bytes()) && Minimal(b.Bytes()) ==>
        c == if Num() > b.Num() then MoreThan else if Num() < b.Num() then LessThan else Equal
    {
      if length > b.length {
        LongerIsMore(Bytes(), b.Bytes());
        return MoreThan;
      } else if length < b.length {
        LongerIsMore(b.Bytes(), Bytes());
        return LessThan;
      }
      var x := length;
      while x > 0
        invariant 0 <= x <= length == b.length
        invariant data[x..length] == b.data[x..length]
      {
        x := x - 1;
        if data[x] < b.data[x] {
          HigherByteDecides(Bytes(), b.Bytes(), x);
          return LessThan;
        } else if data[x] > b.data[x] {
          HigherByteDecides(b.Bytes(), Bytes(), x);
          return MoreThan;
        }
        assert data[x..length] == [data[x]] + data[x + 1..length];
        assert b.data[x..length] == [b.data[x]] + b.data[x + 1..length];
      }
      assert Bytes() == data[0..length] && b.Bytes() == b.data[0..length];
      return Equal;
    }

    /** a += b.  The caller keeps the result below 256 bytes, or the source's assertion fires. */
    method Add(b: BigNumber)
      requires Valid() && b.Valid() && data != b.data && this != b
      requires |Sum(Widened(Bytes(), b.length), b.Bytes(), 0)| < MAX_BIG_NUMBER
      modifies this, data
      ensures Valid()
      ensures Bytes() == Sum(Widened(old(Bytes()), b.length), b.Bytes(), 0)
      ensures Num() == old(Num()) + b.Num()
    {
      hide Sum;
      hide Value;
      ghost var wide := Widened(Bytes(), b.length);
      WidenedValue(Bytes(), b.length);
      SumValue(wide, b.Bytes(), 0);
      if length < b.length {
        Clear(data, length, b.length);
        length := b.length;
      }
      assert data[..length] == wide;
      var overflow := AddLowBytes(data, length, b.data, b.length);
      ghost var low := data[..b.length];
      overflow := PropagateCarry(data, b.length, length, overflow);
      assert data[..length] == low + data[b.length..length];
      if overflow == 1 {
        ghost var all := data[..length];
        length := length + 1;
        data[length - 1] := 1;
        assert Bytes() == all + [1];
      }
    }

    /** a *= b.  As for the sum, the caller keeps the result below 256 bytes. */
    method MultiplyBy(b: u8)
      requires Valid() && length > 0
      requires |Product(Bytes(), b, 0)| < MAX_BIG_NUMBER
      modifies this, data
      ensures Valid() && length > 0
      ensures Num() == old(Num()) * b
      ensures b == 0 ==> Bytes() == [0]
      ensures b != 0 && old(Minimal(Bytes())) ==> Minimal(Bytes())
      ensures length <= old(length) + 1
    {
      hide Product;
      hide Value;
      SingleByte(0);
      if b == 0 {
        length := 1;
        data[0] := 0;
        assert Bytes() == [0];
        return;
      }
      if length == 1 && data[0] == 0 {
        assert Bytes() == [0];
        return;
      }
      ghost var a := Bytes();
      ProductValue(a, b, 0);
      if Minimal(a) {
        ProductMinimal(a, b, 0);
      }
      var carry := MultiplyBytes(data, length, b);
      ghost var all := data[..length];
      if carry != 0 {
        length := length + 1;
        data[length - 1] := carry;
      }
      assert Bytes() == all + (if carry == 0 then [] else [carry]);
    }

    method Normalise()
      requires Valid() && length > 0
      modifies this`length
      ensures Valid() && length > 0
      ensures Bytes() == Normalised(old(Bytes()))
    {
      ghost var a := Bytes();
      while length > 1 && data[length - 1] == 0
        invariant Valid() && 0 < length <= |a| && data[..length] == a[..length]
        invariant Normalised(data[..length]) == Normalised(a)
      {
        assert data[..length][..length - 1] == data[..length - 1];
        length := length - 1;
      }
    }

    /** a -= b for a single byte b, then normalised. */
    method SubtractByte(b: u8)
      requires Valid() && length > 0 && Num() >= b
      modifies this, data
      ensures Valid() && length > 0
      ensures Bytes() == Normalised(Less(old(Bytes()), b))
      ensures Num() == old(Num()) - b
    {
      LessValue(Bytes(), b);
      NormalisedValue(Less(Bytes(), b));
      BorrowBytes(data, length, b);
      Normalise();
    }

    /**
     a -= b, then normalised.  The borrow out of the low bytes is taken from one further byte only,
     so the difference is right exactly when the low bytes need no borrow or that byte is not zero;
     otherwise the result is too large by a power of 256.
     */
    method SubtractBigInt(b: BigNumber)
      requires Valid() && b.Valid() && data != b.data && this != b
      requires 0 < length && b.length <= length && b.Num() <= Num()
      modifies this, data
      ensures Valid() && length > 0
      ensures Num() == old(Num()) - b.Num() +
        (if BorrowAbsorbed(old(Bytes()), b.Bytes()) then 0 else Power256(b.length + 1))
    {
      hide Value;
      ghost var a, other, m := Bytes(), b.Bytes(), b.length;
      assert data[..m] == a[..m];
      var carry := SubtractLowBytes(data, length, b.data, b.length);
      ghost var low := data[..m];
      assert data[m..length] == a[m..];
      BorrowNeeded(a, other, low, carry);
      if carry {
        data[b.length] := if data[b.length] == 0 then 255 else data[b.length] - 1;
        assert Bytes() == low + Borrowed(a[m..]);
      } else {
        assert Bytes() == low + a[m..];
      }
      DifferenceValue(a, other, low, carry, Bytes());
      NormalisedValue(Bytes());
      Normalise();
    }

    /** a /= 58.  `ans` is the caller's scratch memory; at most one high zero is trimmed. */
    method DivideBy58(ans: array<u8>)
      requires Valid() && length > 0
      requires ans.Length >= length && ans != data
      modifies this, data, ans
      ensures Valid()
      ensures Num() == old(Num()) / 58
      ensures old(length) - 1 <= length <= old(length)
      ensures old(Minimal(Bytes()) && Num() >= 58) ==> Minimal(Bytes()) && length > 0
      ensures old(length == 1 && Num() == 0) ==> Bytes() == old(Bytes())
    {
      hide Value;
      hide DividedBy58;
      hide Minimal;
      ghost var a := Bytes();
      Quotient(a);
      SingleByte(data[0]);
      assert length == 1 ==> a == [data[0]];
      if length == 1 && data[0] == 0 {
        return;
      }
      DivideBytes(data, length, ans);
      ghost var quotient := ans[..length];
      if ans[length - 1] == 0 {
        length := length - 1;
      }
      Copy(data, ans, length);
      assert Bytes() == TrimOne(quotient);
    }

    /** a % 58. */
    method Modulo58() returns (r: nat)
      requires Valid() && length > 0
      ensures r == Num() % 58
    {
      var result: nat := 0;
      var x := length;
      ghost var a := Bytes();
      assert a[x..] == [];
      while x > 0
        invariant 0 <= x <= length
        invariant result == Value(a[x..]) % 58
      {
        x := x - 1;
        assert a[x..][1..] == a[x + 1..] && a[x] == data[x];
        HornerStep(data[x], Value(a[x + 1..]));
        result := ((result * (256 % 58)) % 58 + data[x] % 58) % 58;
      }
      assert a[0..] == a;
      r := result;
    }
  }

  // ---------------------------------------------------------------------------------------------
  // The loops over the byte buffers

  /** The first x bytes of a buffer are `done`, the following ones still those of `source`. */
  ghost predicate Holds(buffer: array<u8>, done: seq<u8>, source: seq<u8>, x: int)
    reads buffer
  {
    && 0 <= x == |done| <= |source| <= buffer.Length
    && (forall k :: 0 <= k < x ==> buffer[k] == done[k])
    && (forall k :: x <= k < |source| ==> buffer[k] == source[k])
  }

  lemma HoldsAll(buffer: array<u8>, done: seq<u8>, source: seq<u8>, x: int)
    requires Holds(buffer, done, source, x)
    ensures buffer[..|source|] == done + source[x..]
  {
  }

  method Clear(data: array<u8>, from: nat, to: nat)
    requires from <= to <= data.Length
    modifies data
    ensures data[..] == old(data[..from]) + Zeros(to - from) + old(data[to..])
  {
    for i := from to to
      invariant forall k :: 0 <= k < data.Length && !(from <= k < i) ==> data[k] == old(data[k])
      invariant forall k :: from <= k < i ==> data[k] == 0
    {
      data[i] := 0;
    }
  }

  method Copy(data: array<u8>, source: array<u8>, n: nat)
    requires n <= data.Length && n <= source.Length && data != source
    modifies data
    ensures data[..n] == source[..n] && data[n..] == old(data[n..])
  {
    for i := 0 to n
      invariant forall k :: 0 <= k < i ==> data[k] == source[k]
      invariant forall k :: n <= k < data.Length ==> data[k] == old(data[k])
    {
      data[i] := source[i];
    }
  }

  method AddLowBytes(data: array<u8>, length: nat, b: array<u8>, bLength: nat) returns (overflow: nat)
    requires bLength <= length <= data.Length && bLength <= b.Length && b != data
    modifies data
    ensures overflow <= 1
    ensures data[bLength..] == old(data[bLength..])
    ensures data[..bLength] + Sum(data[bLength..length], [], overflow) == Sum(old(data[..length]), b[..bLength], 0)
  {
    hide Sum;
    ghost var a, other, done: seq<u8> := data[..length], b[..bLength], [];
    ghost var goal := Sum(a, other, 0);
    overflow := 0;
    var x := 0;
    assert a[0..] == a && Rest(other, 0) == other;
    while x < bLength
      invariant 0 <= x <= bLength && overflow <= 1
      invariant Holds(data, done, a, x)
      invariant forall k :: length <= k < data.Length ==> data[k] == old(data[k])
      invariant done + Sum(a[x..], Rest(other, x), overflow) == goal
    {
      SumStep(done, a, other, overflow, x, goal);
      var d := (data[x] as int + b[x] + overflow) % 256;
      overflow := if d < b[x] as int + overflow then 1 else 0;
      data[x] := d;
      done := done + [d];
      x := x + 1;
    }
    assert data[..bLength] == done && data[bLength..length] == a[x..];
  }

  /** The overflow travels up only as long as bytes wrap around to zero. */
  method PropagateCarry(data: array<u8>, from: nat, length: nat, carry: nat) returns (overflow: nat)
    requires from <= length <= data.Length && carry <= 1
    modifies data
    ensures overflow <= 1
    ensures data[..from] == old(data[..from])
    ensures data[from..length] + (if overflow == 1 then [1] else []) == Sum(old(data[from..length]), [], carry)
  {
    hide Sum;
    ghost var a, done: seq<u8> := data[from..length], [];
    ghost var goal := Sum(a, [], carry);
    overflow := carry;
    var x := from;
    assert a[0..] == a;
    while overflow == 1 && x < length
      invariant from <= x <= length && overflow <= 1 && |done| == x - from
      invariant forall k :: 0 <= k < from ==> data[k] == old(data[k])
      invariant forall k :: from <= k < x ==> data[k] == done[k - from]
      invariant forall k :: x <= k < length ==> data[k] == a[k - from]
      invariant done + Sum(a[x - from..], [], overflow) == goal
    {
      SumStep(done, a, [], overflow, x - from, goal);
      data[x] := (data[x] as int + 1) % 256;
      overflow := if data[x] == 0 then 1 else 0;
      done := done + [data[x]];
      x := x + 1;
    }
    SumEnd(a[x - from..], overflow);
    assert data[from..length] == done + a[x - from..];
  }

  method MultiplyBytes(data: array<u8>, length: nat, b: u8) returns (carry: u8)
    requires length <= data.Length
    modifies data
    ensures data[..length] + (if carry == 0 then [] else [carry]) == Product(old(data[..length]), b, 0)
  {
    hide Product;
    ghost var a, done: seq<u8> := data[..length], [];
    ghost var goal := Product(a, b, 0);
    carry := 0;
    var x := 0;
    assert a[0..] == a;
    while x < length
      invariant 0 <= x <= length && Holds(data, done, a, x)
      invariant done + Product(a[x..], b, carry) == goal
    {
      ProductStep(done, a, b, carry, x, goal);
      var t := carry + data[x] * b;
      data[x] := t % 256;
      carry := t / 256;
      done := done + [data[x]];
      x := x + 1;
    }
    ProductEnd(a[x..], b, carry);
    assert data[..length] == done;
  }

  method BorrowBytes(data: array<u8>, length: nat, b: u8)
    requires 0 < length <= data.Length && Value(data[..length]) >= b
    modifies data
    ensures data[..length] == Less(old(data[..length]), b)
  {
    hide Value;
    hide Less;
    ghost var a, done: seq<u8> := data[..length], [];
    ghost var goal := Less(a, b);
    var carry: u8 := b;
    var x := 0;
    assert a[0..] == a;
    while data[x] < carry
      invariant 0 <= x < length && Holds(data, done, a, x)
      invariant Value(a[x..]) >= carry && (x == 0 || carry > 0)
      invariant done + Less(a[x..], carry) == goal
      decreases length - x
    {
      LessStep(done, a, carry, x, goal);
      data[x] := 255 - carry + data[x] + 1;
      carry := 1;
      done := done + [data[x]];
      x := x + 1;
    }
    LessStep(done, a, carry, x, goal);
    data[x] := data[x] - carry;
    HoldsAll(data, done + [data[x]], a, x + 1);
  }

  method SubtractLowBytes(data: array<u8>, length: nat, b: array<u8>, bLength: nat) returns (carry: bool)
    requires bLength <= length <= data.Length && bLength <= b.Length && b != data
    modifies data
    ensures data[bLength..] == old(data[bLength..])
    ensures Value(data[..bLength]) + Value(b[..bLength]) ==
      Value(old(data[..bLength])) + (if carry then Power256(bLength) else 0)
  {
    ghost var a, other := data[..length], b[..bLength];
    carry := false;
    var x := 0;
    while x < bLength
      invariant 0 <= x <= bLength
      invariant forall k :: x <= k < data.Length ==> data[k] == old(data[k])
      invariant Value(data[..x]) + Value(other[..x]) == Value(a[..x]) + (if carry then Power256(x) else 0)
    {
      ghost var done := data[..x];
      ghost var was := carry;
      var t := (if carry then 1 else 0) + b[x] as int;
      carry := data[x] < t;
      ghost var before := data[x];
      data[x] := (data[x] as int - t) % 256;
      BorrowStep(done, other[..x], a[..x], data[x], other[x], before, was, carry);
      assert data[..x + 1] == done + [data[x]];
      assert other[..x + 1] == other[..x] + [other[x]] && a[..x + 1] == a[..x] + [before];
      x := x + 1;
    }
    assert other[..x] == other && a[..x] == old(data[..bLength]);
  }

  method DivideBytes(data: array<u8>, length: nat, ans: array<u8>)
    requires 0 < length <= data.Length && length <= ans.Length && ans != data
    modifies ans
    ensures ans[..length] == DividedBy58(data[..length]).quotient
  {
    ghost var a, quotient: seq<u8> := data[..length], [];
    var temp: nat := 0;
    var x := length;
    assert a[x..] == [];
    while x > 0
      invariant 0 <= x <= length && temp < 58
      invariant |quotient| == |a| - x && forall k :: x <= k < |a| ==> ans[k] == quotient[k - x]
      invariant DividedBy58(a[x..]) == Division(quotient, temp)
    {
      x := x - 1;
      assert a[x..][1..] == a[x + 1..];
      temp := temp * 256 + data[x] as int;
      ans[x] := temp / 58;
      quotient := [ans[x]] + quotient;
      temp := temp - ans[x] as int * 58;
    }
    assert a[0..] == a;
  }

  function Widened(a: seq<u8>, n: nat): (r: seq<u8>)
    ensures |r| >= n && |r| >= |a|
  {
    if |a| < n then a + Zeros(n - |a|) else a
  }

  lemma WidenedValue(a: seq<u8>, n: nat)
    ensures Value(Widened(a, n)) == Value(a)
  {
    if |a| < n {
      AppendedZeros(a, n - |a|);
    }
  }

  function Rest(s: seq<u8>, x: nat): seq<u8> {
    if x < |s| then s[x..] else []
  }

  lemma Reassociate(done: seq<u8>, d: u8, rest: seq<u8>)
    ensures (done + [d]) + rest == done + ([d] + rest)
  {
  }

  lemma SumStep(done: seq<u8>, a: seq<u8>, b: seq<u8>, carry: nat, x: nat, goal: seq<u8>)
    requires |b| <= |a| && x < |a| && carry <= 1
    requires done + Sum(a[x..], Rest(b, x), carry) == goal
    ensures var t := a[x] + (if x < |b| then b[x] else 0) + carry;
      (done + [t % 256]) + Sum(a[x + 1..], Rest(b, x + 1), t / 256) == goal
  {
    var t := a[x] + (if x < |b| then b[x] else 0) + carry;
    assert a[x..][1..] == a[x + 1..];
    assert x < |b| ==> b[x..][1..] == Rest(b, x + 1);
    assert Sum(a[x..], Rest(b, x), carry) == [t % 256] + Sum(a[x + 1..], Rest(b, x + 1), t / 256);
    Reassociate(done, t % 256, Sum(a[x + 1..], Rest(b, x + 1), t / 256));
  }

  lemma ProductStep(done: seq<u8>, a: seq<u8>, b: u8, carry: u8, x: nat, goal: seq<u8>)
    requires x < |a| && done + Product(a[x..], b, carry) == goal
    ensures 0 <= a[x] * b + carry < 65536
    ensures var t := a[x] * b + carry;
      (done + [t % 256]) + Product(a[x + 1..], b, t / 256) == goal
  {
    ByteProductBound(a[x], b, carry);
    var t := a[x] * b + carry;
    assert a[x..][1..] == a[x + 1..];
    Reassociate(done, t % 256, Product(a[x + 1..], b, t / 256));
  }

  lemma {:induction false} ValueOfConcatenation(s: seq<u8>, t: seq<u8>)
    ensures Value(s + t) == Value(s) + Power256(|s|) * Value(t)
  {
    if s == [] {
      assert s + t == t;
    } else {
      ValueOfConcatenation(s[1..], t);
      assert (s + t)[1..] == s[1..] + t;
      assert 256 * (Power256(|s| - 1) * Value(t)) == Power256(|s|) * Value(t);
    }
  }

  lemma BorrowStep(d: seq<u8>, b: seq<u8>, a: seq<u8>, dx: u8, bx: u8, ax: u8, was: bool, carry: bool)
    requires |d| == |b| == |a|
    requires Value(d) + Value(b) == Value(a) + (if was then Power256(|a|) else 0)
    requires dx as int + bx + (if was then 1 else 0) == ax as int + (if carry then 256 else 0)
    ensures Value(d + [dx]) + Value(b + [bx]) == Value(a + [ax]) + (if carry then Power256(|a| + 1) else 0)
  {
    hide Value;
    hide Power256;
    hide Weighted;
    AppendedValue(d, dx);
    AppendedValue(b, bx);
    AppendedValue(a, ax);
    Scale(Power256(|a|), dx, bx, was, ax, carry);
    NextPower(|a|);
  }

  /** A byte at a place of that weight. */
  function Weighted(p: int, x: int): int {
    p * x
  }

  lemma AppendedValue(s: seq<u8>, x: u8)
    ensures Value(s + [x]) == Value(s) + Weighted(Power256(|s|), x)
  {
    ValueOfConcatenation(s, [x]);
    SingleByte(x);
  }

  lemma NextPower(n: nat)
    ensures Power256(n + 1) == 256 * Power256(n)
  {
  }

  lemma Scale(p: int, d: int, b: int, was: bool, a: int, carry: bool)
    requires d + b + (if was then 1 else 0) == a + (if carry then 256 else 0)
    ensures Weighted(p, d) + Weighted(p, b) + (if was then p else 0) == Weighted(p, a) + (if carry then 256 * p else 0)
  {
    hide Weighted;
    var w, c := if was then 1 else 0, if carry then 256 else 0;
    Distributes(p, d + b, w);
    Distributes(p, d, b);
    Distributes(p, a, c);
    WeightOf(p);
  }

  lemma Distributes(p: int, x: int, y: int)
    ensures Weighted(p, x + y) == Weighted(p, x) + Weighted(p, y)
  {
  }

  lemma WeightOf(p: int)
    ensures Weighted(p, 0) == 0 && Weighted(p, 1) == p && Weighted(p, 256) == 256 * p
  {
  }

  /** Whether one byte is enough to absorb the borrow out of the bytes b covers. */
  ghost predicate BorrowAbsorbed(a: seq<u8>, b: seq<u8>)
    requires |b| <= |a|
  {
    Value(a[..|b|]) >= Value(b) || (|b| < |a| && a[|b|] != 0)
  }

  /** 65536 minus 1 comes out as 131071. */
  lemma LostBorrow()
    ensures var a: seq<u8>, b: seq<u8> := [0, 0, 1], [1];
      !BorrowAbsorbed(a, b) && Value(a) == 65536 && Value(a) - Value(b) + Power256(|b| + 1) == 131071
  {
    var a: seq<u8> := [0, 0, 1];
    assert a[1..] == [0, 1] && a[1..][1..] == [1] && a[..1] == [0];
    SingleByte(0);
    SingleByte(1);
    assert Value(a[1..]) == 256;
    assert Power256(1) == 256;
  }

  lemma BorrowNeeded(a: seq<u8>, b: seq<u8>, low: seq<u8>, carry: bool)
    requires |b| <= |a| && |low| == |b| && Value(a) >= Value(b)
    requires Value(low) + Value(b) == Value(a[..|b|]) + (if carry then Power256(|b|) else 0)
    ensures carry <==> Value(a[..|b|]) < Value(b)
    ensures carry ==> |b| < |a|
  {
    ValueBelow(low);
    if |a| == |b| {
      assert a[..|b|] == a;
    }
  }

  /** One taken from the lowest byte, wrapping around without going further. */
  function Borrowed(s: seq<u8>): (r: seq<u8>)
    requires s != []
    ensures |r| == |s|
  {
    s[0 := if s[0] == 0 then 255 else s[0] - 1]
  }

  lemma BorrowedValue(s: seq<u8>)
    requires s != []
    ensures Value(Borrowed(s)) == Value(s) + (if s[0] == 0 then 255 else -1)
  {
    assert Borrowed(s)[1..] == s[1..];
  }

  lemma Shift(p: int, h: int, d: int)
    ensures p * (h + d) == p * h + d * p
  {
  }

  lemma DifferenceValue(a: seq<u8>, b: seq<u8>, low: seq<u8>, carry: bool, result: seq<u8>)
    requires |b| <= |a| && |low| == |b| && Value(a) >= Value(b)
    requires carry ==> |b| < |a|
    requires carry <==> Value(a[..|b|]) < Value(b)
    requires Value(low) + Value(b) == Value(a[..|b|]) + (if carry then Power256(|b|) else 0)
    requires !carry ==> result == low + a[|b|..]
    requires carry ==> result == low + Borrowed(a[|b|..])
    ensures Value(result) == Value(a) - Value(b) + (if BorrowAbsorbed(a, b) then 0 else Power256(|b| + 1))
  {
    hide Value;
    hide Power256;
    var high := a[|b|..];
    var p := Power256(|b|);
    assert a == a[..|b|] + high;
    ValueOfConcatenation(a[..|b|], high);
    NextPower(|b|);
    if carry {
      ValueOfConcatenation(low, Borrowed(high));
      BorrowedValue(high);
      assert high[0] == a[|b|];
      Shift(p, Value(high), if high[0] == 0 then 255 else -1);
    } else {
      ValueOfConcatenation(low, high);
    }
  }

  lemma {:induction false} ProductMinimal(a: seq<u8>, b: u8, carry: u8)
    requires b != 0 && Minimal(a)
    ensures Minimal(Product(a, b, carry))
  {
    if a != [] {
      ByteProductBound(a[0], b, carry);
      var t := a[0] * b + carry;
      var rest := Product(a[1..], b, t / 256);
      ProductMinimal(a[1..], b, t / 256);
      ProductValue(a[1..], b, t / 256);
      if |a| == 1 {
        assert a[0] * b > 0;
        assert rest == if t / 256 == 0 then [] else [t / 256];
      }
      assert Product(a, b, carry) == [t % 256] + rest;
    }
  }

  lemma ProductEnd(a: seq<u8>, b: u8, carry: u8)
    requires a == []
    ensures Product(a, b, carry) == if carry == 0 then [] else [carry]
  {
  }

  lemma SumEnd(a: seq<u8>, carry: nat)
    requires carry <= 1 && (carry == 1 ==> a == [])
    ensures Sum(a, [], carry) == if carry == 1 then [1] else a
  {
    if carry == 0 {
      SumWithoutCarry(a);
    }
  }

  lemma LessStep(done: seq<u8>, a: seq<u8>, carry: u8, x: nat, goal: seq<u8>)
    requires x <= |a| && a != [] && Value(a[x..]) >= carry
    requires x == 0 || carry > 0
    requires done + Less(a[x..], carry) == goal
    ensures x < |a|
    ensures a[x] >= carry ==> (done + [a[x] - carry]) + a[x + 1..] == goal
    ensures a[x] < carry ==> x + 1 < |a| && Value(a[x + 1..]) >= 1
    ensures a[x] < carry ==> (done + [255 - carry + a[x] + 1]) + Less(a[x + 1..], 1) == goal
  {
    assert x < |a| ==> a[x..][1..] == a[x + 1..];
    if a[x] >= carry {
      Reassociate(done, a[x] - carry, a[x + 1..]);
    } else {
      Reassociate(done, 255 - carry + a[x] + 1, Less(a[x + 1..], 1));
    }
  }

  /** At most one zero removed from the high end. */
  function TrimOne(s: seq<u8>): seq<u8>
    requires s != []
  {
    if s[|s| - 1] == 0 then s[..|s| - 1] else s
  }

  lemma TrimValue(s: seq<u8>)
    requires s != []
    ensures Value(TrimOne(s)) == Value(s)
  {
    if s[|s| - 1] == 0 {
      HighZero(s[..|s| - 1]);
      assert s == s[..|s| - 1] + [0];
    }
  }

  lemma TrimMinimal(s: seq<u8>)
    requires s != [] && (s[|s| - 1] != 0 || (|s| >= 2 && s[|s| - 2] != 0))
    ensures TrimOne(s) != [] && Minimal(TrimOne(s))
  {
  }

  lemma Quotient(a: seq<u8>)
    requires a != []
    ensures var q := TrimOne(DividedBy58(a).quotient);
      && Value(q) == Value(a) / 58 && |a| - 1 <= |q| <= |a|
      && (Minimal(a) && Value(a) >= 58 ==> q != [] && Minimal(q))
  {
    hide Value;
    hide DividedBy58;
    hide Minimal;
    DivisionValue(a);
    TrimValue(DividedBy58(a).quotient);
    if Minimal(a) && Value(a) >= 58 {
      QuotientTop(a);
      TrimMinimal(DividedBy58(a).quotient);
    }
  }

  lemma HornerStep(x: int, y: int)
    ensures (x + 256 * y) % 58 == (((y % 58) * (256 % 58)) % 58 + x % 58) % 58
  {
    var q, r := y / 58, y % 58;
    assert x + 256 * y == x + 24 * r + 58 * (4 * r + 256 * q);
  }

  lemma {:induction false} ValueAtLeast(s: seq<u8>)
    requires Minimal(s) && s != []
    ensures Value(s) >= Power256(|s| - 1)
  {
    if |s| > 1 {
      ValueAtLeast(s[1..]);
    }
  }

  function Power256(n: nat): nat {
    if n == 0 then 1 else 256 * Power256(n - 1)
  }

  lemma {:induction false} ValueBelow(s: seq<u8>)
    ensures Value(s) < Power256(|s|)
  {
    if s != [] {
      ValueBelow(s[1..]);
    }
  }

  lemma {:induction false} PowerGrows(m: nat, n: nat)
    requires m <= n
    ensures Power256(m) <= Power256(n)
    decreases n
  {
    if m < n {
      PowerGrows(m, n - 1);
    }
  }

  lemma LongerIsMore(a: seq<u8>, b: seq<u8>)
    requires |a| > |b|
    ensures Minimal(a) ==> Value(a) > Value(b)
  {
    if Minimal(a) {
      ValueAtLeast(a);
      ValueBelow(b);
      PowerGrows(|b|, |a| - 1);
    }
  }

  lemma {:induction false} HigherByteDecides(a: seq<u8>, b: seq<u8>, x: nat)
    requires |a| == |b| && x < |a| && a[x] < b[x] && a[x + 1..] == b[x + 1..]
    ensures Value(a) < Value(b)
  {
    if x == 0 {
    } else {
      assert a[1..][x..] == a[x + 1..] && b[1..][x..] == b[x + 1..];
      HigherByteDecides(a[1..], b[1..], x - 1);
    }
  }
}
