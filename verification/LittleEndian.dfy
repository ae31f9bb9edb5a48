/**
 Natural numbers as little-endian byte sequences, and the schoolbook operations of src/Base58.cpp
 on them.  Every operation walks from the low byte to the high one (or, for division, back), so
 all value lemmas go by induction on the sequence and need no powers of 256.
 */
module LittleEndian {

  type u8 = x: int | 0 <= x < 256

  function Value(s: seq<u8>): nat {
    if s == [] then 0 else s[0] + 256 * Value(s[1..])
  }

  lemma SingleByte(x: u8)
    ensures Value([x]) == x
  {
    assert [x][1..] == [];
  }

  /** No unnecessary zeros at the high end. */
  predicate Minimal(s: seq<u8>) {
    s == [] || s[|s| - 1] != 0
  }

  /** The minimal representation. */
  function BytesOf(v: nat): (s: seq<u8>) {
    if v == 0 then [] else [v % 256] + BytesOf(v / 256)
  }

  lemma {:induction false} ValueOfBytesOf(v: nat)
    ensures Value(BytesOf(v)) == v && Minimal(BytesOf(v))
  {
    if v > 0 {
      ValueOfBytesOf(v / 256);
      assert BytesOf(v)[1..] == BytesOf(v / 256);
      if v < 256 {
        assert BytesOf(v) == [v];
      } else {
        assert BytesOf(v / 256) != [];
      }
    }
  }

  lemma {:induction false} MinimalIsPositive(s: seq<u8>)
    requires Minimal(s) && s != []
    ensures Value(s) > 0
  {
    if |s| > 1 {
      MinimalIsPositive(s[1..]);
    }
  }

  lemma {:induction false} MinimalIsUnique(s: seq<u8>)
    requires Minimal(s)
    ensures s == BytesOf(Value(s))
  {
    if s != [] {
      MinimalIsPositive(s);
      MinimalIsUnique(s[1..]);
      assert Value(s) % 256 == s[0] && Value(s) / 256 == Value(s[1..]);
      assert s == [s[0]] + s[1..];
    }
  }

  /** Removal of zeros at the high end; like the source, it always leaves one byte. */
  function Normalised(s: seq<u8>): (r: seq<u8>)
    requires s != []
    ensures r != [] && r <= s
    ensures |r| == 1 || Minimal(r)
  {
    if |s| > 1 && s[|s| - 1] == 0 then Normalised(s[..|s| - 1]) else s
  }

  lemma {:induction false} HighZero(s: seq<u8>)
    ensures Value(s + [0]) == Value(s)
  {
    if s == [] {
      assert Value([0]) == 0;
    } else {
      assert (s + [0])[1..] == s[1..] + [0];
      HighZero(s[1..]);
    }
  }

  lemma {:induction false} NormalisedValue(s: seq<u8>)
    requires s != []
    ensures Value(Normalised(s)) == Value(s)
  {
    if |s| > 1 && s[|s| - 1] == 0 {
      NormalisedValue(s[..|s| - 1]);
      HighZero(s[..|s| - 1]);
      assert s == s[..|s| - 1] + [0];
    }
  }

  /** The zero bytes at the high end. */
  function HighZeros(s: seq<u8>): (n: nat)
    ensures n <= |s|
  {
    if s == [] || s[|s| - 1] != 0 then 0 else 1 + HighZeros(s[..|s| - 1])
  }

  function Zeros(n: nat): (s: seq<u8>)
    ensures |s| == n && forall i :: 0 <= i < n ==> s[i] == 0
  {
    seq(n, _ => 0)
  }

  lemma {:induction false} HighZerosSplit(s: seq<u8>)
    ensures Minimal(s[..|s| - HighZeros(s)])
    ensures s == s[..|s| - HighZeros(s)] + Zeros(HighZeros(s))
    ensures Value(s[..|s| - HighZeros(s)]) == Value(s)
  {
    hide Value;
    if s != [] && s[|s| - 1] == 0 {
      var t := s[..|s| - 1];
      HighZerosSplit(t);
      HighZero(t);
      assert s == t + [0];
      ZeroBehind(s, t, HighZeros(t));
    } else {
      assert s[..|s|] == s && s + Zeros(0) == s;
    }
  }

  lemma ZeroBehind(s: seq<u8>, t: seq<u8>, n: nat)
    requires s == t + [0] && n <= |t| && t == t[..|t| - n] + Zeros(n)
    ensures s[..|s| - (n + 1)] == t[..|t| - n] && s == s[..|s| - (n + 1)] + Zeros(n + 1)
  {
    assert Zeros(n + 1) == Zeros(n) + [0];
  }

  lemma {:induction false} AppendedZeros(s: seq<u8>, n: nat)
    ensures Value(s + Zeros(n)) == Value(s)
    ensures Minimal(s) ==> HighZeros(s + Zeros(n)) == n
  {
    if n == 0 {
      assert s + Zeros(0) == s;
    } else {
      AppendedZeros(s, n - 1);
      HighZero(s + Zeros(n - 1));
      assert s + Zeros(n) == (s + Zeros(n - 1)) + [0];
      assert (s + Zeros(n))[..|s| + n - 1] == s + Zeros(n - 1);
    }
  }

  // ---------------------------------------------------------------------------------------------
  // Addition

  /** a + b + carry, where a has at least as many bytes as b; an overflow adds one byte. */
  function Sum(a: seq<u8>, b: seq<u8>, carry: nat): (r: seq<u8>)
    requires |a| >= |b| && carry <= 1
    decreases |a|
  {
    if a == [] then (if carry == 1 then [1] else [])
    else if b == [] then
      var t := a[0] + carry;
      [t % 256] + Sum(a[1..], [], t / 256)
    else
      var t := a[0] + b[0] + carry;
      [t % 256] + Sum(a[1..], b[1..], t / 256)
  }

  lemma {:induction false} SumValue(a: seq<u8>, b: seq<u8>, carry: nat)
    requires |a| >= |b| && carry <= 1
    ensures Value(Sum(a, b, carry)) == Value(a) + Value(b) + carry
    ensures |a| <= |Sum(a, b, carry)| <= |a| + 1
    decreases |a|
  {
    if a == [] {
      assert Value([1]) == 1;
    } else {
      var b0, bs := if b == [] then 0 else b[0], if b == [] then [] else b[1..];
      var t := a[0] + b0 + carry;
      SumValue(a[1..], bs, t / 256);
      assert Sum(a, b, carry) == [t % 256] + Sum(a[1..], bs, t / 256);
      assert Sum(a, b, carry)[1..] == Sum(a[1..], bs, t / 256);
    }
  }

  lemma {:induction false} SumWithoutCarry(a: seq<u8>)
    ensures Sum(a, [], 0) == a
  {
    if a != [] {
      SumWithoutCarry(a[1..]);
      assert a == [a[0]] + a[1..];
    }
  }

  // ---------------------------------------------------------------------------------------------
  // Multiplication by one byte

  function Product(a: seq<u8>, b: u8, carry: u8): (r: seq<u8>) {
    if a == [] then (if carry == 0 then [] else [carry])
    else
      ByteProductBound(a[0], b, carry);
      var t := a[0] * b + carry;
      [t % 256] + Product(a[1..], b, t / 256)
  }

  lemma ByteProductBound(x: u8, b: u8, carry: u8)
    ensures 0 <= x * b + carry < 65536
  {
    assert x * b <= 255 * b;
    assert 0 <= x * b;
  }

  lemma {:induction false} ProductValue(a: seq<u8>, b: u8, carry: u8)
    ensures Value(Product(a, b, carry)) == Value(a) * b + carry
    ensures |a| <= |Product(a, b, carry)| <= |a| + 1
  {
    if a == [] {
      assert carry != 0 ==> Value([carry]) == carry;
    } else {
      ByteProductBound(a[0], b, carry);
      var t := a[0] * b + carry;
      ProductValue(a[1..], b, t / 256);
      assert Product(a, b, carry)[1..] == Product(a[1..], b, t / 256);
      Distribute(a[0], Value(a[1..]), b);
    }
  }

  lemma Distribute(x: int, y: int, b: int)
    ensures (x + 256 * y) * b == x * b + 256 * (y * b)
  {
  }

  // ---------------------------------------------------------------------------------------------
  // Subtraction

  /** a - b for a single byte (or borrow) b. */
  function Less(a: seq<u8>, b: u8): (r: seq<u8>)
    requires Value(a) >= b
    ensures |r| == |a|
  {
    if a == [] then []
    else if a[0] >= b then [a[0] - b] + a[1..]
    else [255 - b + a[0] + 1] + Less(a[1..], 1)
  }

  lemma {:induction false} LessValue(a: seq<u8>, b: u8)
    requires Value(a) >= b
    ensures Value(Less(a, b)) == Value(a) - b
  {
    if a != [] {
      if a[0] < b {
        LessValue(a[1..], 1);
      }
      assert Less(a, b)[1..] == if a[0] >= b then a[1..] else Less(a[1..], 1);
    }
  }

  // ---------------------------------------------------------------------------------------------
  // Division by 58

  datatype Division = Division(quotient: seq<u8>, remainder: nat)

  /** Long division, one quotient byte per byte of the dividend. */
  function DividedBy58(a: seq<u8>): (d: Division)
    ensures |d.quotient| == |a| && d.remainder < 58
  {
    if a == [] then Division([], 0)
    else
      var high := DividedBy58(a[1..]);
      var t := high.remainder * 256 + a[0];
      Division([t / 58] + high.quotient, t % 58)
  }

  lemma {:induction false} DivisionValue(a: seq<u8>)
    ensures Value(DividedBy58(a).quotient) == Value(a) / 58
    ensures DividedBy58(a).remainder == Value(a) % 58
  {
    if a != [] {
      DivisionValue(a[1..]);
      var high := DividedBy58(a[1..]);
      var t := high.remainder * 256 + a[0];
      assert DividedBy58(a).quotient[1..] == high.quotient;
      assert Value(a) == 58 * Value(DividedBy58(a).quotient) + t % 58;
    }
  }

  /** Dividing a minimal number leaves at most one zero at the high end. */
  lemma {:induction false} QuotientTop(a: seq<u8>)
    requires Minimal(a) && Value(a) >= 58
    ensures var q := DividedBy58(a).quotient;
      a != [] && (q[|a| - 1] != 0 || (|a| >= 2 && q[|a| - 2] != 0))
  {
    if |a| == 1 {
      assert a == [a[0]] && a[1..] == [];
    } else {
      TopTwoQuotients(a);
    }
  }

  lemma {:induction false} TopTwoQuotients(a: seq<u8>)
    requires |a| >= 2
    ensures var n, q := |a|, DividedBy58(a).quotient;
      q[n - 1] == a[n - 1] / 58 && q[n - 2] == ((a[n - 1] as int % 58) * 256 + a[n - 2]) / 58
  {
    if |a| == 2 {
      assert a[1..][1..] == [];
    } else {
      TopTwoQuotients(a[1..]);
    }
  }
}
