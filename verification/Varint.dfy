/**
 The variable-length integers of the block index, read by include/CBlockIndex.h: base 128, most
 significant first, the high bit marking continuation and adding one, so that no number has two forms.
 */
module Varint {
  import opened LittleEndian
  import opened Word
  import opened Wrappers

  /** What the loop has accumulated after some bytes, in unbounded arithmetic. */
  function Accumulated(s: seq<u8>): nat {
    if s == [] then 0
    else
      var last := s[|s| - 1] as int;
      Accumulated(s[..|s| - 1]) * 128 + last % 128 + (if last >= 128 then 1 else 0)
  }

  /** All bytes but the last have the high bit. */
  predicate Terminated(s: seq<u8>) {
    s != [] && (forall i :: 0 <= i < |s| - 1 ==> s[i] as int >= 128) && s[|s| - 1] as int < 128
  }

  predicate Continuing(s: seq<u8>) {
    forall i :: 0 <= i < |s| ==> s[i] as int >= 128
  }

  /** The bytes Bitcoin Core writes for a number, short of the last. */
  function Leading(m: nat): (s: seq<u8>)
    ensures s != [] && Continuing(s)
  {
    if m < 128 then [(m + 128) as u8] else Leading(m / 128 - 1) + [(m % 128 + 128) as u8]
  }

  function Encode(n: nat): (s: seq<u8>)
    ensures Terminated(s)
  {
    if n < 128 then [n as u8] else Leading(n / 128 - 1) + [(n % 128) as u8]
  }

  // ---------------------------------------------------------------------------------------------
  // One number, one string

  lemma {:induction false} LeadingDecodes(m: nat)
    ensures Accumulated(Leading(m)) == m + 1
  {
    var s := Leading(m);
    if m < 128 {
      assert s[..0] == [];
    } else {
      LeadingDecodes(m / 128 - 1);
      assert s[..|s| - 1] == Leading(m / 128 - 1);
    }
  }

  lemma DecodeEncode(n: nat)
    ensures Accumulated(Encode(n)) == n
  {
    var s := Encode(n);
    if n < 128 {
      assert s[..0] == [];
    } else {
      LeadingDecodes(n / 128 - 1);
      assert s[..|s| - 1] == Leading(n / 128 - 1);
    }
  }

  lemma Split128(high: nat, low: nat)
    requires low < 128
    ensures (high * 128 + low) / 128 == high && (high * 128 + low) % 128 == low
  {
  }

  lemma LeadingStep(high: nat, low: nat)
    requires 1 <= high && low < 128
    ensures Leading(high * 128 + low) == Leading(high - 1) + [(low + 128) as u8]
  {
    Split128(high, low);
  }

  lemma {:induction false} LeadingEncodes(s: seq<u8>)
    requires s != [] && Continuing(s)
    ensures Accumulated(s) >= 1 && Leading(Accumulated(s) - 1) == s
    decreases |s|
  {
    hide Leading;
    var front, last := s[..|s| - 1], s[|s| - 1] as int;
    assert front + [s[|s| - 1]] == s;
    if front == [] {
      LeadingOne(last - 128);
    } else {
      LeadingEncodes(front);
      LeadingStep(Accumulated(front), last - 128);
    }
  }

  lemma LeadingOne(low: nat)
    requires low < 128
    ensures Leading(low) == [(low + 128) as u8]
  {
  }

  lemma EncodeStep(high: nat, low: nat)
    requires 1 <= high && low < 128
    ensures Encode(high * 128 + low) == Leading(high - 1) + [low as u8]
  {
    Split128(high, low);
  }

  lemma EncodeAfter(front: seq<u8>, low: nat)
    requires Continuing(front) && low < 128
    ensures Encode(Accumulated(front) * 128 + low) == front + [low as u8]
  {
    hide Leading;
    hide Encode;
    if front == [] {
      EncodeOne(low);
    } else {
      LeadingEncodes(front);
      EncodeStep(Accumulated(front), low);
    }
  }

  lemma EncodeDecode(s: seq<u8>)
    requires Terminated(s)
    ensures Encode(Accumulated(s)) == s
  {
    hide Encode;
    var front, last := s[..|s| - 1], s[|s| - 1];
    EncodeAfter(front, last as int);
    assert front + [last] == s;
  }

  lemma EncodeOne(low: nat)
    requires low < 128
    ensures Encode(low) == [low as u8]
  {
  }

  // ---------------------------------------------------------------------------------------------
  // Length and order

  /** The numbers written in fewer than k bytes. */
  function Shorter(k: nat): nat
    requires k >= 1
  {
    if k == 1 then 0 else Shorter(k - 1) + Power(k - 1)
  }

  function Power(k: nat): (p: nat)
    ensures p >= 1
  {
    if k == 0 then 1 else 128 * Power(k - 1)
  }

  /** The plain base-128 reading of the low seven bits. */
  function Base128(s: seq<u8>): nat {
    if s == [] then 0 else Base128(s[..|s| - 1]) * 128 + s[|s| - 1] as int % 128
  }

  lemma {:induction false} Base128Bound(s: seq<u8>)
    ensures Base128(s) < Power(|s|)
    decreases |s|
  {
    if s != [] {
      Base128Bound(s[..|s| - 1]);
    }
  }

  /** A continued prefix counts all the shorter strings, too. */
  lemma {:induction false} ContinuedValue(s: seq<u8>)
    requires Continuing(s)
    ensures Accumulated(s) * 128 == Shorter(|s| + 1) + Base128(s) * 128
    decreases |s|
  {
    if s != [] {
      ContinuedValue(s[..|s| - 1]);
      ShorterScales(|s|);
    }
  }

  lemma {:induction false} ShorterScales(k: nat)
    requires k >= 1
    ensures Shorter(k + 1) == Shorter(k) * 128 + 128
  {
    if k > 1 {
      ShorterScales(k - 1);
    }
  }

  /** A string's value is the number of shorter strings plus its rank among those of its length. */
  lemma ValueByLength(s: seq<u8>)
    requires Terminated(s)
    ensures Accumulated(s) == Shorter(|s|) + Base128(s)
    ensures Shorter(|s|) <= Accumulated(s) < Shorter(|s| + 1)
  {
    ContinuedValue(s[..|s| - 1]);
    Base128Bound(s);
  }

  lemma {:induction false} ShorterGrows(j: nat, k: nat)
    requires 1 <= j <= k
    ensures Shorter(j) <= Shorter(k)
    decreases k
  {
    if j < k {
      ShorterGrows(j, k - 1);
    }
  }

  lemma ShorterNext(k: nat)
    requires k >= 1
    ensures Shorter(k + 1) == Shorter(k) + Power(k)
  {
  }

  lemma NotEmpty(s: seq<u8>)
    requires Terminated(s)
    ensures |s| >= 1
  {
  }

  /** The strings of k bytes stand for exactly the Power(k) numbers after those of shorter strings. */
  lemma LengthByValue(n: nat, k: nat)
    requires k >= 1
    ensures |Encode(n)| == k <==> Shorter(k) <= n < Shorter(k) + Power(k)
  {
    hide *;
    ShorterNext(k);
    var s := Encode(n);
    DecodeEncode(n);
    ValueByLength(s);
    NotEmpty(s);
    if |s| < k {
      ShorterGrows(|s| + 1, k);
    } else if |s| > k {
      ShorterGrows(k + 1, |s|);
    }
  }

  /** Byte by byte, from the front. */
  predicate LexLess(s: seq<u8>, t: seq<u8>)
    requires |s| == |t|
  {
    s != [] && (s[0] < t[0] || (s[0] == t[0] && LexLess(s[1..], t[1..])))
  }

  predicate Before(s: seq<u8>, t: seq<u8>) {
    |s| < |t| || (|s| == |t| && LexLess(s, t))
  }

  lemma {:induction false} Base128FromFront(s: seq<u8>)
    requires s != []
    ensures Base128(s) == s[0] as int % 128 * Power(|s| - 1) + Base128(s[1..])
    decreases |s|
  {
    if |s| == 1 {
      assert s[..0] == [] && s[1..] == [];
    } else {
      var front := s[..|s| - 1];
      Base128FromFront(front);
      assert front[1..] == s[1..][..|s| - 2];
      Scale(s[0] as int % 128, Power(|s| - 2), Base128(front[1..]), s[|s| - 1] as int % 128);
    }
  }

  lemma Scale(a: nat, p: nat, b: nat, c: nat)
    ensures (a * p + b) * 128 + c == a * (128 * p) + (b * 128 + c)
  {
  }

  /** Among strings of one length with the same continuation bits, order is lexicographic. */
  lemma {:induction false} LexIsValue(s: seq<u8>, t: seq<u8>)
    requires |s| == |t| && forall i :: 0 <= i < |s| ==> (s[i] as int >= 128 <==> t[i] as int >= 128)
    ensures LexLess(s, t) <==> Base128(s) < Base128(t)
    decreases |s|
  {
    if s == [] {
      assert Base128(s) == Base128(t);
    } else {
      var a, b := s[0] as int % 128, t[0] as int % 128;
      assert s[0] < t[0] <==> a < b;
      assert s[0] == t[0] <==> a == b;
      assert LexLess(s, t) <==> a < b || (a == b && LexLess(s[1..], t[1..]));
      hide *;
      Base128FromFront(s);
      Base128FromFront(t);
      Base128Bound(s[1..]);
      Base128Bound(t[1..]);
      LexIsValue(s[1..], t[1..]);
      TwoDigits(a, b, Power(|s| - 1), Base128(s[1..]), Base128(t[1..]));
    }
  }

  lemma TwoDigits(a: nat, b: nat, p: nat, x: nat, y: nat)
    requires x < p && y < p
    ensures a * p + x < b * p + y <==> a < b || (a == b && x < y)
  {
    if a < b {
      Ahead(a, b, p, x, y);
    } else if b < a {
      Ahead(b, a, p, y, x);
    }
  }

  lemma Ahead(a: nat, b: nat, p: nat, x: nat, y: nat)
    requires x < p && a < b
    ensures a * p + x < b * p + y
  {
    Monotone(a + 1, b, p);
    assert (a + 1) * p == a * p + p;
  }

  lemma Monotone(a: nat, b: nat, p: nat)
    requires a <= b
    ensures a * p <= b * p
  {
  }

  /** Numeric order is: shorter first, then lexicographic. */
  lemma OrderOfValues(s: seq<u8>, t: seq<u8>)
    requires Terminated(s) && Terminated(t)
    ensures Before(s, t) <==> Accumulated(s) < Accumulated(t)
  {
    ValueByLength(s);
    ValueByLength(t);
    if |s| == |t| {
      LexIsValue(s, t);
    } else if |s| < |t| {
      ShorterGrows(|s| + 1, |t|);
    } else {
      ShorterGrows(|t| + 1, |s|);
    }
  }

  // ---------------------------------------------------------------------------------------------
  // 64 bits

  /** Up to nine bytes nothing is lost in 64 bits. */
  lemma NineBytesFit(s: seq<u8>)
    requires Terminated(s) && |s| <= 9
    ensures Accumulated(s) < TWO_TO_THE_64
  {
    ValueByLength(s);
    ShorterGrows(|s| + 1, 10);
    ShorterThanTen();
  }

  lemma ShorterThanTen()
    ensures Shorter(10) < TWO_TO_THE_64
  {
    assert Power(1) == 128;
    assert Power(2) == 0x4000;
    assert Power(3) == 0x20_0000;
    assert Power(4) == 0x1000_0000;
    assert Power(5) == 0x8_0000_0000;
    assert Power(6) == 0x400_0000_0000;
    assert Power(7) == 0x2_0000_0000_0000;
    assert Power(8) == 0x100_0000_0000_0000;
    assert Power(9) == 0x8000_0000_0000_0000;
    assert Shorter(4) == 128 + 0x4000 + 0x20_0000;
    assert Shorter(7) == Shorter(4) + 0x1000_0000 + 0x8_0000_0000 + 0x400_0000_0000;
    assert Shorter(10) == Shorter(7) + 0x2_0000_0000_0000 + 0x100_0000_0000_0000 + 0x8000_0000_0000_0000;
  }

  /** A string fits 64 bits exactly if it does not come after the string of the largest number. */
  lemma FitsUpToLargest(s: seq<u8>)
    requires Terminated(s)
    ensures Accumulated(s) < TWO_TO_THE_64 <==> !Before(Encode(TWO_TO_THE_64 - 1), s)
  {
    DecodeEncode(TWO_TO_THE_64 - 1);
    OrderOfValues(Encode(TWO_TO_THE_64 - 1), s);
  }

  /** So ten bytes can be too many: the largest ten-byte string wraps. */
  lemma TenBytesCanWrap()
    ensures var s: seq<u8> := [255, 255, 255, 255, 255, 255, 255, 255, 255, 127];
      Terminated(s) && Accumulated(s) >= TWO_TO_THE_64
  {
    var s: seq<u8> := [255, 255, 255, 255, 255, 255, 255, 255, 255, 127];
    ValueByLength(s);
    Power9();
    Base128FromFront(s);
    assert Base128(s) >= 127 * Power(9);
  }

  lemma Power9()
    ensures Power(9) == 0x8000_0000_0000_0000
  {
    assert Power(3) == 0x20_0000;
    assert Power(6) == 0x400_0000_0000;
  }

  /** The accumulator holds the value modulo 2^64, whatever the length. */
  lemma WrapStep(v: nat, digit: nat, carry: nat)
    requires digit < 128 && carry <= 1
    ensures ((v % TWO_TO_THE_64) * 128 % TWO_TO_THE_64 + digit + carry) % TWO_TO_THE_64
      == (v * 128 + digit + carry) % TWO_TO_THE_64
  {
    var q := v / TWO_TO_THE_64;
    assert v == q * TWO_TO_THE_64 + v % TWO_TO_THE_64;
    var r := v % TWO_TO_THE_64;
    var r128 := r * 128 % TWO_TO_THE_64;
    var q2 := r * 128 / TWO_TO_THE_64;
    assert v * 128 + digit + carry == (q * 128 + q2) * TWO_TO_THE_64 + (r128 + digit + carry);
    Wraps(q * 128 + q2, r128 + digit + carry);
  }

  /** Where a number that starts at a position ends; None if the data does. */
  function EndOf(data: seq<u8>, pos: nat): (end: Option<nat>)
    ensures end.Some? ==> pos < end.value <= |data| && Terminated(data[pos..end.value])
    decreases |data| - pos
  {
    if pos >= |data| then None
    else if data[pos] as int < 128 then Some(pos + 1)
    else
      var end := EndOf(data, pos + 1);
      assert end.Some? ==> forall i :: 1 <= i < |data[pos..end.value]| ==>
        data[pos..end.value][i] == data[pos + 1..end.value][i - 1];
      end
  }

  lemma EndStep(data: seq<u8>, pos: nat)
    requires EndOf(data, pos).Some?
    ensures pos < |data|
    ensures EndOf(data, pos) == if data[pos] as int < 128 then Some(pos + 1) else EndOf(data, pos + 1)
  {
  }

  /** The value so far and one more byte, in 64 bits. */
  lemma AccumulatedStep(data: seq<u8>, pos: nat, end: nat)
    requires pos <= end < |data|
    ensures var byte := data[end] as int;
      Accumulated(data[pos..end + 1]) % TWO_TO_THE_64 == Append(Accumulated(data[pos..end]) % TWO_TO_THE_64, byte)
  {
    var byte := data[end] as int;
    assert data[pos..end + 1][..end - pos] == data[pos..end];
    WrapStep(Accumulated(data[pos..end]), byte % 128, if byte >= 128 then 1 else 0);
  }

  /** Shifts seven more bits into the 64-bit accumulator. */
  function Append(value: nat, byte: nat): nat {
    (value * 128 % TWO_TO_THE_64 + byte % 128 + (if byte >= 128 then 1 else 0)) % TWO_TO_THE_64
  }

  /** The two statements of the loop do not wrap between them. */
  lemma AppendInTwoSteps(value: nat, byte: nat)
    ensures var or := value * 128 % TWO_TO_THE_64 + byte % 128;
      && or < TWO_TO_THE_64
      && Append(value, byte) == if byte >= 128 then (or + 1) % TWO_TO_THE_64 else or
  {
    assert value * 128 == value * 128 / TWO_TO_THE_64 * TWO_TO_THE_64 + value * 128 % TWO_TO_THE_64;
    Aligned(value, value * 128 / TWO_TO_THE_64, value * 128 % TWO_TO_THE_64);
  }

  /** After a shift the low seven bits are clear, so nothing carries out of them. */
  lemma Aligned(value: nat, q: nat, r: nat)
    requires value * 128 == q * TWO_TO_THE_64 + r && r < TWO_TO_THE_64
    ensures r + 128 <= TWO_TO_THE_64
  {
  }

  /** Reads one number; there has to be one. */
  method ReadVarint128(data: seq<u8>, pos: nat) returns (ret: nat, value: nat)
    requires EndOf(data, pos).Some?
    ensures ret == EndOf(data, pos).value
    ensures value == Accumulated(data[pos..ret]) % TWO_TO_THE_64
  {
    ret := pos;
    value := 0;
    var byte := 0x80;
    while byte >= 0x80
      invariant 0 <= byte < 256 && pos <= ret <= |data|
      invariant byte >= 0x80 ==> EndOf(data, ret) == EndOf(data, pos)
      invariant byte < 0x80 ==> EndOf(data, pos) == Some(ret)
      invariant value == Accumulated(data[pos..ret]) % TWO_TO_THE_64
      decreases |data| - ret, byte
    {
      hide *;
      EndStep(data, ret);
      AccumulatedStep(data, pos, ret);
      byte := data[ret] as int;
      AppendInTwoSteps(value, byte);
      value := value * 128 % TWO_TO_THE_64 + byte % 128;
      if byte >= 0x80 {
        value := (value + 1) % TWO_TO_THE_64;
      }
      ret := ret + 1;
    }
  }
}
