/**
 The imperative codec of src/Base58.cpp, proved against the functions of module Base58.
 */
module Base58Codec {
  import opened Basics
  import opened LittleEndian
  import opened BigNumber
  import opened Base58

  // ---------------------------------------------------------------------------------------------
  // Decoding

  function PowerOf(a: u8, n: nat): nat {
    if n == 0 then 1 else PowerOf(a, n - 1) * a
  }

  /** bi = a^b, by repeated multiplication.  The result has to fit, or the source's assertion fires. */
  method FromPower(bi: BigNumber, a: u8, b: u8)
    requires bi.Valid() && PowerOf(a, b) < Power256(255)
    modifies bi, bi.data
    ensures bi.Valid() && bi.length > 0
    ensures bi.Num() == PowerOf(a, b) && (a > 0 ==> Minimal(bi.Bytes()))
  {
    hide Value;
    hide PowerOf;
    hide Power256;
    hide Product;
    SingleByte(1);
    PowerStep(a, 0);
    bi.length := 1;
    bi.data[0] := 1;
    assert bi.Bytes() == [1];
    for x := 0 to b
      invariant bi.Valid() && bi.length > 0
      invariant bi.Num() == PowerOf(a, x) && (a > 0 ==> Minimal(bi.Bytes()))
      invariant a == 0 ==> bi.length == 1
    {
      PowerStep(a, x);
      PowersGrow(a, x + 1, b);
      ProductFits(bi.Bytes(), a);
      bi.MultiplyBy(a);
    }
  }

  lemma PowerStep(a: u8, x: nat)
    ensures PowerOf(a, 0) == 1 && PowerOf(a, x + 1) == PowerOf(a, x) * a
  {
  }

  lemma {:induction false} PowersGrow(a: u8, m: nat, n: nat)
    requires m <= n
    ensures a > 0 ==> PowerOf(a, m) <= PowerOf(a, n)
    decreases n
  {
    if m < n && a > 0 {
      PowersGrow(a, m, n - 1);
      GrowsBy(PowerOf(a, n - 1), a);
    }
  }

  lemma GrowsBy(x: nat, a: int)
    requires a > 0
    ensures x <= x * a
  {
    assert x * a == x + x * (a - 1);
  }

  /** Multiplication by zero leaves one byte; otherwise the product has no unnecessary zeros. */
  lemma ProductFits(bytes: seq<u8>, a: u8)
    requires bytes != []
    requires if a == 0 then |bytes| < 255 else Minimal(bytes) && Value(bytes) * a < Power256(255)
    ensures |Product(bytes, a, 0)| < 256
  {
    hide Value;
    hide Product;
    hide Power256;
    ProductValue(bytes, a, 0);
    if a > 0 {
      var product := Product(bytes, a, 0);
      ProductMinimal(bytes, a, 0);
      if |product| >= 256 {
        ValueAtLeast(product);
        PowerGrows(255, |product| - 1);
      }
    }
  }

  lemma {:induction false} PowerOf58(n: nat)
    ensures PowerOf(58, n) == Power58(n)
  {
    if n > 0 {
      PowerOf58(n - 1);
    }
  }

  /** 58^n and its multiples by a digit stay clear of the 256-byte limit. */
  lemma PowerFits(bytes: seq<u8>, n: nat)
    requires Minimal(bytes) && Value(bytes) == Power58(n)
    ensures |bytes| <= n + 1 && (n > 0 ==> |bytes| <= n)
  {
    hide Value;
    MinimalIsUnique(bytes);
    BytesOfTextBound(Power58(n), n + 1);
    if n > 0 {
      PowersOrdered(n);
      BytesOfBound(Power58(n), n);
    }
  }

  lemma {:induction false} SumMinimal(a: seq<u8>, b: seq<u8>, carry: nat)
    requires |a| >= |b| && carry <= 1
    requires a == [] || a[|a| - 1] != 0 || (|a| == |b| && b[|b| - 1] != 0)
    ensures Minimal(Sum(a, b, carry))
    decreases |a|
  {
    if a != [] {
      var b0, bs := if b == [] then 0 else b[0], if b == [] then [] else b[1..];
      var t := a[0] as int + b0 + carry;
      var rest := Sum(a[1..], bs, t / 256);
      assert Sum(a, b, carry) == [t % 256] + rest;
      if |a| == 1 {
        assert rest == if t / 256 == 1 then [1] else [];
      } else {
        SumMinimal(a[1..], bs, t / 256);
        SumLength(a[1..], bs, t / 256);
      }
    }
  }

  lemma SumLength(a: seq<u8>, b: seq<u8>, carry: nat)
    requires |a| >= |b| && carry <= 1
    ensures |Sum(a, b, carry)| >= |a|
  {
    SumValue(a, b, carry);
  }

  /** Adding two minimal numbers gives the minimal sum. */
  lemma MinimalSum(a: seq<u8>, b: seq<u8>)
    requires Minimal(a) && Minimal(b)
    ensures Sum(Widened(a, |b|), b, 0) == BytesOf(Value(a) + Value(b))
  {
    hide Value;
    hide Sum;
    hide BytesOf;
    var wide := Widened(a, |b|);
    WidenedValue(a, |b|);
    if |a| < |b| {
      assert |wide| == |b|;
    } else {
      assert wide == a;
    }
    SumValue(wide, b, 0);
    SumMinimal(wide, b, 0);
    MinimalIsUnique(Sum(wide, b, 0));
  }

  /** Adds the digit in front of an already decoded tail. */
  method AddDigit(bi: BigNumber, bi2: BigNumber, c: char, tail: string)
    requires bi.Valid() && bi2.Valid() && bi != bi2 && bi.data != bi2.data
    requires IsDigit(c) && IsText(tail) && |tail| < 255 && bi.Bytes() == BytesOf(ValueOfText(tail))
    modifies bi, bi.data, bi2, bi2.data
    ensures bi.Valid() && bi2.Valid()
    ensures IsText([c] + tail) && bi.Bytes() == BytesOf(ValueOfText([c] + tail))
  {
    hide Value;
    hide Sum;
    hide BytesOf;
    hide ValueOfText;
    hide DigitOf;
    hide Letter;
    hide Power58;
    hide PowerOf;
    hide Power256;
    hide Product;
    var alphaIndex := DigitOf(c);
    FirstDigit(c, tail);
    if alphaIndex != 0 {
      PowerBelow(|tail|);
      FromPower(bi2, 58, |tail|);
      PowerFits(bi2.Bytes(), |tail|);
      ProductLength(bi2.Bytes(), alphaIndex);
      bi2.MultiplyBy(alphaIndex);
      ValueOfBytesOf(ValueOfText(tail));
      Commute(Power58(|tail|), alphaIndex);
      AddFits(bi.Bytes(), bi2.Bytes(), [c] + tail);
      bi.Add(bi2);
    }
  }

  lemma PowerBelow(n: nat)
    requires n < 255
    ensures PowerOf(58, n) == Power58(n) < Power256(255)
  {
    PowerOf58(n);
    PowersOrdered(n);
    PowerGrows(n, 255);
    if n == 0 {
      PowerGrows(1, 255);
    }
  }

  lemma ProductLength(bytes: seq<u8>, b: u8)
    ensures |Product(bytes, b, 0)| <= |bytes| + 1
  {
    ProductValue(bytes, b, 0);
  }

  lemma Commute(x: int, y: int)
    ensures x * y == y * x
  {
  }

  lemma AddFits(a: seq<u8>, b: seq<u8>, s: string)
    requires IsText(s) && |s| <= 255
    requires Minimal(a) && Minimal(b) && Value(a) + Value(b) == ValueOfText(s)
    ensures |Sum(Widened(a, |b|), b, 0)| < MAX_BIG_NUMBER
    ensures Sum(Widened(a, |b|), b, 0) == BytesOf(ValueOfText(s))
  {
    hide Value;
    hide Sum;
    hide BytesOf;
    hide ValueOfText;
    hide IsDigit;
    MinimalSum(a, b);
    ValueOfTextBound(s);
    BytesOfTextBound(ValueOfText(s), |s|);
  }

  /** The minimal bytes of a text's number, accumulated from the last character to the first. */
  method DecodeDigits(bi: BigNumber, str: string)
    requires bi.Valid() && bi.length == 0
    requires IsText(str) && 1 <= |str| <= 255
    modifies bi, bi.data
    ensures bi.Valid()
    ensures bi.Bytes() == BytesOf(ValueOfText(str))
  {
    hide IsDigit;
    var bi2 := new BigNumber([], 1);
    var x := |str|;
    assert str[x..] == [] && bi.Bytes() == [];
    while x > 0
      invariant 0 <= x <= |str|
      invariant bi.Valid() && bi2.Valid() && fresh(bi2) && fresh(bi2.data)
      invariant bi.Bytes() == BytesOf(ValueOfText(str[x..]))
    {
      x := x - 1;
      assert str[x..] == [str[x]] + str[x + 1..];
      AddDigit(bi, bi2, str[x], str[x + 1..]);
    }
    assert str[0..] == str;
  }

  method CountLeadingOnes(str: string) returns (zeros: nat)
    ensures zeros == LeadingOnes(str)
  {
    zeros := 0;
    var x := 0;
    while x < |str| && str[x] == '1'
      invariant 0 <= x == zeros <= |str|
      invariant LeadingOnes(str) == zeros + LeadingOnes(str[x..])
    {
      assert str[x..][1..] == str[x + 1..];
      zeros := zeros + 1;
      x := x + 1;
    }
  }

  /** `CBDecodeBase58`: none of the length assertions can fire, because there are no more bytes than characters. */
  method DecodeBig(bi: BigNumber, str: string)
    requires bi.Valid() && bi.length == 0
    requires IsText(str) && 1 <= |str| <= 255
    modifies bi, bi.data
    ensures bi.Valid()
    ensures bi.Bytes() == DecodedBytes(str)
  {
    DecodedNoLonger(str);
    DecodeDigits(bi, str);
    var zeros := CountLeadingOnes(str);
    if zeros != 0 {
      ghost var low := bi.Bytes();
      bi.length := bi.length + zeros;
      Clear(bi.data, bi.length - zeros, bi.length);
      assert bi.Bytes() == low + Zeros(zeros);
    } else {
      assert bi.Bytes() + Zeros(0) == bi.Bytes();
    }
  }

  /** The codec works on the lowest byte first; callers may want the highest first. */
  function InByteOrder(bytes: seq<u8>, isBigEndian: bool): seq<u8> {
    if isBigEndian then Reversed(bytes) else bytes
  }

  /** Bytes as a number, highest byte first. */
  function NumberOf(bytes: seq<u8>): nat {
    if bytes == [] then 0 else 256 * NumberOf(bytes[..|bytes| - 1]) + bytes[|bytes| - 1]
  }

  /** Highest byte first or last, the bytes are those of the same number. */
  lemma {:induction false} ByteOrderMeaning(bytes: seq<u8>)
    ensures NumberOf(InByteOrder(bytes, true)) == Value(bytes)
    ensures InByteOrder(bytes, false) == bytes
  {
    if bytes != [] {
      ByteOrderMeaning(bytes[1..]);
      var front := Reversed(bytes[1..]);
      assert Reversed(bytes) == front + [bytes[0]];
      assert (front + [bytes[0]])[..|front|] == front;
    }
  }

  method DecodeBase58(str: string, output: array<u8>, maxOutputLength: nat, isBigEndian: bool) returns (ret: nat)
    requires IsText(str) && 1 <= |str| <= 255
    requires maxOutputLength <= output.Length
    modifies output
    ensures |DecodedBytes(str)| > maxOutputLength ==> ret == 0 && output[..] == old(output[..])
    ensures |DecodedBytes(str)| <= maxOutputLength ==>
      && ret == |DecodedBytes(str)|
      && output[..ret] == InByteOrder(DecodedBytes(str), isBigEndian)
      && output[ret..] == old(output[ret..])
  {
    ret := 0;
    var bn := new BigNumber([], 0);
    DecodeBig(bn, str);
    DecodedNoLonger(str);
    if bn.length <= maxOutputLength {
      ret := bn.length;
      if isBigEndian {
        CopyReversed(bn.data, output, bn.length);
        assert output[..ret] == Reversed(bn.Bytes());
      } else {
        Copy(output, bn.data, bn.length);
        assert output[..ret] == bn.Bytes();
      }
    }
  }

  method CopyReversed(source: array<u8>, output: array<u8>, n: nat)
    requires n <= source.Length && n <= output.Length && source != output
    modifies output
    ensures output[..n] == Reversed(source[..n])
    ensures output[n..] == old(output[n..])
  {
    var index := n - 1;
    for i := 0 to n
      invariant index == n - 1 - i
      invariant forall k :: 0 <= k < i ==> output[k] == source[n - 1 - k]
      invariant forall k :: n <= k < output.Length ==> output[k] == old(output[k])
    {
      output[i] := source[index];
      index := index - 1;
    }
  }

  // ---------------------------------------------------------------------------------------------
  // Encoding

  lemma TextLongEnough(bytes: seq<u8>)
    requires bytes != []
    ensures |bytes| <= |EncodedText(bytes)|
    ensures |EncodedDigits(Value(bytes), |bytes| > 1)| <= 2 * |bytes|
  {
    hide Value;
    hide EncodedDigits;
    var n, v := HighZeros(bytes), Value(bytes);
    HighZerosSplit(bytes);
    MinimalIsUnique(bytes[..|bytes| - n]);
    EncodedDigitsMeaning(v, |bytes| > 1);
    AtLeastAsManyDigits(v);
    assert 0 < v < 58 ==> TextOfValue(v) != [] by {
      TextOfValueIsText(v);
    }
  }

  method WriteOnes(bi: BigNumber, str: array<char>) returns (x: nat)
    requires bi.Valid() && 0 < bi.length <= str.Length
    modifies str
    ensures x == HighZeros(bi.Bytes())
    ensures str[..x] == Ones(x)
    ensures forall k :: x <= k < str.Length ==> str[k] == old(str[k])
  {
    x := 0;
    ghost var bytes := bi.Bytes();
    var y := bi.length - 1;
    assert bytes[..|bytes|] == bytes;
    while true
      invariant 0 <= y < bi.length && x == bi.length - 1 - y
      invariant forall k :: 0 <= k < |bytes| ==> bi.data[k] == bytes[k]
      invariant HighZeros(bytes) == x + HighZeros(bytes[..y + 1])
      invariant forall k :: 0 <= k < x ==> str[k] == '1'
      invariant forall k :: x <= k < str.Length ==> str[k] == old(str[k])
      decreases y
    {
      if bi.data[y] == 0 {
        str[x] := '1';
        x := x + 1;
        assert bytes[..y + 1][..y] == bytes[..y];
        if y == 0 {
          break;
        }
        y := y - 1;
      } else {
        break;
      }
    }
  }

  /** Between two turns of the digit loop the number has no unnecessary zeros. */
  ghost predicate Trimmed(s: seq<u8>) {
    |s| == 1 || (s != [] && Minimal(s))
  }

  lemma LoopContinues(s: seq<u8>)
    requires Trimmed(s)
    ensures EncodedDigits(Value(s), |s| > 1) == LoopDigits(Value(s))
  {
    if |s| > 1 {
      LongerIsMore(s, [58]);
      SingleByte(58);
    }
  }

  /** One turn of the digit loop: the number loses its last Base58 digit, which is returned. */
  method TakeDigit(bi: BigNumber) returns (mod: nat)
    requires bi.Valid() && bi.length > 0
    requires bi.length > 1 || bi.Num() >= 58
    modifies bi, bi.data
    ensures bi.Valid() && 0 < bi.length <= old(bi.length)
    ensures mod == old(bi.Num()) % 58
    ensures bi.Num() == old(bi.Num()) / 58
    ensures Trimmed(bi.Bytes())
    ensures old(bi.Num()) < 58 ==> bi.length == 1
  {
    hide Value;
    mod := bi.Modulo58();
    ghost var v := bi.Num();
    bi.SubtractByte(mod);
    ghost var normal := bi.Bytes();
    SmallNormal(normal);
    var temp := new u8[MAX_BIG_NUMBER];
    Clear(temp, 0, bi.length);
    bi.DivideBy58(temp);
    assert (v - v % 58) / 58 == v / 58;
  }

  lemma SmallNormal(s: seq<u8>)
    requires Trimmed(s)
    ensures Value(s) < 58 && Value(s) % 58 == 0 ==> |s| == 1 && Value(s) == 0
    ensures Value(s) >= 58 ==> Minimal(s)
    ensures Value(s) % 58 == 0 ==> Value(s) == 0 || Value(s) >= 58
  {
    if |s| > 1 {
      LongerIsMore(s, [58]);
      SingleByte(58);
    } else {
      assert s == [s[0]];
      SingleByte(s[0]);
    }
  }

  lemma EncodedStep(v: nat, many: bool, done: string)
    requires many || v >= 58
    ensures |EncodedDigits(v, many)| >= 2
    ensures EncodedDigits(v, many) + done == LoopDigits(v / 58) + ([Letter(v % 58)] + done)
  {
    hide Letter;
  }

  lemma EncodedEnd(v: nat)
    requires v < 58
    ensures EncodedDigits(v, false) == [Letter(v)]
  {
  }

  /**
   The digit loop.  It gives up exactly when the text it is building, with its terminator, does not
   fit; otherwise all digits but the most significant one stand in `str`, the last one first.
   */
  method DigitLoop(bi: BigNumber, str: array<char>, zeros: nat, maxStrLen: nat) returns (ok: bool, x: nat)
    requires bi.Valid() && 0 < bi.length <= maxStrLen <= str.Length
    requires zeros <= bi.length
    requires bi.length > 1 || bi.Num() >= 58
    modifies bi, bi.data, str
    ensures bi.Valid()
    ensures str[..zeros] == old(str[..zeros])
    ensures forall k :: maxStrLen <= k < str.Length ==> str[k] == old(str[k])
    ensures var digits := EncodedDigits(old(bi.Num()), old(bi.length) > 1);
      && (ok <==> zeros + |digits| < maxStrLen)
      && (ok ==>
        && zeros <= x == zeros + |digits| - 1 && bi.length == 1 && bi.Num() < 58
        && [Letter(bi.Num())] + Reversed(str[zeros..x]) == digits)
  {
    hide EncodedDigits;
    hide LoopDigits;
    hide Value;
    hide Minimal;
    hide Letter;
    hide Trimmed;
    ghost var digits, done: string := EncodedDigits(bi.Num(), bi.length > 1), [];
    x := zeros;
    var maxLength := bi.length;
    var more := true;
    while more
      invariant bi.Valid() && 0 < bi.length <= maxLength && x == zeros + |done|
      invariant more <==> (bi.length > 1 || bi.Num() >= 58)
      invariant done == [] || x + 2 <= maxStrLen
      invariant done != [] || more
      invariant EncodedDigits(bi.Num(), bi.length > 1) + done == digits
      invariant forall k :: 0 <= k < |done| ==> str[x - 1 - k] == done[k]
      invariant forall k :: 0 <= k < zeros || maxStrLen <= k < str.Length ==> str[k] == old(str[k])
      decreases bi.Num() + bi.length
    {
      ghost var v, many := bi.Num(), bi.length > 1;
      EncodedStep(v, many, done);
      if bi.length < x + 3 {
        var size := x + 3;
        if size > bi.length {
          if size > maxStrLen {
            return false, x;
          }
        }
      }
      var mod := TakeDigit(bi);
      LoopContinues(bi.Bytes());
      str[x] := Letter(mod);
      done := [Letter(mod)] + done;
      x := x + 1;
      var c := bi.CompareTo58();
      more := c != LessThan;
    }
    EncodedEnd(bi.Num());
    ok := true;
    assert done == Reversed(str[zeros..x]);
  }

  /** Turns the digits the right way round, exchanging the outermost pair first. */
  method ReverseDigits(str: array<char>, zeros: nat, x: nat)
    requires zeros <= x <= str.Length && (x - zeros) / 2 <= 255
    modifies str
    ensures str[zeros..x] == Reversed(old(str[zeros..x]))
    ensures str[..zeros] == old(str[..zeros])
    ensures forall k :: x <= k < str.Length ==> str[k] == old(str[k])
  {
    hide Reversed;
    ghost var before := str[..];
    var y: u8 := 0;
    while y < (x - zeros) / 2
      invariant 0 <= y <= (x - zeros) / 2
      invariant forall j :: zeros <= j < zeros + y ==> str[j] == before[zeros + x - 1 - j]
      invariant forall j :: x - y <= j < x ==> str[j] == before[zeros + x - 1 - j]
      invariant forall j :: zeros + y <= j < x - y ==> str[j] == before[j]
      invariant forall j :: 0 <= j < zeros || x <= j < str.Length ==> str[j] == before[j]
    {
      var temp := str[zeros + y as int];
      str[zeros + y as int] := str[x - y - 1];
      str[x - y - 1] := temp;
      y := y + 1;
    }
    ReversedSlice(before, str[..], zeros, x);
  }

  lemma ReversedSlice(before: string, after: string, from: nat, to: nat)
    requires from <= to <= |before| == |after|
    requires forall j :: from <= j < to ==> after[j] == before[from + to - 1 - j]
    ensures after[from..to] == Reversed(before[from..to])
  {
  }

  /** Appends the most significant digit, reverses the digits and terminates the text. */
  method FinishText(str: array<char>, zeros: nat, start: nat, top: char) returns (x: nat)
    requires zeros <= start && start + 1 < str.Length && (start + 1 - zeros) / 2 <= 255
    modifies str
    ensures x == start + 1 && str[x] == '\0'
    ensures str[..x] == old(str[..zeros]) + ([top] + Reversed(old(str[zeros..start])))
    ensures forall k :: x < k < str.Length ==> str[k] == old(str[k])
  {
    hide Reversed;
    ghost var low, ones := str[zeros..start], str[..zeros];
    str[start] := top;
    x := start + 1;
    assert str[zeros..x] == low + [top];
    assert str[..zeros] == ones;
    ReversedSnoc(low, top);
    ReverseDigits(str, zeros, x);
    ghost var text := str[..x];
    assert text == str[..zeros] + str[zeros..x];
    str[x] := '\0';
    assert str[..x] == text;
  }

  predicate LoopRuns(bytes: seq<u8>) {
    |bytes| > 1 || Value(bytes) >= 58
  }

  /** Whether the text is written at all; without the loop only the length of the bytes is looked at. */
  predicate Written(bytes: seq<u8>, maxStrLen: nat) {
    if LoopRuns(bytes) then |EncodedText(bytes)| < maxStrLen else 1 <= maxStrLen
  }

  /** Text and terminator fit. */
  predicate FitsLimit(bytes: seq<u8>, maxStrLen: nat) {
    |EncodedText(bytes)| < maxStrLen
  }

  /** Only fitting texts are written exactly if the loop runs, or the limit is 0, or the text fits anyway. */
  predicate LimitIsSafe(bytes: seq<u8>, maxStrLen: nat) {
    LoopRuns(bytes) || maxStrLen == 0 || FitsLimit(bytes, maxStrLen)
  }

  lemma LimitIsKeptExactly(bytes: seq<u8>, maxStrLen: nat)
    ensures (Written(bytes, maxStrLen) <==> FitsLimit(bytes, maxStrLen)) <==> LimitIsSafe(bytes, maxStrLen)
  {
  }

  /** A single byte below 58 needs room for a character and the terminator, and zero for one more character. */
  lemma SmallByteIgnoresLimit()
    ensures !LoopRuns([5]) && EncodedText([5]) == "6" && Written([5], 1) && !FitsLimit([5], 1)
    ensures !LoopRuns([0]) && EncodedText([0]) == "11" && Written([0], 2) && !FitsLimit([0], 2)
  {
    SingleByte(5);
    SingleByte(0);
    assert [0][..0] == [];
    assert HighZeros([5]) == 0 && HighZeros([0]) == 1;
    assert Ones(0) + [Letter(5)] == "6" && Ones(1) + [Letter(0)] == "11";
  }

  /**
   `CBEncodeBase58`.  The only number whose text is written without a look at `maxStrLen` is a single
   byte below 58, for which the caller has to provide the room; for every other one the answer is true
   exactly when text and terminator fit, and nothing at or beyond `maxStrLen` is written.
   */
  method EncodeBig(bi: BigNumber, str: array<char>, maxStrLen: nat) returns (ok: bool)
    requires bi.Valid() && bi.length > 0
    requires maxStrLen <= str.Length
    requires !LoopRuns(bi.Bytes()) && maxStrLen > 0 ==> |EncodedText(bi.Bytes())| < str.Length
    modifies bi, bi.data, str
    ensures ok <==> Written(old(bi.Bytes()), maxStrLen)
    ensures var text := EncodedText(old(bi.Bytes()));
      ok ==> |text| < str.Length && str[..|text|] == text && str[|text|] == '\0'
    ensures LimitIsSafe(old(bi.Bytes()), maxStrLen) ==> str[maxStrLen..] == old(str[maxStrLen..])
  {
    hide EncodedDigits;
    hide Value;
    hide HighZeros;
    hide Letter;
    ghost var bytes, v := bi.Bytes(), bi.Num();
    TextLongEnough(bytes);
    if maxStrLen < bi.length {
      return false;
    }
    var zeros := WriteOnes(bi, str);
    var x := zeros;
    var c := bi.CompareTo58();
    if c != LessThan {
      var fits;
      fits, x := DigitLoop(bi, str, zeros, maxStrLen);
      if !fits {
        return false;
      }
    } else {
      EncodedEnd(v);
      assert Reversed(str[zeros..x]) == [];
    }
    SingleByte(bi.data[bi.length - 1]);
    assert bi.Bytes() == [bi.data[bi.length - 1]];
    x := FinishText(str, zeros, x, Letter(bi.data[bi.length - 1]));
    ok := true;
  }

  lemma ReversedSnoc<T>(s: seq<T>, t: T)
    ensures Reversed(s + [t]) == [t] + Reversed(s)
  {
  }

  /** `encodeBase58`: the hash buffer holds 25 bytes, and big-endian input must fill it. */
  method EncodeBase58(bigNumber: array<u8>, length: nat, isBigEndian: bool, output: array<char>, maxStrLen: nat)
    returns (ok: bool)
    requires 1 <= length <= 25 && length <= bigNumber.Length
    requires isBigEndian ==> length == 25
    requires maxStrLen <= output.Length
    requires var bytes := InByteOrder(bigNumber[..length], isBigEndian);
      !LoopRuns(bytes) && maxStrLen > 0 ==> |EncodedText(bytes)| < output.Length
    modifies output
    ensures var bytes := InByteOrder(bigNumber[..length], isBigEndian);
      && (ok <==> Written(bytes, maxStrLen))
      && (LimitIsSafe(bytes, maxStrLen) ==> output[maxStrLen..] == old(output[maxStrLen..]))
    ensures var text := EncodedText(InByteOrder(bigNumber[..length], isBigEndian));
      ok ==> |text| < output.Length && output[..|text|] == text && output[|text|] == '\0'
  {
    var hash := new u8[25];
    if isBigEndian {
      CopyReversed(bigNumber, hash, 25);
    } else {
      Copy(hash, bigNumber, length);
    }
    var bytes := new BigNumber(hash[..length], length);
    ok := EncodeBig(bytes, output, maxStrLen);
  }
}
