/**
 The Base58 decoder and encoder of src/Base58.cpp, and when they undo each other.
 */
module Base58 {
  import opened Basics
  import opened LittleEndian
  import opened BigNumber

  const ALPHABET := "123456789" + "ABCDEFGHJKLMNPQRSTUVWXYZ" + "abcdefghijkmnopqrstuvwxyz"

  function Letter(d: nat): char
    requires d < 58
  {
    ALPHABET[d]
  }

  /** The index arithmetic of the decoder. */
  function DigitOf(c: char): int {
    var a := c as int;
    if a == 49 then 0
    else if a < 58 then a - 49
    else if a < 73 then a - 56
    else if a < 79 then a - 57
    else if a < 91 then a - 58
    else if a < 108 then a - 64
    else a - 65
  }

  predicate IsDigit(c: char) {
    0 <= DigitOf(c) < 58 && Letter(DigitOf(c)) == c
  }

  predicate IsText(s: string) {
    forall i :: 0 <= i < |s| ==> IsDigit(s[i])
  }

  /** The alphabet consists of six runs of consecutive characters. */
  function CodeOf(d: nat): int {
    d + (if d < 9 then 49 else if d < 17 then 56 else if d < 22 then 57
         else if d < 33 then 58 else if d < 44 then 64 else 65)
  }

  lemma AlphabetRuns(d: nat)
    requires d < 58
    ensures Letter(d) as int == CodeOf(d)
  {
    match d
    case 0 => case 1 => case 2 => case 3 => case 4 => case 5 => case 6 => case 7 => case 8 =>
    case _ =>
  }

  lemma AlphabetDigits(d: nat)
    requires d < 58
    ensures DigitOf(Letter(d)) == d && IsDigit(Letter(d))
    ensures Letter(d) == '1' <==> d == 0
  {
    AlphabetRuns(d);
    AlphabetRuns(0);
  }

  /** The digits and letters but 0, I, O and l, in the order of their codes. */
  lemma AlphabetMeaning(c: char)
    ensures IsDigit(c) <==>
      ('0' <= c <= '9' || 'A' <= c <= 'Z' || 'a' <= c <= 'z') && c !in {'0', 'I', 'O', 'l'}
  {
    hide Letter;
    var d := DigitOf(c);
    if 0 <= d < 58 {
      AlphabetRuns(d);
    }
  }

  lemma AlphabetOrder(d: nat, e: nat)
    requires d < e < 58
    ensures Letter(d) < Letter(e)
  {
    hide Letter;
    AlphabetRuns(d);
    AlphabetRuns(e);
  }

  // ---------------------------------------------------------------------------------------------
  // Texts as numbers

  function ValueOfText(s: string): nat
    requires IsText(s)
  {
    if s == [] then 0 else 58 * ValueOfText(s[..|s| - 1]) + DigitOf(s[|s| - 1])
  }

  function Power58(n: nat): (p: nat)
    ensures p > 0
  {
    if n == 0 then 1 else 58 * Power58(n - 1)
  }

  /** The digits of a number, without leading zero digits. */
  function TextOfValue(v: nat): string {
    if v == 0 then [] else TextOfValue(v / 58) + [Letter(v % 58)]
  }

  function LeadingOnes(s: string): (n: nat)
    ensures n <= |s|
  {
    if s == [] || s[0] != '1' then 0 else 1 + LeadingOnes(s[1..])
  }

  function Ones(n: nat): (s: string)
    ensures |s| == n && forall i :: 0 <= i < n ==> s[i] == '1'
  {
    seq(n, _ => '1')
  }

  lemma {:induction false} TextOfValueIsText(v: nat)
    ensures IsText(TextOfValue(v)) && ValueOfText(TextOfValue(v)) == v
    ensures v > 0 ==> TextOfValue(v) != [] && TextOfValue(v)[0] != '1'
  {
    hide Letter;
    if v > 0 {
      TextOfValueIsText(v / 58);
      AlphabetDigits(v % 58);
      assert TextOfValue(v)[..|TextOfValue(v)| - 1] == TextOfValue(v / 58);
      if v < 58 {
        assert TextOfValue(v / 58) == [];
      }
    }
  }

  lemma {:induction false} TextIsUnique(s: string)
    requires IsText(s) && (s == [] || s[0] != '1')
    ensures s == TextOfValue(ValueOfText(s))
    ensures s != [] ==> ValueOfText(s) > 0
  {
    hide Letter;
    if s != [] {
      var t, d := s[..|s| - 1], DigitOf(s[|s| - 1]);
      TextIsUnique(t);
      assert t == [] ==> d != 0;
      assert ValueOfText(s) / 58 == ValueOfText(t) && ValueOfText(s) % 58 == d;
      assert s == t + [s[|s| - 1]];
    }
  }

  lemma {:induction false} OnesPrefix(n: nat, s: string)
    requires IsText(s)
    ensures IsText(Ones(n) + s) && ValueOfText(Ones(n) + s) == ValueOfText(s)
    decreases |s|, n
  {
    hide Letter;
    AlphabetDigits(0);
    assert IsDigit('1');
    var t := Ones(n) + s;
    if s != [] {
      OnesPrefix(n, s[..|s| - 1]);
      assert t[..|t| - 1] == Ones(n) + s[..|s| - 1];
    } else if n > 0 {
      OnesPrefix(n - 1, s);
      assert t[..|t| - 1] == Ones(n - 1) + s;
    } else {
      assert t == s;
    }
  }

  lemma {:induction false} LeadingOnesOf(n: nat, s: string)
    requires s == [] || s[0] != '1'
    ensures LeadingOnes(Ones(n) + s) == n
  {
    if n > 0 {
      assert (Ones(n) + s)[1..] == Ones(n - 1) + s;
      LeadingOnesOf(n - 1, s);
    } else {
      assert Ones(n) + s == s;
    }
  }

  lemma OneInFront(s: string, n: nat)
    requires 0 < n <= |s| && s[0] == '1' && s[1..] == Ones(n - 1) + s[1..][n - 1..]
    ensures s == Ones(n) + s[n..] && s[1..][n - 1..] == s[n..]
  {
    assert s == [s[0]] + s[1..];
    assert Ones(n) == [s[0]] + Ones(n - 1);
  }

  lemma {:induction false} LeadingOnesSplit(s: string)
    ensures var n := LeadingOnes(s); s == Ones(n) + s[n..] && (s[n..] == [] || s[n..][0] != '1')
  {
    if s != [] && s[0] == '1' {
      LeadingOnesSplit(s[1..]);
      OneInFront(s, LeadingOnes(s));
    } else {
      assert Ones(0) + s == s && s[0..] == s;
    }
  }

  lemma {:induction false} FirstDigit(c: char, t: string)
    requires IsDigit(c) && IsText(t)
    ensures IsText([c] + t) && ValueOfText([c] + t) == DigitOf(c) * Power58(|t|) + ValueOfText(t)
  {
    hide Letter;
    var s := [c] + t;
    if t == [] {
      assert s == [c] && s[..0] == [];
      assert ValueOfText(s) == 58 * ValueOfText(s[..0]) + DigitOf(c);
    } else {
      FirstDigit(c, t[..|t| - 1]);
      assert s[..|s| - 1] == [c] + t[..|t| - 1];
      Regroup(DigitOf(c), Power58(|t| - 1));
    }
  }

  lemma Regroup(d: int, p: int)
    ensures 58 * (d * p) == d * (58 * p)
  {
  }

  lemma {:induction false} ValueOfTextBound(s: string)
    requires IsText(s)
    ensures ValueOfText(s) < Power58(|s|)
  {
    hide Letter;
    if s != [] {
      ValueOfTextBound(s[..|s| - 1]);
    }
  }

  // ---------------------------------------------------------------------------------------------
  // Lengths: a number needs no more bytes than Base58 digits

  lemma {:induction false} BytesOfBound(v: nat, n: nat)
    requires v < Power256(n)
    ensures |BytesOf(v)| <= n
  {
    if v > 0 {
      BytesOfBound(v / 256, n - 1);
    }
  }

  lemma {:induction false} PowersOrdered(n: nat)
    ensures Power58(n) <= Power256(n)
    ensures n > 0 ==> Power58(n) < Power256(n)
  {
    if n > 0 {
      PowersOrdered(n - 1);
    }
  }

  lemma BytesOfTextBound(v: nat, n: nat)
    requires v < Power58(n)
    ensures |BytesOf(v)| <= n
  {
    PowersOrdered(n);
    BytesOfBound(v, n);
  }

  lemma {:induction false} TextOfValueMonotone(v: nat, w: nat)
    requires v <= w
    ensures |TextOfValue(v)| <= |TextOfValue(w)|
    decreases w
  {
    if v > 0 {
      TextOfValueMonotone(v / 58, w / 58);
    }
  }

  lemma {:induction false} AtLeastAsManyDigits(v: nat)
    ensures |BytesOf(v)| <= |TextOfValue(v)| <= 2 * |BytesOf(v)|
  {
    if v > 0 {
      AtLeastAsManyDigits(v / 256);
      TextOfValueMonotone(v / 256, v / 58);
      assert v / 58 / 58 <= v / 256;
      TextOfValueMonotone(v / 58 / 58, v / 256);
    }
  }

  // ---------------------------------------------------------------------------------------------
  // What the decoder and the encoder compute

  /** Little-endian: the minimal bytes of the number, then one zero per leading '1'. */
  function DecodedBytes(s: string): seq<u8>
    requires IsText(s)
  {
    BytesOf(ValueOfText(s)) + Zeros(LeadingOnes(s))
  }

  /** The digits the encoder's loop and the digit after it produce, most significant first. */
  function LoopDigits(v: nat): (s: string)
    ensures s != []
  {
    if v < 58 then [Letter(v)] else LoopDigits(v / 58) + [Letter(v % 58)]
  }

  /** The loop also runs, once, for a small number that still occupies more than one byte. */
  function EncodedDigits(v: nat, manyBytes: bool): (s: string)
    ensures s != []
  {
    if v < 58 && !manyBytes then [Letter(v)] else LoopDigits(v / 58) + [Letter(v % 58)]
  }

  function EncodedText(bytes: seq<u8>): string {
    Ones(HighZeros(bytes)) + EncodedDigits(Value(bytes), |bytes| > 1)
  }

  lemma {:induction false} LoopDigitsMeaning(v: nat)
    ensures v > 0 ==> LoopDigits(v) == TextOfValue(v)
    ensures v == 0 ==> LoopDigits(v) == "1"
  {
    hide Letter;
    if v >= 58 {
      LoopDigitsMeaning(v / 58);
    } else if v > 0 {
      assert v / 58 == 0 && v % 58 == v;
      assert TextOfValue(0) == [];
    } else {
      AlphabetDigits(0);
    }
  }

  /** When encoding is faithful; the loop test looks at the byte count before zeros are trimmed. */
  predicate Encodable(v: nat, length: nat) {
    v >= 58 || (length == 1 && v > 0)
  }

  lemma EncodedDigitsMeaning(v: nat, manyBytes: bool)
    ensures v >= 58 || (!manyBytes && v > 0) ==> EncodedDigits(v, manyBytes) == TextOfValue(v)
    ensures 0 < v < 58 && manyBytes ==> EncodedDigits(v, manyBytes) == "1" + [Letter(v)]
    ensures v == 0 && manyBytes ==> EncodedDigits(v, manyBytes) == "1" + "1"
    ensures v == 0 && !manyBytes ==> EncodedDigits(v, manyBytes) == "1"
  {
    hide Letter;
    LoopDigitsMeaning(v);
    LoopDigitsMeaning(v / 58);
    AlphabetDigits(0);
  }

  lemma DecodedNoLonger(s: string)
    requires IsText(s)
    ensures |DecodedBytes(s)| <= |s|
    ensures s != [] ==> |DecodedBytes(s)| > 0
  {
    hide Letter;
    var n := LeadingOnes(s);
    LeadingOnesSplit(s);
    assert IsText(s[n..]);
    OnesPrefix(n, s[n..]);
    ValueOfTextBound(s[n..]);
    BytesOfTextBound(ValueOfText(s[n..]), |s| - n);
    if n == 0 && s != [] {
      TextIsUnique(s);
    }
  }

  /** Every text the encoder produces decodes to its number, and to as many zeros as it starts with. */
  lemma DecodeOfOnes(n: nat, v: nat)
    ensures var s := Ones(n) + TextOfValue(v);
      IsText(s) && ValueOfText(s) == v && DecodedBytes(s) == BytesOf(v) + Zeros(n)
  {
    hide Letter;
    TextOfValueIsText(v);
    OnesPrefix(n, TextOfValue(v));
    LeadingOnesOf(n, TextOfValue(v));
  }

  /**
   Bytes to text to bytes, for every non-empty byte string in the codec's own (little-endian) order:
   leading zero bytes come back, and the round trip succeeds exactly for encodable numbers.
   */
  lemma BytesTextBytes(bytes: seq<u8>)
    requires bytes != []
    ensures IsText(EncodedText(bytes))
    ensures DecodedBytes(EncodedText(bytes)) == bytes <==> Encodable(Value(bytes), |bytes|)
  {
    hide Letter;
    hide LoopDigits;
    hide EncodedDigits;
    hide HighZeros;
    hide Value;
    hide TextOfValue;
    hide BytesOf;
    hide ValueOfText;
    hide DecodedBytes;
    hide IsText;
    var n, v := HighZeros(bytes), Value(bytes);
    var core := bytes[..|bytes| - n];
    HighZerosSplit(bytes);
    MinimalIsUnique(core);
    EncodedDigitsMeaning(v, |bytes| > 1);
    if Encodable(v, |bytes|) {
      DecodeOfOnes(n, v);
    } else {
      TooLong(n, v, |bytes| > 1);
      DecodeOfOnes(if v == 0 && |bytes| > 1 then n + 2 else n + 1, v);
    }
  }

  /** The bytes 5, 0 are encoded as 116, which stands for 5, 0, 0. */
  lemma SmallNumberGrows()
    ensures EncodedText([5, 0]) == "116" && IsText("116") && DecodedBytes("116") == [5, 0, 0]
  {
    var bytes: seq<u8> := [5, 0];
    assert bytes[..1] == [5] && bytes[1..] == [0];
    SingleByte(0);
    assert HighZeros(bytes) == 1 && Value(bytes) == 5;
    EncodedDigitsMeaning(5, true);
    assert Ones(1) + ("1" + [Letter(5)]) == "116";
    SmallTooLong(1, 5);
    DecodeOfOnes(2, 5);
    assert BytesOf(5) == [5] by { assert BytesOf(0) == []; }
  }

  /** A number that is not encodable gets one '1' too many, and zero in several bytes two. */
  lemma TooLong(n: nat, v: nat, manyBytes: bool)
    requires v < 58 && (manyBytes || v == 0)
    ensures Ones(n) + EncodedDigits(v, manyBytes) == Ones(if v == 0 && manyBytes then n + 2 else n + 1) + TextOfValue(v)
  {
    hide Letter;
    hide EncodedDigits;
    hide TextOfValue;
    EncodedDigitsMeaning(v, manyBytes);
    if v == 0 {
      ZeroTooLong(n, manyBytes);
    } else {
      SmallTooLong(n, v);
    }
  }

  lemma ZeroTooLong(n: nat, manyBytes: bool)
    ensures Ones(n) + (if manyBytes then "1" + "1" else "1")
      == Ones(if manyBytes then n + 2 else n + 1) + TextOfValue(0)
  {
    MoreOnes(n);
    MoreOnes(n + 1);
    assert Ones(n) + ("1" + "1") == (Ones(n) + "1") + "1";
  }

  lemma SmallTooLong(n: nat, v: nat)
    requires 0 < v < 58
    ensures Ones(n) + ("1" + [Letter(v)]) == Ones(n + 1) + TextOfValue(v)
  {
    hide Letter;
    MoreOnes(n);
    assert v / 58 == 0 && v % 58 == v && TextOfValue(0) == [];
    assert Ones(n) + ("1" + [Letter(v)]) == (Ones(n) + "1") + [Letter(v)];
  }

  lemma MoreOnes(n: nat)
    ensures Ones(n) + "1" == Ones(n + 1)
  {
  }

  /** Text to bytes to text, for every non-empty text over the alphabet. */
  lemma TextBytesText(s: string)
    requires IsText(s) && s != []
    ensures EncodedText(DecodedBytes(s)) == s <==> Encodable(ValueOfText(s), |DecodedBytes(s)|)
  {
    hide Letter;
    hide LoopDigits;
    hide EncodedDigits;
    hide HighZeros;
    hide Value;
    hide ValueOfText;
    var n, v := LeadingOnes(s), ValueOfText(s);
    LeadingOnesSplit(s);
    assert IsText(s[n..]);
    OnesPrefix(n, s[n..]);
    TextIsUnique(s[n..]);
    assert s == Ones(n) + TextOfValue(v);
    ValueOfBytesOf(v);
    AppendedZeros(BytesOf(v), n);
    var bytes := DecodedBytes(s);
    assert HighZeros(bytes) == n && Value(bytes) == v;
    EncodedDigitsMeaning(v, |bytes| > 1);
    if !Encodable(v, |bytes|) {
      TooLong(n, v, |bytes| > 1);
    }
  }

  // ---------------------------------------------------------------------------------------------
  // The byte order the callers use

  /** The round trip of a big-endian address, as `encodeBase58` and `decodeBase58` see it. */
  lemma AddressRoundTrip(address: seq<u8>)
    requires |address| == 25
    ensures IsText(EncodedText(Reversed(address)))
    ensures Reversed(DecodedBytes(EncodedText(Reversed(address)))) == address <==> Value(Reversed(address)) >= 58
  {
    BytesTextBytes(Reversed(address));
    ReversedTwice(address);
    ReversedTwice(DecodedBytes(EncodedText(Reversed(address))));
  }
}
