/**
 What stands between the quotes of a JSON string, stated without the parser: plain code units, one-letter
 escapes, code points of four hexadecimal digits and surrogate pairs, as in section 7 of RFC 8259.
 */
module JsonStrings {
  import opened JsonGrammar
  import opened TextAt
  import PointerText

  // ---------------------------------------------------------------------------------------------
  // Digits

  const LOWER := "0123456789abcdef"
  const UPPER := "0123456789ABCDEF"

  predicate IsHex(c: char, d: nat)
    requires d < 16
  {
    c == LOWER[d] || c == UPPER[d]
  }

  lemma HexDigitMeaning(c: char, d: nat)
    requires d < 16
    ensures HexDigit(c) == d <==> IsHex(c, d)
  {
    match d
    case 0 => case 1 => case 2 => case 3 => case 4 => case 5 => case 6 => case 7 =>
    case 8 => case 9 => case 10 => case 11 => case 12 => case 13 => case 14 => case _ =>
  }

  /** Four hexadecimal digits of either case, the highest first. */
  predicate HexAt(t: string, pos: nat, n: nat)
    requires n < 0x10000
  {
    && pos + 4 <= |t|
    && IsHex(t[pos], n / 4096) && IsHex(t[pos + 1], n / 256 % 16) && IsHex(t[pos + 2], n / 16 % 16)
    && IsHex(t[pos + 3], n % 16)
  }

  lemma Hex4Meaning(t: string, pos: nat, n: nat)
    requires n < 0x10000
    ensures Hex4(t, pos) == Token(pos + 4, n) <==> HexAt(t, pos, n)
  {
    if pos + 4 <= |t| {
      hide HexDigit;
      hide IsHex;
      HexDigitMeaning(t[pos], n / 4096);
      HexDigitMeaning(t[pos + 1], n / 256 % 16);
      HexDigitMeaning(t[pos + 2], n / 16 % 16);
      HexDigitMeaning(t[pos + 3], n % 16);
      FourDigits(HexDigit(t[pos]), HexDigit(t[pos + 1]), HexDigit(t[pos + 2]), HexDigit(t[pos + 3]), n);
    }
  }

  lemma FourDigits(a: int, b: int, c: int, d: int, n: nat)
    requires n < 0x10000 && a < 16 && b < 16 && c < 16 && d < 16
    ensures a >= 0 && b >= 0 && c >= 0 && d >= 0 && ((a * 16 + b) * 16 + c) * 16 + d == n
      <==> a == n / 4096 && b == n / 256 % 16 && c == n / 16 % 16 && d == n % 16
  {
    var x, y := n / 16, n / 256;
    assert y == x / 16 && n / 4096 == y / 16;
    if a >= 0 && b >= 0 && c >= 0 && d >= 0 {
      OneDigit((a * 16 + b) * 16 + c, d, n);
      OneDigit(a * 16 + b, c, x);
      OneDigit(a, b, y);
    }
  }

  lemma OneDigit(high: nat, low: nat, n: nat)
    requires low < 16
    ensures high * 16 + low == n <==> high == n / 16 && low == n % 16
  {
  }

  // ---------------------------------------------------------------------------------------------
  // Escapes

  predicate IsHighSurrogate(n: nat) {
    0xD800 <= n < 0xDC00
  }

  predicate IsLowSurrogate(n: nat) {
    0xDC00 <= n < 0xE000
  }

  /** Every code point beyond 16 bits is read from its surrogate pair. */
  lemma PairIsRead(t: string, pos: nat, codepoint: nat)
    requires 0x10000 <= codepoint <= 0x10FFFF
    requires HexAt(t, pos, 0xD800 + (codepoint - 0x10000) / 1024)
    requires At(t, pos + 4, "\\u") && HexAt(t, pos + 6, 0xDC00 + codepoint % 1024)
    ensures UnicodeEscape(t, pos) == Token(pos + 10, Utf8(codepoint))
  {
    hide HexAt;
    hide Hex4;
    hide Utf8;
    var high, low := 0xD800 + (codepoint - 0x10000) / 1024, 0xDC00 + codepoint % 1024;
    Hex4Meaning(t, pos, high);
    Hex4Meaning(t, pos + 6, low);
    AtChar(t, pos + 4, "\\u", 0);
    AtChar(t, pos + 4, "\\u", 1);
    assert (high - 0xD800) * 1024 + (low - 0xDC00) + 0x10000 == codepoint;
  }

  /** Every other code unit but a high surrogate stands for itself. */
  lemma UnitIsRead(t: string, pos: nat, n: nat)
    requires n < 0x10000 && HexAt(t, pos, n) && !IsHighSurrogate(n)
    ensures UnicodeEscape(t, pos) == Token(pos + 4, Utf8(n))
  {
    hide HexAt;
    hide Hex4;
    hide Utf8;
    Hex4Meaning(t, pos, n);
  }

  /** The letters of the one-letter escapes, and what they stand for. */
  const LETTERS := "\"\\/bfnrt"
  const MEANINGS: string := "\"\\/" + [8 as char, 12 as char, 10 as char, 13 as char, 9 as char]

  lemma LetterMeaning(c: char)
    ensures forall k :: 0 <= k < 8 && LETTERS[k] == c ==> Unescape(c) == MEANINGS[k]
    ensures c !in LETTERS ==> Unescape(c) == NUL
  {
  }

  // ---------------------------------------------------------------------------------------------
  // Pieces

  datatype Piece =
    | Plain(c: char)
    | Letter(k: nat)
    | Unit(n: nat)
    | Pair(codepoint: nat)

  predicate IsPiece(p: Piece) {
    match p
    case Plain(c) => c >= ' ' && c != '"' && c != '\\'
    case Letter(k) => k < 8
    case Unit(n) => n < 0x10000 && !IsHighSurrogate(n)
    case Pair(codepoint) => 0x10000 <= codepoint <= 0x10FFFF
  }

  function Width(p: Piece): (n: nat)
    ensures n > 0
  {
    match p
    case Plain(_) => 1
    case Letter(_) => 2
    case Unit(_) => 6
    case Pair(_) => 12
  }

  /** The code units a piece stands for. */
  function Said(p: Piece): string
    requires IsPiece(p)
  {
    match p
    case Plain(c) => [c]
    case Letter(k) => [MEANINGS[k]]
    case Unit(n) => Utf8(n)
    case Pair(codepoint) => Utf8(codepoint)
  }

  /** The piece is spelled at a place of the text. */
  predicate PieceAt(t: string, pos: nat, p: Piece)
    requires IsPiece(p)
  {
    match p
    case Plain(c) => At(t, pos, [c])
    case Letter(k) => At(t, pos, ['\\', LETTERS[k]])
    case Unit(n) => At(t, pos, "\\u") && HexAt(t, pos + 2, n)
    case Pair(codepoint) =>
      && At(t, pos, "\\u") && HexAt(t, pos + 2, 0xD800 + (codepoint - 0x10000) / 1024)
      && At(t, pos + 6, "\\u") && HexAt(t, pos + 8, 0xDC00 + codepoint % 1024)
  }

  lemma PieceIsRead(t: string, pos: nat, p: Piece)
    requires IsPiece(p) && PieceAt(t, pos, p)
    ensures StringPiece(t, pos) == Token(pos + Width(p), Said(p)) && Peek(t, pos) != '"'
  {
    hide HexAt;
    hide UnicodeEscape;
    hide Utf8;
    hide Unescape;
    match p
    case Plain(c) => AtChar(t, pos, [c], 0);
    case Letter(k) =>
      AtChar(t, pos, ['\\', LETTERS[k]], 0);
      AtChar(t, pos, ['\\', LETTERS[k]], 1);
      LetterMeaning(LETTERS[k]);
      MeaningsAreNotNul(k);
    case Unit(n) =>
      AtChar(t, pos, "\\u", 0);
      AtChar(t, pos, "\\u", 1);
      LetterMeaning('u');
      UnitIsRead(t, pos + 2, n);
    case Pair(codepoint) =>
      AtChar(t, pos, "\\u", 0);
      AtChar(t, pos, "\\u", 1);
      LetterMeaning('u');
      PairIsRead(t, pos + 2, codepoint);
  }

  lemma MeaningsAreNotNul(k: nat)
    requires k < 8
    ensures MEANINGS[k] != NUL
  {
  }

  // ---------------------------------------------------------------------------------------------
  // Whole strings

  predicate ArePieces(pieces: seq<Piece>) {
    forall k :: 0 <= k < |pieces| ==> IsPiece(pieces[k])
  }

  /** The pieces one after the other, and then the closing quote just before `end`. */
  predicate Spelled(t: string, pos: nat, end: nat, pieces: seq<Piece>)
    requires ArePieces(pieces)
    decreases |pieces|
  {
    if pieces == [] then At(t, pos, "\"") && end == pos + 1
    else PieceAt(t, pos, pieces[0]) && Spelled(t, pos + Width(pieces[0]), end, pieces[1..])
  }

  function AllSaid(pieces: seq<Piece>): string
    requires ArePieces(pieces)
  {
    if pieces == [] then [] else Said(pieces[0]) + AllSaid(pieces[1..])
  }

  lemma {:induction false} PiecesAreRead(t: string, pos: nat, end: nat, pieces: seq<Piece>)
    requires ArePieces(pieces) && Spelled(t, pos, end, pieces)
    ensures StringBody(t, pos) == Token(end, AllSaid(pieces))
    decreases |pieces|
  {
    hide StringPiece;
    hide PieceAt;
    if pieces == [] {
      AtChar(t, pos, "\"", 0);
    } else {
      PieceIsRead(t, pos, pieces[0]);
      PiecesAreRead(t, pos + Width(pieces[0]), end, pieces[1..]);
    }
  }

  lemma EscapeHasPiece(t: string, pos: nat) returns (p: Piece)
    requires At(t, pos, "\\u") && UnicodeEscape(t, pos + 2).Token?
    ensures IsPiece(p) && PieceAt(t, pos, p) && UnicodeEscape(t, pos + 2) == Token(pos + Width(p), Said(p))
  {
    hide Hex4;
    hide HexAt;
    hide Utf8;
    var high := Hex4(t, pos + 2).value;
    Hex4Meaning(t, pos + 2, high);
    if IsHighSurrogate(high) {
      var low := Hex4(t, pos + 8).value;
      Hex4Meaning(t, pos + 8, low);
      var codepoint := (high - 0xD800) * 1024 + (low - 0xDC00) + 0x10000;
      PairParts(high, low, codepoint);
      assert t[pos + 6..pos + 8] == "\\u";
      p := Pair(codepoint);
    } else {
      p := Unit(high);
    }
  }

  lemma PairParts(high: nat, low: nat, codepoint: nat)
    requires IsHighSurrogate(high) && IsLowSurrogate(low)
    requires codepoint == (high - 0xD800) * 1024 + (low - 0xDC00) + 0x10000
    ensures 0x10000 <= codepoint <= 0x10FFFF
    ensures 0xD800 + (codepoint - 0x10000) / 1024 == high && 0xDC00 + codepoint % 1024 == low
  {
  }

  lemma ReadHasPiece(t: string, pos: nat) returns (p: Piece)
    requires StringPiece(t, pos).Token? && Peek(t, pos) != '"'
    ensures IsPiece(p) && PieceAt(t, pos, p) && StringPiece(t, pos) == Token(pos + Width(p), Said(p))
  {
    hide UnicodeEscape;
    hide HexAt;
    hide Utf8;
    hide Unescape;
    var c := Peek(t, pos);
    if c != '\\' {
      p := Plain(c);
    } else {
      var e := Peek(t, pos + 1);
      LetterMeaning(e);
      if e in LETTERS {
        var k: nat :| k < 8 && LETTERS[k] == e;
        MeaningsAreNotNul(k);
        p := Letter(k);
      } else {
        assert t[pos..pos + 2] == "\\u";
        p := EscapeHasPiece(t, pos);
      }
    }
  }

  lemma {:induction false} ReadHasPieces(t: string, pos: nat) returns (pieces: seq<Piece>)
    requires StringBody(t, pos).Token?
    ensures ArePieces(pieces) && Spelled(t, pos, StringBody(t, pos).pos, pieces)
    decreases |t| - pos
  {
    hide StringPiece;
    hide PieceAt;
    if Peek(t, pos) == '"' {
      assert t[pos..pos + 1] == "\"";
      pieces := [];
    } else {
      var p := ReadHasPiece(t, pos);
      var rest := ReadHasPieces(t, pos + Width(p));
      pieces := [p] + rest;
      assert pieces[1..] == rest;
    }
  }

  ghost predicate IsSpelling(t: string, pos: nat, end: nat, s: string, pieces: seq<Piece>) {
    ArePieces(pieces) && Spelled(t, pos, end, pieces) && AllSaid(pieces) == s
  }

  /** The parser reads a string exactly if it is spelled in pieces, and reads what they stand for. */
  lemma StringsAreSpelled(t: string, pos: nat, end: nat, s: string)
    ensures StringBody(t, pos) == Token(end, s) <==> exists pieces :: IsSpelling(t, pos, end, s, pieces)
  {
    hide StringBody;
    if StringBody(t, pos) == Token(end, s) {
      var pieces := ReadHasPieces(t, pos);
      PiecesAreRead(t, pos, end, pieces);
      assert IsSpelling(t, pos, end, s, pieces);
    }
    if pieces :| IsSpelling(t, pos, end, s, pieces) {
      PiecesAreRead(t, pos, end, pieces);
    }
  }

  // ---------------------------------------------------------------------------------------------
  // UTF-8

  /** The bytes of a scalar value spell it. */
  lemma BytesSpell(codepoint: nat)
    requires PointerText.IsScalar(codepoint)
    ensures PointerText.IsSequence(Utf8(codepoint)) && PointerText.CodepointOf(Utf8(codepoint)) == codepoint
  {
    PointerText.ScalarIsSequence(codepoint);
    BytesAddUp(codepoint);
  }

  lemma BytesAddUp(codepoint: nat)
    requires codepoint <= 0x10FFFF
    ensures PointerText.CodepointOf(Utf8(codepoint)) == codepoint
  {
    var x, y, z := codepoint / 64, codepoint / 4096, codepoint / 262144;
    assert y == x / 64 && z == y / 64;
    assert codepoint == 64 * x + codepoint % 64 && x == 64 * y + x % 64 && y == 64 * z + y % 64;
  }

  /** What an escape stands for is UTF-8 exactly if it is no lone low surrogate; that one is let through. */
  lemma LoneSurrogateIsNoUtf8(t: string, pos: nat, n: nat)
    requires n < 0x10000 && HexAt(t, pos, n) && !IsHighSurrogate(n)
    ensures UnicodeEscape(t, pos) == Token(pos + 4, Utf8(n))
    ensures PointerText.IsSequence(Utf8(n)) <==> !IsLowSurrogate(n)
  {
    hide HexAt;
    UnitIsRead(t, pos, n);
    BytesAddUp(n);
    if IsLowSurrogate(n) {
      if PointerText.IsSequence(Utf8(n)) {
        PointerText.SequenceIsScalar(Utf8(n));
      }
    } else {
      PointerText.ScalarIsSequence(n);
    }
  }
}
