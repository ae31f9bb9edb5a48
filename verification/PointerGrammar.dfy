/**
 What JSON Pointers look like, stated without the parser: names of plain characters, the two escapes and, in a
 URI fragment, percent-encoded UTF-8, as in sections 3, 4 and 6 of RFC 6901; and what is wrong with any other
 text, and where.
 */
module PointerGrammar {
  import opened PointerText
  import opened TextAt
  import opened Wrappers
  import JsonDom
  import JsonGrammar
  import JsonStrings

  // ---------------------------------------------------------------------------------------------
  // Characters and bytes

  /** Section 2.3 of RFC 3986: what a URI may contain as it is. */
  predicate Unreserved(c: char) {
    c in {
      'A', 'B', 'C', 'D', 'E', 'F', 'G', 'H', 'I', 'J', 'K', 'L', 'M',
      'N', 'O', 'P', 'Q', 'R', 'S', 'T', 'U', 'V', 'W', 'X', 'Y', 'Z',
      'a', 'b', 'c', 'd', 'e', 'f', 'g', 'h', 'i', 'j', 'k', 'l', 'm',
      'n', 'o', 'p', 'q', 'r', 's', 't', 'u', 'v', 'w', 'x', 'y', 'z',
      '0', '1', '2', '3', '4', '5', '6', '7', '8', '9',
      '-', '.', '_', '~'}
  }

  lemma UnreservedExactly(c: char)
    ensures NeedPercentEncode(c) <==> !Unreserved(c)
  {
  }

  /** A byte as a percent triplet, digits in either case. */
  predicate TripletAt(s: string, i: nat, b: char) {
    && b as int < 256 && i + 3 <= |s| && s[i] == '%'
    && JsonStrings.IsHex(s[i + 1], b as int / 16) && JsonStrings.IsHex(s[i + 2], b as int % 16)
  }

  lemma TripletMeaning(s: string, i: nat, b: char)
    ensures PercentByte(s, i) == Some(b) <==> TripletAt(s, i, b)
  {
    hide JsonGrammar.HexDigit;
    hide JsonStrings.IsHex;
    if b as int < 256 && i + 3 <= |s| {
      var high, low := JsonGrammar.HexDigit(s[i + 1]), JsonGrammar.HexDigit(s[i + 2]);
      JsonStrings.HexDigitMeaning(s[i + 1], b as int / 16);
      JsonStrings.HexDigitMeaning(s[i + 2], b as int % 16);
      if high >= 0 && low >= 0 {
        DigitBound(s[i + 1]);
        DigitBound(s[i + 2]);
        JsonStrings.OneDigit(high, low, b as int);
      }
    }
  }

  lemma DigitBound(c: char)
    ensures JsonGrammar.HexDigit(c) < 16
  {
  }

  /** Bytes as percent triplets, one after the other. */
  predicate TripletsAt(s: string, i: nat, bytes: string)
    decreases |bytes|
  {
    bytes == [] || (TripletAt(s, i, bytes[0]) && TripletsAt(s, i + 3, bytes[1..]))
  }

  lemma {:induction false} FollowersMeaning(s: string, i: nat, masks: seq<bv8>, bytes: string)
    ensures PercentFollowers(s, i, masks) == Some(bytes)
      <==> |bytes| == |masks| && TripletsAt(s, i, bytes) && forall k :: 0 <= k < |masks| ==> Allowed(bytes[k], masks[k])
    decreases |masks|
  {
    hide Allowed;
    hide TripletAt;
    hide PercentByte;
    if masks != [] && bytes != [] {
      TripletMeaning(s, i, bytes[0]);
      FollowersMeaning(s, i + 3, masks[1..], bytes[1..]);
      assert [bytes[0]] + bytes[1..] == bytes;
      if PercentFollowers(s, i, masks) == Some(bytes) {
        var rest := PercentFollowers(s, i + 3, masks[1..]).value;
        assert ([bytes[0]] + rest)[1..] == rest;
        assert forall k :: 1 <= k < |masks| ==> bytes[k] == bytes[1..][k - 1] && masks[k] == masks[1..][k - 1];
      }
    }
  }

  /** The triplets of a whole scalar value, and nothing else, are taken as a sequence. */
  lemma SequenceMeaning(s: string, i: nat, bytes: string)
    ensures PercentSequence(s, i) == Some(bytes) <==> IsSequence(bytes) && TripletsAt(s, i, bytes)
  {
    hide Allowed;
    hide TripletAt;
    hide PercentByte;
    hide Followers;
    if bytes != [] {
      TripletMeaning(s, i, bytes[0]);
      assert [bytes[0]] + bytes[1..] == bytes;
      var f := Followers(bytes[0]);
      if f.Some? {
        FollowersMeaning(s, i + 3, f.value, bytes[1..]);
        assert |bytes| == 1 + |f.value| ==> forall k :: 0 <= k < |f.value| ==> bytes[1..][k] == bytes[k + 1];
      }
      if PercentSequence(s, i) == Some(bytes) {
        var rest := PercentFollowers(s, i + 3, Followers(PercentByte(s, i).value).value).value;
        assert ([bytes[0]] + rest)[1..] == rest;
      }
    }
  }

  // ---------------------------------------------------------------------------------------------
  // Pieces

  /** A Unicode scalar value: no surrogate. */
  type Scalar = codepoint: nat | codepoint < 0xD800 || 0xE000 <= codepoint <= 0x10FFFF

  /** An escape is a tilde, in a URI fragment maybe percent-encoded, and one of the digits 0 and 1. */
  datatype Piece =
    | Plain(c: char)
    | Escape(c: char, encoded: bool)
    | Encoded(codepoint: Scalar)

  predicate IsPiece(fragment: bool, p: Piece) {
    match p
    case Plain(c) => c != '/' && c != '~' && (fragment ==> Unreserved(c))
    case Escape(c, encoded) => (c == '/' || c == '~') && (encoded ==> fragment)
    case Encoded(codepoint) => fragment && codepoint != '~' as int
  }

  function Width(p: Piece): (n: nat)
    ensures n > 0
  {
    match p
    case Plain(_) => 1
    case Escape(_, encoded) => if encoded then 4 else 2
    case Encoded(codepoint) => UnitWidth(codepoint)
  }

  function UnitWidth(codepoint: nat): (n: nat)
    ensures n > 0
  {
    if codepoint < 0x80 then 3 else if codepoint < 0x800 then 6 else if codepoint < 0x10000 then 9 else 12
  }

  /** The bytes a piece stands for. */
  function Said(p: Piece): string {
    match p
    case Plain(c) => [c]
    case Escape(c, _) => [c]
    case Encoded(codepoint) => JsonGrammar.Utf8(codepoint)
  }

  function Digit(c: char): char {
    if c == '~' then '0' else '1'
  }

  /** The piece is spelled at a place of the text. */
  predicate PieceAt(s: string, i: nat, p: Piece) {
    match p
    case Plain(c) => At(s, i, [c])
    case Escape(c, false) => At(s, i, ['~', Digit(c)])
    case Escape(c, true) => TripletAt(s, i, '~') && At(s, i + 3, [Digit(c)])
    case Encoded(codepoint) => TripletsAt(s, i, JsonGrammar.Utf8(codepoint))
  }

  lemma EncodedIsRead(s: string, i: nat, codepoint: Scalar)
    requires TripletsAt(s, i, JsonGrammar.Utf8(codepoint))
    ensures PercentSequence(s, i) == Some(JsonGrammar.Utf8(codepoint))
    ensures |JsonGrammar.Utf8(codepoint)| * 3 == UnitWidth(codepoint) && i + UnitWidth(codepoint) <= |s|
    ensures s[i] == '%'
  {
    ScalarIsSequence(codepoint);
    SequenceMeaning(s, i, JsonGrammar.Utf8(codepoint));
  }

  lemma TildeIsSequence()
    ensures IsSequence("~") && JsonGrammar.Utf8(0x7E) == "~"
  {
  }

  lemma PieceIsRead(s: string, fragment: bool, i: nat, p: Piece)
    requires IsPiece(fragment, p) && PieceAt(s, i, p)
    ensures i + Width(p) <= |s|
    ensures ScanName(s, fragment, i) == Before(Said(p), ScanName(s, fragment, i + Width(p)))
  {
    hide TripletAt;
    hide TripletsAt;
    hide PercentSequence;
    hide JsonGrammar.Utf8;
    hide Unreserved;
    hide NeedPercentEncode;
    match p
    case Plain(c) =>
      UnreservedExactly(c);
      AtChar(s, i, [c], 0);
      if fragment {
        PercentIsReserved(c);
      }
      assert ScanName(s, fragment, i) == ScanUnit(s, fragment, i + 1, c);
    case Escape(c, false) =>
      AtChar(s, i, ['~', Digit(c)], 0);
      AtChar(s, i, ['~', Digit(c)], 1);
      TildeIsUnreserved();
      assert ScanName(s, fragment, i) == ScanUnit(s, fragment, i + 1, '~');
    case Escape(c, true) =>
      TildeIsRead(s, i);
      AtChar(s, i + 3, [Digit(c)], 0);
      assert ScanName(s, fragment, i) == ScanUnit(s, fragment, i + 3, '~');
    case Encoded(codepoint) =>
      EncodedIsRead(s, i, codepoint);
      OnlyTilde(codepoint);
      var bytes := JsonGrammar.Utf8(codepoint);
      if |bytes| == 1 {
        assert [bytes[0]] == bytes;
        assert ScanName(s, fragment, i) == ScanUnit(s, fragment, i + 3, bytes[0]);
      }
  }

  lemma TildeIsRead(s: string, i: nat)
    requires TripletAt(s, i, '~')
    ensures PercentSequence(s, i) == Some("~") && i + 3 <= |s| && s[i] == '%'
  {
    TildeIsSequence();
    assert TripletsAt(s, i, "~");
    SequenceMeaning(s, i, "~");
  }

  lemma TildeIsUnreserved()
    ensures !NeedPercentEncode('~')
  {
  }

  lemma PercentIsReserved(c: char)
    requires Unreserved(c)
    ensures c != '%'
  {
  }

  lemma OnlyTilde(codepoint: Scalar)
    ensures JsonGrammar.Utf8(codepoint) != [] && (|JsonGrammar.Utf8(codepoint)| == 1 <==> codepoint < 0x80)
    ensures codepoint != '~' as int && |JsonGrammar.Utf8(codepoint)| == 1 ==> JsonGrammar.Utf8(codepoint)[0] != '~'
  {
  }

  // ---------------------------------------------------------------------------------------------
  // What can be wrong

  /** No scalar value is spelled by triplets here. */
  ghost predicate NothingEncoded(s: string, i: nat) {
    forall codepoint: Scalar :: !TripletsAt(s, i, JsonGrammar.Utf8(codepoint))
  }

  predicate TildeAt(s: string, fragment: bool, i: nat, next: nat) {
    (At(s, i, "~") && next == i + 1) || (fragment && TripletAt(s, i, '~') && next == i + 3)
  }

  /** What keeps a name from going on, and where it is reported. */
  ghost predicate Fault(s: string, fragment: bool, i: nat, error: PointerError, offset: nat) {
    match error
    case InvalidEscape =>
      TildeAt(s, fragment, i, offset) && !At(s, offset, "0") && !At(s, offset, "1")
    case InvalidPercentEncoding =>
      fragment && At(s, i, "%") && NothingEncoded(s, i) && offset == i
    case CharacterMustPercentEncode =>
      fragment && i < |s| && s[i] != '%' && s[i] != '/' && !Unreserved(s[i]) && offset == i
    case TokenMustBeginWithSolidus => false
  }

  lemma FaultIsFound(s: string, fragment: bool, i: nat, error: PointerError, offset: nat)
    requires Fault(s, fragment, i, error, offset)
    ensures i <= |s| && ScanName(s, fragment, i) == Malformed(error, offset)
  {
    hide TripletAt;
    hide PercentSequence;
    hide NeedPercentEncode;
    hide Unreserved;
    hide NothingEncoded;
    if error == InvalidEscape {
      TildeIsUnreserved();
      NotAt(s, offset, '0');
      NotAt(s, offset, '1');
      if At(s, i, "~") {
        AtChar(s, i, "~", 0);
        assert offset == i + 1 || TripletAt(s, i, '~');
        if TripletAt(s, i, '~') {
          TildeIsRead(s, i);
        }
        assert ScanName(s, fragment, i) == ScanUnit(s, fragment, i + 1, '~');
      } else {
        TildeIsRead(s, i);
        assert ScanName(s, fragment, i) == ScanUnit(s, fragment, i + 3, '~');
      }
    } else if error == InvalidPercentEncoding {
      AtChar(s, i, "%", 0);
      NothingIsRead(s, i);
    } else {
      UnreservedExactly(s[i]);
    }
  }

  lemma NotAt(s: string, i: nat, c: char)
    ensures At(s, i, [c]) <==> i < |s| && s[i] == c
  {
    if i < |s| {
      assert s[i..i + 1] == [s[i]];
    }
  }

  lemma NothingIsRead(s: string, i: nat)
    ensures PercentSequence(s, i).None? <==> NothingEncoded(s, i)
  {
    hide PercentSequence;
    hide TripletsAt;
    hide IsSequence;
    hide CodepointOf;
    hide JsonGrammar.Utf8;
    if PercentSequence(s, i).Some? {
      var bytes := PercentSequence(s, i).value;
      SequenceMeaning(s, i, bytes);
      SequenceIsScalar(bytes);
      var codepoint: Scalar := CodepointOf(bytes);
    } else {
      forall codepoint: Scalar
        ensures !TripletsAt(s, i, JsonGrammar.Utf8(codepoint))
      {
        if TripletsAt(s, i, JsonGrammar.Utf8(codepoint)) {
          EncodedIsRead(s, i, codepoint);
        }
      }
    }
  }

  // ---------------------------------------------------------------------------------------------
  // Names

  function Widths(pieces: seq<Piece>): nat {
    if pieces == [] then 0 else Width(pieces[0]) + Widths(pieces[1..])
  }

  function AllSaid(pieces: seq<Piece>): string {
    if pieces == [] then [] else Said(pieces[0]) + AllSaid(pieces[1..])
  }

  predicate Spelled(s: string, fragment: bool, i: nat, pieces: seq<Piece>)
    decreases |pieces|
  {
    pieces == []
    || (IsPiece(fragment, pieces[0]) && PieceAt(s, i, pieces[0])
        && Spelled(s, fragment, i + Width(pieces[0]), pieces[1..]))
  }

  predicate EndsName(s: string, i: nat) {
    i == |s| || At(s, i, "/")
  }

  lemma {:induction false} PiecesAreRead(s: string, fragment: bool, i: nat, pieces: seq<Piece>)
    requires i <= |s| && Spelled(s, fragment, i, pieces)
    ensures i + Widths(pieces) <= |s|
    ensures ScanName(s, fragment, i) == Before(AllSaid(pieces), ScanName(s, fragment, i + Widths(pieces)))
    decreases |pieces|
  {
    hide ScanName;
    hide IsPiece;
    hide PieceAt;
    hide Width;
    hide Said;
    if pieces == [] {
      BeforeNothing(ScanName(s, fragment, i));
    } else {
      PieceIsRead(s, fragment, i, pieces[0]);
      var next := i + Width(pieces[0]);
      PiecesAreRead(s, fragment, next, pieces[1..]);
      BeforeBoth(Said(pieces[0]), AllSaid(pieces[1..]), ScanName(s, fragment, next + Widths(pieces[1..])));
    }
  }

  lemma BeforeNothing(scan: NameScan)
    ensures Before([], scan) == scan
  {
    if scan.Scanned? {
      assert [] + scan.name == scan.name;
    }
  }

  lemma BeforeBoth(a: string, b: string, scan: NameScan)
    ensures Before(a, Before(b, scan)) == Before(a + b, scan)
  {
    if scan.Scanned? {
      assert a + (b + scan.name) == a + b + scan.name;
    }
  }

  lemma NameEnds(s: string, fragment: bool, i: nat)
    requires EndsName(s, i)
    ensures i <= |s| && ScanName(s, fragment, i) == Scanned(i, [])
  {
    NotAt(s, i, '/');
  }

  /** The name ends here, goes on with a piece, or is at fault. */
  lemma NextStep(s: string, fragment: bool, i: nat) returns (p: Option<Piece>, error: PointerError, offset: nat)
    requires i < |s| && s[i] != '/'
    ensures p.Some? ==> IsPiece(fragment, p.value) && PieceAt(s, i, p.value)
    ensures p.None? ==> Fault(s, fragment, i, error, offset)
  {
    error, offset := InvalidEscape, i + 1;
    NotAt(s, i, s[i]);
    if fragment && s[i] == '%' {
      p, error, offset := NextEncoded(s, i);
    } else if s[i] == '~' {
      p := NextEscape(s, fragment, i, false);
    } else if fragment && !Unreserved(s[i]) {
      p, error, offset := None, CharacterMustPercentEncode, i;
    } else {
      p := Some(Plain(s[i]));
    }
  }

  lemma NextEscape(s: string, fragment: bool, i: nat, encoded: bool) returns (p: Option<Piece>)
    requires if encoded then fragment && TripletAt(s, i, '~') else At(s, i, "~")
    ensures p.Some? ==> IsPiece(fragment, p.value) && PieceAt(s, i, p.value)
    ensures p.None? ==> Fault(s, fragment, i, InvalidEscape, if encoded then i + 3 else i + 1)
  {
    var next := if encoded then i + 3 else i + 1;
    NotAt(s, next, '0');
    NotAt(s, next, '1');
    if next < |s| && (s[next] == '0' || s[next] == '1') {
      p := Some(Escape(if s[next] == '0' then '~' else '/', encoded));
      if !encoded {
        assert s[i..i + 2] == s[i..i + 1] + [s[next]];
      }
    } else {
      p := None;
    }
  }

  lemma NextEncoded(s: string, i: nat) returns (p: Option<Piece>, error: PointerError, offset: nat)
    requires At(s, i, "%")
    ensures p.Some? ==> IsPiece(true, p.value) && PieceAt(s, i, p.value)
    ensures p.None? ==> Fault(s, true, i, error, offset)
  {
    hide TripletsAt;
    hide NothingEncoded;
    error, offset := InvalidEscape, i + 3;
    if codepoint: Scalar :| TripletsAt(s, i, JsonGrammar.Utf8(codepoint)) {
      if codepoint == '~' as int {
        TildeTriplet(s, i);
        p := NextEscape(s, true, i, true);
      } else {
        p := Some(Encoded(codepoint));
      }
    } else {
      p, error, offset := None, InvalidPercentEncoding, i;
      NothingByDefinition(s, i);
    }
  }

  lemma TildeTriplet(s: string, i: nat)
    requires TripletsAt(s, i, JsonGrammar.Utf8(0x7E))
    ensures TripletAt(s, i, '~')
  {
    TildeIsSequence();
  }

  lemma NothingByDefinition(s: string, i: nat)
    requires forall codepoint: Scalar :: !TripletsAt(s, i, JsonGrammar.Utf8(codepoint))
    ensures NothingEncoded(s, i)
  {
  }

  lemma HereEndsName(s: string, i: nat)
    requires i == |s| || (i < |s| && s[i] == '/')
    ensures EndsName(s, i)
  {
    NotAt(s, i, '/');
  }

  /** Every text from here on is some pieces, and then the end of the name or a fault. */
  lemma {:induction false} ScanHasPieces(s: string, fragment: bool, i: nat)
    returns (pieces: seq<Piece>, error: PointerError, offset: nat)
    requires i <= |s|
    ensures Spelled(s, fragment, i, pieces) && i + Widths(pieces) <= |s|
    ensures EndsName(s, i + Widths(pieces)) || Fault(s, fragment, i + Widths(pieces), error, offset)
    decreases |s| - i
  {
    hide ScanName;
    hide Said;
    hide EndsName;
    hide IsPiece;
    hide PieceAt;
    hide Fault;
    hide Width;
    pieces, error, offset := [], InvalidEscape, i;
    if i < |s| && s[i] != '/' {
      var p;
      p, error, offset := NextStep(s, fragment, i);
      if p.Some? {
        PieceIsRead(s, fragment, i, p.value);
        var rest;
        rest, error, offset := ScanHasPieces(s, fragment, i + Width(p.value));
        pieces := [p.value] + rest;
        assert pieces[1..] == rest;
      }
    } else {
      HereEndsName(s, i);
    }
  }

  // ---------------------------------------------------------------------------------------------
  // Whole pointers

  /** Names with a solidus before each. */
  predicate AllSpelled(s: string, fragment: bool, i: nat, names: seq<seq<Piece>>)
    decreases |names|
  {
    names == []
    || (At(s, i, "/") && Spelled(s, fragment, i + 1, names[0])
        && AllSpelled(s, fragment, i + 1 + Widths(names[0]), names[1..]))
  }

  function EndOf(i: nat, names: seq<seq<Piece>>): nat
    decreases |names|
  {
    if names == [] then i else EndOf(i + 1 + Widths(names[0]), names[1..])
  }

  function Meanings(names: seq<seq<Piece>>): seq<string> {
    if names == [] then [] else [AllSaid(names[0])] + Meanings(names[1..])
  }

  lemma {:induction false} NamesAreRead(s: string, fragment: bool, i: nat, names: seq<seq<Piece>>)
    requires AllSpelled(s, fragment, i, names) && EndOf(i, names) == |s|
    ensures i <= |s| && (i < |s| ==> s[i] == '/') && ScanNames(s, fragment, i) == Names(Meanings(names))
    decreases |names|
  {
    hide ScanName;
    hide Spelled;
    hide Widths;
    hide AllSaid;
    if names != [] {
      var next := i + 1 + Widths(names[0]);
      NamesAreRead(s, fragment, next, names[1..]);
      NotAt(s, i, '/');
      PiecesAreRead(s, fragment, i + 1, names[0]);
      NotAt(s, next, '/');
      NameEnds(s, fragment, next);
      assert AllSaid(names[0]) + [] == AllSaid(names[0]);
    }
  }

  lemma {:induction false} FaultIsReported(s: string, fragment: bool, i: nat, names: seq<seq<Piece>>,
                                           error: PointerError, offset: nat)
    requires names != [] && AllSpelled(s, fragment, i, names) && Fault(s, fragment, EndOf(i, names), error, offset)
    ensures i < |s| && s[i] == '/' && ScanNames(s, fragment, i) == Rejected(error, offset)
    decreases |names|
  {
    hide ScanName;
    hide Spelled;
    hide Widths;
    hide AllSaid;
    hide Fault;
    var next := i + 1 + Widths(names[0]);
    NotAt(s, i, '/');
    PiecesAreRead(s, fragment, i + 1, names[0]);
    if names[1..] == [] {
      FaultIsFound(s, fragment, next, error, offset);
    } else {
      FaultIsReported(s, fragment, next, names[1..], error, offset);
      NotAt(s, next, '/');
      NameEnds(s, fragment, next);
    }
  }

  lemma {:induction false} ScanHasNames(s: string, fragment: bool, i: nat)
    returns (names: seq<seq<Piece>>, error: PointerError, offset: nat)
    requires i <= |s| && (i < |s| ==> s[i] == '/')
    ensures AllSpelled(s, fragment, i, names)
    ensures EndOf(i, names) == |s| || (names != [] && Fault(s, fragment, EndOf(i, names), error, offset))
    decreases |s| - i
  {
    hide Spelled;
    hide Widths;
    hide Fault;
    names, error, offset := [], InvalidEscape, i;
    if i < |s| {
      NotAt(s, i, '/');
      var first;
      first, error, offset := ScanHasPieces(s, fragment, i + 1);
      var next := i + 1 + Widths(first);
      var rest := [];
      if EndsName(s, next) {
        NotAt(s, next, '/');
        rest, error, offset := ScanHasNames(s, fragment, next);
      }
      names := [first] + rest;
      assert names[1..] == rest;
    }
  }

  function Start(s: string): nat {
    if s != [] && s[0] == '#' then 1 else 0
  }

  predicate IsPointer(s: string, names: seq<seq<Piece>>) {
    AllSpelled(s, Start(s) == 1, Start(s), names) && EndOf(Start(s), names) == |s|
  }

  /** The text goes on as a pointer up to a fault. */
  ghost predicate IsFaulty(s: string, names: seq<seq<Piece>>, error: PointerError, offset: nat) {
    if names == [] then
      Start(s) < |s| && s[Start(s)] != '/' && error == TokenMustBeginWithSolidus && offset == Start(s)
    else
      AllSpelled(s, Start(s) == 1, Start(s), names) && Fault(s, Start(s) == 1, EndOf(Start(s), names), error, offset)
  }

  lemma PointerIsRead(s: string, names: seq<seq<Piece>>)
    requires IsPointer(s, names)
    ensures Parse(s) == Names(Meanings(names))
  {
    hide AllSpelled;
    hide EndOf;
    NamesAreRead(s, Start(s) == 1, Start(s), names);
  }

  lemma FaultIsRejected(s: string, names: seq<seq<Piece>>, error: PointerError, offset: nat)
    requires IsFaulty(s, names, error, offset)
    ensures Parse(s) == Rejected(error, offset)
  {
    hide AllSpelled;
    hide EndOf;
    hide Fault;
    if names != [] {
      FaultIsReported(s, Start(s) == 1, Start(s), names, error, offset);
    }
  }

  /** Every text is a pointer or faulty. */
  lemma PointerOrFaulty(s: string) returns (names: seq<seq<Piece>>, error: PointerError, offset: nat)
    ensures IsPointer(s, names) || IsFaulty(s, names, error, offset)
  {
    hide AllSpelled;
    hide EndOf;
    hide Fault;
    var i := Start(s);
    if i < |s| && s[i] != '/' {
      names, error, offset := [], TokenMustBeginWithSolidus, i;
    } else {
      names, error, offset := ScanHasNames(s, i == 1, i);
    }
  }

  /** The texts parsed are exactly the pointers, and the names are what their pieces stand for. */
  lemma PointersAreParsed(s: string, values: seq<string>)
    ensures Parse(s) == Names(values) <==> exists names :: IsPointer(s, names) && Meanings(names) == values
  {
    hide IsPointer;
    hide IsFaulty;
    hide Parse;
    var names, error, offset := PointerOrFaulty(s);
    if Parse(s) == Names(values) {
      if IsFaulty(s, names, error, offset) {
        FaultIsRejected(s, names, error, offset);
      } else {
        PointerIsRead(s, names);
      }
    }
    if some :| IsPointer(s, some) && Meanings(some) == values {
      PointerIsRead(s, some);
    }
  }

  /** All others are rejected for their first fault, at its place. */
  lemma FaultsAreRejected(s: string, error: PointerError, offset: nat)
    ensures Parse(s) == Rejected(error, offset) <==> exists names :: IsFaulty(s, names, error, offset)
  {
    hide IsPointer;
    hide IsFaulty;
    hide Parse;
    var names, e, at := PointerOrFaulty(s);
    if Parse(s) == Rejected(error, offset) {
      if IsPointer(s, names) {
        PointerIsRead(s, names);
      } else {
        FaultIsRejected(s, names, e, at);
      }
    }
    if some :| IsFaulty(s, some, error, offset) {
      FaultIsRejected(s, some, error, offset);
    }
  }

  // ---------------------------------------------------------------------------------------------
  // Printing

  /** Bytes as triplets with capital digits. */
  function Triplets(bytes: string): string {
    if bytes == [] then []
    else
      var b := bytes[0] as int % 256;
      ['%', JsonStrings.UPPER[b / 16], JsonStrings.UPPER[b % 16]] + Triplets(bytes[1..])
  }

  /** One scalar value in a URI fragment. */
  function Printed(codepoint: Scalar): string {
    if codepoint == '~' as int then "~0"
    else if codepoint == '/' as int then "~1"
    else if codepoint < 0x80 && Unreserved(codepoint as char) then [codepoint as char]
    else Triplets(JsonGrammar.Utf8(codepoint))
  }

  function AllPrinted(codepoints: seq<Scalar>): string {
    if codepoints == [] then [] else Printed(codepoints[0]) + AllPrinted(codepoints[1..])
  }

  function AllBytes(codepoints: seq<Scalar>): string {
    if codepoints == [] then [] else JsonGrammar.Utf8(codepoints[0]) + AllBytes(codepoints[1..])
  }

  lemma {:induction false} TripletsArePrinted(bytes: string)
    ensures PercentAll(bytes) == Triplets(bytes)
  {
    if bytes != [] {
      TripletsArePrinted(bytes[1..]);
      CapitalDigits(bytes[0] as int % 256 / 16);
      CapitalDigits(bytes[0] as int % 256 % 16);
    }
  }

  lemma CapitalDigits(d: nat)
    requires d < 16
    ensures JsonDom.HexLetter(d) == JsonStrings.UPPER[d]
  {
  }

  /** In a URI fragment only what has to be is percent-encoded, as whole sequences and with capital digits. */
  lemma {:induction false} FragmentIsPrinted(codepoints: seq<Scalar>)
    ensures NameText(true, AllBytes(codepoints)) == Some(AllPrinted(codepoints))
    decreases |codepoints|
  {
    hide JsonGrammar.Utf8;
    hide FirstSequence;
    hide NeedPercentEncode;
    hide Unreserved;
    hide PercentAll;
    hide Triplets;
    if codepoints != [] {
      var bytes, rest := JsonGrammar.Utf8(codepoints[0]), AllBytes(codepoints[1..]);
      FirstOfEncoded(codepoints[0], rest);
      ScalarIsSequence(codepoints[0]);
      FragmentIsPrinted(codepoints[1..]);
      TripletsArePrinted(bytes);
      assert (bytes + rest)[|bytes|..] == rest && (bytes + rest)[0] == bytes[0];
      UnreservedExactly(bytes[0]);
      TildeIsUnreserved();
      if codepoints[0] < 0x80 {
        OneByte(codepoints[0]);
      }
    }
  }

  /** As a string nothing is encoded, and only the tilde and the solidus are escaped. */
  lemma {:induction false} StringIsPrinted(name: string)
    ensures NameText(false, name) == Some(AllEscaped(name))
  {
    if name != [] {
      StringIsPrinted(name[1..]);
      assert name[..1] == [name[0]];
    }
  }

  function AllEscaped(name: string): string {
    if name == [] then []
    else (if name[0] == '~' then "~0" else if name[0] == '/' then "~1" else name[..1]) + AllEscaped(name[1..])
  }

  /** Names with a solidus before each, behind the number sign of a fragment. */
  lemma {:induction false} NamesArePrinted(fragment: bool, names: seq<string>, texts: seq<string>)
    requires |texts| == |names| && forall k :: 0 <= k < |names| ==> NameText(fragment, names[k]) == Some(texts[k])
    ensures NamesText(fragment, names) == Some(Joined(texts))
    ensures Stringify(fragment, names) == Some((if fragment then "#" else "") + Joined(texts))
    decreases |names|
  {
    hide NameText;
    if names != [] {
      assert NameText(fragment, names[0]) == Some(texts[0]);
      NamesArePrinted(fragment, names[1..], texts[1..]);
    }
  }

  function Joined(texts: seq<string>): string {
    if texts == [] then [] else "/" + texts[0] + Joined(texts[1..])
  }
}
