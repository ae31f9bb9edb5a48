/**
 The text of a JSON Pointer: parsing and printing, as a string and as a URI fragment, after
 include/rapidjson/pointer.h with the UTF-8 check of include/rapidjson/encodings.h.
 */
module PointerText {
  import opened TextAt
  import opened Wrappers
  import JsonGrammar
  import JsonDom

  // ---------------------------------------------------------------------------------------------
  // UTF-8 by table

  /** The class of a byte. */
  function Range(u: nat): bv8 {
    if u < 0x80 then 0
    else if u < 0x90 then 0x10
    else if u < 0xA0 then 0x40
    else if u < 0xC0 then 0x20
    else if u < 0xC2 then 8
    else if u < 0xE0 then 2
    else if u == 0xE0 then 10
    else if u == 0xED then 4
    else if u < 0xF0 then 3
    else if u == 0xF0 then 11
    else if u < 0xF4 then 6
    else if u == 0xF4 then 5
    else 8
  }

  predicate Allowed(c: char, mask: bv8) {
    Range(c as int) & mask != 0
  }

  /** The classes allowed after a lead byte, in order; None if the byte cannot lead. */
  function Followers(lead: char): (r: Option<seq<bv8>>)
    ensures r.Some? ==> |r.value| <= 3
  {
    if lead as int < 0x80 then Some([])
    else
      var range := Range(lead as int);
      if range == 2 then Some([0x70])
      else if range == 3 then Some([0x70, 0x70])
      else if range == 4 then Some([0x50, 0x70])
      else if range == 5 then Some([0x10, 0x70, 0x70])
      else if range == 6 then Some([0x70, 0x70, 0x70])
      else if range == 10 then Some([0x20, 0x70])
      else if range == 11 then Some([0x60, 0x70, 0x70])
      else None
  }

  /** The bytes are one complete sequence. */
  predicate IsSequence(bytes: string) {
    bytes != [] &&
    var f := Followers(bytes[0]);
    f.Some? && |bytes| == 1 + |f.value| && forall k :: 0 <= k < |f.value| ==> Allowed(bytes[k + 1], f.value[k])
  }

  /** Unicode scalar values: no surrogates. */
  predicate IsScalar(codepoint: nat) {
    codepoint <= 0x10FFFF && !(0xD800 <= codepoint <= 0xDFFF)
  }

  /** The bytes the table lets through, mask by mask. */
  lemma AllowedRange(c: char)
    ensures Allowed(c, 0x70) <==> 0x80 <= c as int < 0xC0
    ensures Allowed(c, 0x50) <==> 0x80 <= c as int < 0xA0
    ensures Allowed(c, 0x10) <==> 0x80 <= c as int < 0x90
    ensures Allowed(c, 0x20) <==> 0xA0 <= c as int < 0xC0
    ensures Allowed(c, 0x60) <==> 0x90 <= c as int < 0xC0
  {
  }

  lemma FollowersByLead(c: char)
    ensures var u := c as int;
      Followers(c) ==
        if u < 0x80 then Some([])
        else if 0xC2 <= u < 0xE0 then Some([0x70])
        else if u == 0xE0 then Some([0x20, 0x70])
        else if u == 0xED then Some([0x50, 0x70])
        else if 0xE0 < u < 0xF0 then Some([0x70, 0x70])
        else if u == 0xF0 then Some([0x60, 0x70, 0x70])
        else if 0xF0 < u < 0xF4 then Some([0x70, 0x70, 0x70])
        else if u == 0xF4 then Some([0x10, 0x70, 0x70])
        else None
  {
  }

  lemma ScalarIsSequence(codepoint: nat)
    requires IsScalar(codepoint)
    ensures IsSequence(JsonGrammar.Utf8(codepoint))
  {
    hide Allowed;
    hide Followers;
    var bytes := JsonGrammar.Utf8(codepoint);
    FollowersByLead(bytes[0]);
    forall k | 1 <= k < |bytes| ensures Allowed(bytes[k], Followers(bytes[0]).value[k - 1]) {
      AllowedRange(bytes[k]);
    }
  }

  /** The scalar value a sequence spells. */
  function CodepointOf(bytes: string): int
    requires 1 <= |bytes| <= 4
  {
    var lead := bytes[0] as int;
    if |bytes| == 1 then lead
    else
      var b := bytes[1] as int - 0x80;
      if |bytes| == 2 then (lead - 0xC0) * 64 + b
      else
        var c := bytes[2] as int - 0x80;
        if |bytes| == 3 then (lead - 0xE0) * 4096 + b * 64 + c
        else (lead - 0xF0) * 262144 + b * 4096 + c * 64 + (bytes[3] as int - 0x80)
  }

  lemma Split64(a: int, b: int)
    requires 0 <= b < 64
    ensures (a * 64 + b) / 64 == a && (a * 64 + b) % 64 == b
  {
  }

  lemma SpellTwo(bytes: string)
    requires |bytes| == 2 && 0xC2 <= bytes[0] as int < 0xE0 && 0x80 <= bytes[1] as int < 0xC0
    ensures var cp := CodepointOf(bytes);
      0x80 <= cp <= 0x7FF && JsonGrammar.Utf8(cp) == bytes
  {
    Split64(bytes[0] as int - 0xC0, bytes[1] as int - 0x80);
  }

  lemma SpellThree(bytes: string)
    requires |bytes| == 3 && 0xE0 <= bytes[0] as int < 0xF0
    requires 0x80 <= bytes[1] as int < 0xC0 && 0x80 <= bytes[2] as int < 0xC0
    requires bytes[0] as int == 0xE0 ==> bytes[1] as int >= 0xA0
    ensures var cp := CodepointOf(bytes);
      && 0x800 <= cp <= 0xFFFF && JsonGrammar.Utf8(cp) == bytes
      && (0xD800 <= cp <= 0xDFFF <==> bytes[0] as int == 0xED && bytes[1] as int >= 0xA0)
  {
    var a, b, c := bytes[0] as int - 0xE0, bytes[1] as int - 0x80, bytes[2] as int - 0x80;
    Split64(a * 64 + b, c);
    Split64(a, b);
    assert CodepointOf(bytes) == (a * 64 + b) * 64 + c;
  }

  lemma SpellFour(bytes: string)
    requires |bytes| == 4 && 0xF0 <= bytes[0] as int <= 0xF4
    requires 0x80 <= bytes[1] as int < 0xC0 && 0x80 <= bytes[2] as int < 0xC0 && 0x80 <= bytes[3] as int < 0xC0
    requires bytes[0] as int == 0xF0 ==> bytes[1] as int >= 0x90
    requires bytes[0] as int == 0xF4 ==> bytes[1] as int < 0x90
    ensures var cp := CodepointOf(bytes);
      0x10000 <= cp <= 0x10FFFF && JsonGrammar.Utf8(cp) == bytes
  {
    var a, b, c, d := bytes[0] as int - 0xF0, bytes[1] as int - 0x80, bytes[2] as int - 0x80, bytes[3] as int - 0x80;
    Split64((a * 64 + b) * 64 + c, d);
    Split64(a * 64 + b, c);
    Split64(a, b);
    var cp := ((a * 64 + b) * 64 + c) * 64 + d;
    assert CodepointOf(bytes) == cp;
    assert cp / 4096 == cp / 64 / 64 && cp / 262144 == cp / 4096 / 64;
  }

  /** The table accepts exactly the sequences that spell scalar values. */
  lemma SequenceIsScalar(bytes: string)
    requires IsSequence(bytes)
    ensures var cp := CodepointOf(bytes);
      cp >= 0 && IsScalar(cp) && JsonGrammar.Utf8(cp) == bytes
  {
    hide Allowed;
    hide Followers;
    hide CodepointOf;
    hide JsonGrammar.Utf8;
    FollowersByLead(bytes[0]);
    var f := Followers(bytes[0]).value;
    if |f| == 0 {
      SpellOne(bytes);
    } else {
      AllowedRange(bytes[1]);
      assert Allowed(bytes[0 + 1], f[0]);
      if |f| == 1 {
        SpellTwo(bytes);
      } else {
        AllowedRange(bytes[2]);
        assert Allowed(bytes[1 + 1], f[1]);
        if |f| == 2 {
          SpellThree(bytes);
        } else {
          AllowedRange(bytes[3]);
          assert Allowed(bytes[2 + 1], f[2]);
          SpellFour(bytes);
        }
      }
    }
  }

  lemma SpellOne(bytes: string)
    requires |bytes| == 1 && bytes[0] as int < 0x80
    ensures JsonGrammar.Utf8(CodepointOf(bytes)) == bytes && 0 <= CodepointOf(bytes) < 0x80
  {
  }

  // ---------------------------------------------------------------------------------------------
  // Printing

  predicate NeedPercentEncode(c: char) {
    !('0' <= c <= '9' || 'A' <= c <= 'Z' || 'a' <= c <= 'z' || c == '-' || c == '.' || c == '_' || c == '~')
  }

  function Percent(c: char): string {
    var u := c as int % 256;
    ['%', JsonDom.HexLetter(u / 16), JsonDom.HexLetter(u % 16)]
  }

  function PercentAll(bytes: string): (s: string)
    ensures |s| == 3 * |bytes|
  {
    if bytes == [] then [] else Percent(bytes[0]) + PercentAll(bytes[1..])
  }

  /** The sequence a name begins with. */
  function FirstSequence(name: string): (r: Option<string>)
    requires name != []
    ensures r.Some? ==> IsSequence(r.value) && |r.value| <= |name| && r.value == name[..|r.value|]
  {
    var f := Followers(name[0]);
    if f.Some? && 1 + |f.value| <= |name| && IsSequence(name[..1 + |f.value|]) then Some(name[..1 + |f.value|])
    else None
  }

  function Prefix(s: string, rest: Option<string>): Option<string> {
    if rest.None? then None else Some(s + rest.value)
  }

  /** One name printed; None when a URI fragment is asked for and the name is not UTF-8. */
  function NameText(fragment: bool, name: string): Option<string>
    decreases |name|
  {
    if name == [] then Some([])
    else if name[0] == '~' then Prefix("~0", NameText(fragment, name[1..]))
    else if name[0] == '/' then Prefix("~1", NameText(fragment, name[1..]))
    else if fragment && NeedPercentEncode(name[0]) then
      var bytes := FirstSequence(name);
      if bytes.None? then None
      else Prefix(PercentAll(bytes.value), NameText(fragment, name[|bytes.value|..]))
    else Prefix([name[0]], NameText(fragment, name[1..]))
  }

  function NamesText(fragment: bool, names: seq<string>): Option<string> {
    if names == [] then Some([])
    else
      var first := NameText(fragment, names[0]);
      if first.None? then None else Prefix("/" + first.value, NamesText(fragment, names[1..]))
  }

  function Stringify(fragment: bool, names: seq<string>): Option<string> {
    Prefix(if fragment then "#" else "", NamesText(fragment, names))
  }

  // ---------------------------------------------------------------------------------------------
  // Parsing

  datatype PointerError =
    | TokenMustBeginWithSolidus
    | InvalidEscape
    | InvalidPercentEncoding
    | CharacterMustPercentEncode

  /** The rest of a name and the position after it. */
  datatype NameScan = Scanned(next: nat, name: string) | Malformed(error: PointerError, offset: nat)

  function Before(s: string, rest: NameScan): NameScan {
    if rest.Malformed? then rest else rest.(name := s + rest.name)
  }

  /** A byte written as % and two hexadecimal digits. */
  function PercentByte(s: string, i: nat): (r: Option<char>)
    ensures r.Some? ==> i + 3 <= |s| && r.value as int < 256
  {
    if i + 3 > |s| || s[i] != '%' then None
    else
      var high, low := JsonGrammar.HexDigit(s[i + 1]), JsonGrammar.HexDigit(s[i + 2]);
      if high < 0 || low < 0 then None else Some((high * 16 + low) as char)
  }

  function PercentFollowers(s: string, i: nat, masks: seq<bv8>): (r: Option<string>)
    ensures r.Some? ==> |r.value| == |masks| && (masks != [] ==> i + 3 * |masks| <= |s|)
    decreases |masks|
  {
    if masks == [] then Some([])
    else
      var b := PercentByte(s, i);
      if b.None? || !Allowed(b.value, masks[0]) then None
      else Prefix([b.value], PercentFollowers(s, i + 3, masks[1..]))
  }

  /** A whole UTF-8 sequence of percent-encoded bytes. */
  function PercentSequence(s: string, i: nat): (r: Option<string>)
    ensures r.Some? ==> 1 <= |r.value| <= 4 && i + 3 * |r.value| <= |s|
  {
    var lead := PercentByte(s, i);
    if lead.None? then None
    else
      var f := Followers(lead.value);
      if f.None? then None else Prefix([lead.value], PercentFollowers(s, i + 3, f.value))
  }

  function ScanName(s: string, fragment: bool, i: nat): (r: NameScan)
    requires i <= |s|
    ensures r.Scanned? ==> i <= r.next <= |s| && (r.next < |s| ==> s[r.next] == '/')
    decreases |s| - i, 1
  {
    if i == |s| || s[i] == '/' then Scanned(i, [])
    else if fragment && s[i] == '%' then
      var bytes := PercentSequence(s, i);
      if bytes.None? then Malformed(InvalidPercentEncoding, i)
      else if |bytes.value| == 1 then ScanUnit(s, fragment, i + 3, bytes.value[0])
      else Before(bytes.value, ScanName(s, fragment, i + 3 * |bytes.value|))
    else if fragment && NeedPercentEncode(s[i]) then Malformed(CharacterMustPercentEncode, i)
    else ScanUnit(s, fragment, i + 1, s[i])
  }

  /** A code unit, already read up to i, and the rest of the name. */
  function ScanUnit(s: string, fragment: bool, i: nat, c: char): (r: NameScan)
    requires i <= |s|
    ensures r.Scanned? ==> i <= r.next <= |s| && (r.next < |s| ==> s[r.next] == '/')
    decreases |s| - i, 2
  {
    if c != '~' then Before([c], ScanName(s, fragment, i))
    else if i < |s| && s[i] == '0' then Before("~", ScanName(s, fragment, i + 1))
    else if i < |s| && s[i] == '1' then Before("/", ScanName(s, fragment, i + 1))
    else Malformed(InvalidEscape, i)
  }

  datatype Parsed = Names(names: seq<string>) | Rejected(error: PointerError, offset: nat)

  function ScanNames(s: string, fragment: bool, i: nat): Parsed
    requires i <= |s| && (i < |s| ==> s[i] == '/')
    decreases |s| - i
  {
    if i == |s| then Names([])
    else
      var first := ScanName(s, fragment, i + 1);
      if first.Malformed? then Rejected(first.error, first.offset)
      else
        var rest := ScanNames(s, fragment, first.next);
        if rest.Rejected? then rest else Names([first.name] + rest.names)
  }

  predicate IsFragment(s: string) {
    s != [] && s[0] == '#'
  }

  function Parse(s: string): Parsed {
    var i := if IsFragment(s) then 1 else 0;
    if i < |s| && s[i] != '/' then Rejected(TokenMustBeginWithSolidus, i)
    else ScanNames(s, IsFragment(s), i)
  }

  // ---------------------------------------------------------------------------------------------
  // Printing, then parsing

  lemma ReadByte(s: string, i: nat, c: char)
    requires c as int < 256 && At(s, i, Percent(c))
    ensures PercentByte(s, i) == Some(c)
  {
    var p := Percent(c);
    AtChar(s, i, p, 0);
    AtChar(s, i, p, 1);
    AtChar(s, i, p, 2);
  }

  lemma {:induction false} ReadFollowers(s: string, i: nat, bytes: string, masks: seq<bv8>)
    requires |bytes| == |masks| && forall k :: 0 <= k < |masks| ==> Allowed(bytes[k], masks[k]) && masks[k] & 0x0F == 0
    requires At(s, i, PercentAll(bytes))
    ensures PercentFollowers(s, i, masks) == Some(bytes)
    decreases |bytes|
  {
    hide Allowed;
    hide Percent;
    hide PercentByte;
    if bytes != [] {
      AtSplit(s, i, Percent(bytes[0]), PercentAll(bytes[1..]));
      AllowedIsByte(bytes[0], masks[0]);
      ReadByte(s, i, bytes[0]);
      ReadFollowers(s, i + 3, bytes[1..], masks[1..]);
      assert [bytes[0]] + bytes[1..] == bytes;
    }
  }

  lemma AllowedIsByte(c: char, mask: bv8)
    requires Allowed(c, mask) && mask & 0x0F == 0
    ensures c as int < 256
  {
  }

  lemma ReadSequence(s: string, i: nat, bytes: string)
    requires IsSequence(bytes) && At(s, i, PercentAll(bytes))
    ensures PercentSequence(s, i) == Some(bytes)
  {
    hide Allowed;
    hide Percent;
    hide PercentByte;
    hide Followers;
    FollowersByLead(bytes[0]);
    AtSplit(s, i, Percent(bytes[0]), PercentAll(bytes[1..]));
    ReadByte(s, i, bytes[0]);
    ReadFollowers(s, i + 3, bytes[1..], Followers(bytes[0]).value);
    assert [bytes[0]] + bytes[1..] == bytes;
  }

  lemma ScanEscaped(s: string, fragment: bool, i: nat, c: char, rest: NameScan)
    requires c == '~' || c == '/'
    requires i + 2 <= |s| && s[i] == '~' && s[i + 1] == (if c == '~' then '0' else '1')
    requires ScanName(s, fragment, i + 2) == rest
    ensures ScanName(s, fragment, i) == Before([c], rest)
  {
    hide PercentSequence;
    assert ScanName(s, fragment, i) == ScanUnit(s, fragment, i + 1, '~');
  }

  lemma ScanPlain(s: string, fragment: bool, i: nat, c: char, rest: NameScan)
    requires c != '~' && c != '/' && !(fragment && NeedPercentEncode(c))
    requires i < |s| && s[i] == c && ScanName(s, fragment, i + 1) == rest
    ensures ScanName(s, fragment, i) == Before([c], rest)
  {
    hide PercentSequence;
    assert ScanName(s, fragment, i) == ScanUnit(s, fragment, i + 1, c);
  }

  lemma ScanEncoded(s: string, i: nat, bytes: string, rest: NameScan)
    requires i < |s| && s[i] == '%' && PercentSequence(s, i) == Some(bytes) && bytes[0] != '~'
    requires ScanName(s, true, i + 3 * |bytes|) == rest
    ensures ScanName(s, true, i) == Before(bytes, rest)
  {
    hide PercentSequence;
    if |bytes| == 1 {
      assert bytes == [bytes[0]];
      assert ScanName(s, true, i) == ScanUnit(s, true, i + 3, bytes[0]);
    }
  }

  /** How a code unit that is not percent-encoded is printed. */
  function Piece(c: char): string {
    if c == '~' then "~0" else if c == '/' then "~1" else [c]
  }

  lemma NameTextStep(fragment: bool, name: string)
    requires name != [] && (name[0] == '~' || name[0] == '/' || !(fragment && NeedPercentEncode(name[0])))
    ensures NameText(fragment, name) == Prefix(Piece(name[0]), NameText(fragment, name[1..]))
  {
  }

  /** A printed name, followed by a solidus or the end, is read back. */
  lemma {:induction false} ReadName(s: string, fragment: bool, i: nat, name: string)
    requires var text := NameText(fragment, name);
      text.Some? && At(s, i, text.value) && (i + |text.value| < |s| ==> s[i + |text.value|] == '/')
    ensures ScanName(s, fragment, i) == Scanned(i + |NameText(fragment, name).value|, name)
    decreases |name|
  {
    if name == [] {
    } else if name[0] != '~' && name[0] != '/' && fragment && NeedPercentEncode(name[0]) {
      hide ScanName;
      hide NameText;
      hide At;
      ReadEncoded(s, i, name);
    } else {
      hide ScanName;
      hide NameText;
      hide At;
      ReadUnit(s, fragment, i, name);
    }
  }

  lemma {:induction false} ReadUnit(s: string, fragment: bool, i: nat, name: string)
    requires name != [] && (name[0] == '~' || name[0] == '/' || !(fragment && NeedPercentEncode(name[0])))
    requires var text := NameText(fragment, name);
      text.Some? && At(s, i, text.value) && (i + |text.value| < |s| ==> s[i + |text.value|] == '/')
    ensures ScanName(s, fragment, i) == Scanned(i + |NameText(fragment, name).value|, name)
    decreases |name|, 0
  {
    hide NameText;
    hide ScanName;
    hide NeedPercentEncode;
    NameTextStep(fragment, name);
    var c, rest := name[0], NameText(fragment, name[1..]).value;
    var piece := Piece(c);
    AtSplit(s, i, piece, rest);
    AtChar(s, i, piece, 0);
    ReadName(s, fragment, i + |piece|, name[1..]);
    var scan := Scanned(i + |piece| + |rest|, name[1..]);
    if c == '~' || c == '/' {
      AtChar(s, i, piece, 1);
      ScanEscaped(s, fragment, i, c, scan);
    } else {
      ScanPlain(s, fragment, i, c, scan);
    }
    assert [c] + name[1..] == name;
  }

  lemma {:induction false} ReadEncoded(s: string, i: nat, name: string)
    requires name != [] && name[0] != '~' && name[0] != '/' && NeedPercentEncode(name[0])
    requires var text := NameText(true, name);
      text.Some? && At(s, i, text.value) && (i + |text.value| < |s| ==> s[i + |text.value|] == '/')
    ensures ScanName(s, true, i) == Scanned(i + |NameText(true, name).value|, name)
    decreases |name|, 0
  {
    hide PercentSequence;
    hide FirstSequence;
    hide IsSequence;
    hide PercentAll;
    hide ScanName;
    var bytes := FirstSequence(name).value;
    SequenceLength(bytes);
    var rest := name[|bytes|..];
    assert NameText(true, name).value == PercentAll(bytes) + NameText(true, rest).value;
    AtSplit(s, i, PercentAll(bytes), NameText(true, rest).value);
    ReadSequence(s, i, bytes);
    PercentFirst(s, i, bytes);
    ReadName(s, true, i + 3 * |bytes|, rest);
    ScanEncoded(s, i, bytes, Scanned(i + |NameText(true, name).value|, rest));
    assert bytes + rest == name;
    assert bytes[0] == name[0];
  }

  lemma SequenceLength(bytes: string)
    requires IsSequence(bytes)
    ensures 1 <= |bytes| <= 4
  {
  }

  lemma PercentFirst(s: string, i: nat, bytes: string)
    requires bytes != [] && At(s, i, PercentAll(bytes))
    ensures i < |s| && s[i] == '%'
  {
    AtChar(s, i, PercentAll(bytes), 0);
  }

  /** Where the first name of a printed list stands, and the others. */
  lemma SplitNames(s: string, i: nat, first: string, rest: string)
    requires i <= |s| && s[i..] == "/" + first + rest
    ensures i < |s| && s[i] == '/'
    ensures At(s, i + 1, first) && i + 1 + |first| <= |s| && s[i + 1 + |first|..] == rest
  {
    assert s[i] == s[i..][0] && s[i + 1..] == s[i..][1..];
    assert s[i + 1..] == first + rest;
    assert s[i + 1..i + 1 + |first|] == s[i + 1..][..|first|];
    assert s[i + 1 + |first|..] == s[i + 1..][|first|..];
  }

  lemma {:induction false} ReadNames(s: string, fragment: bool, i: nat, names: seq<string>)
    requires i <= |s| && NamesText(fragment, names) == Some(s[i..])
    ensures (i < |s| ==> s[i] == '/') && ScanNames(s, fragment, i) == Names(names)
    decreases |names|
  {
    hide NameText;
    hide ScanName;
    hide At;
    if names != [] {
      var first, rest := NameText(fragment, names[0]).value, NamesText(fragment, names[1..]).value;
      SplitNames(s, i, first, rest);
      ReadNames(s, fragment, i + 1 + |first|, names[1..]);
      ReadName(s, fragment, i + 1, names[0]);
      assert [names[0]] + names[1..] == names;
    }
  }

  /** Whatever is printed, in either form, parses to the same names. */
  lemma ParsePrinted(fragment: bool, names: seq<string>)
    requires Stringify(fragment, names).Some?
    ensures Parse(Stringify(fragment, names).value) == Names(names)
  {
    hide NamesText;
    hide ScanNames;
    var body := NamesText(fragment, names).value;
    var s := Stringify(fragment, names).value;
    var i := if fragment then 1 else 0;
    assert s[i..] == body;
    ReadNames(s, fragment, i, names);
  }

  // ---------------------------------------------------------------------------------------------
  // What can be printed

  predicate AllScalars(codepoints: seq<nat>) {
    forall k :: 0 <= k < |codepoints| ==> IsScalar(codepoints[k])
  }

  function Encoded(codepoints: seq<nat>): string
    requires AllScalars(codepoints)
  {
    if codepoints == [] then [] else JsonGrammar.Utf8(codepoints[0]) + Encoded(codepoints[1..])
  }

  /** The name is the UTF-8 encoding of some scalar values. */
  ghost predicate IsUtf8(name: string) {
    exists codepoints: seq<nat> :: AllScalars(codepoints) && Encoded(codepoints) == name
  }

  /** The sequence a UTF-8 name begins with is its first scalar value's. */
  lemma FirstOfEncoded(codepoint: nat, rest: string)
    requires IsScalar(codepoint)
    ensures var bytes := JsonGrammar.Utf8(codepoint);
      && FirstSequence(bytes + rest) == Some(bytes)
      && (codepoint >= 0x80 ==> NeedPercentEncode(bytes[0]) && bytes[0] != '/')
  {
    hide Followers;
    hide Allowed;
    var bytes := JsonGrammar.Utf8(codepoint);
    ScalarIsSequence(codepoint);
    assert (bytes + rest)[0] == bytes[0] && (bytes + rest)[..|bytes|] == bytes;
  }

  lemma {:induction false} EncodedPrints(codepoints: seq<nat>)
    requires AllScalars(codepoints)
    ensures NameText(true, Encoded(codepoints)).Some?
    decreases |codepoints|
  {
    hide JsonGrammar.Utf8;
    hide FirstSequence;
    if codepoints != [] {
      var bytes, rest := JsonGrammar.Utf8(codepoints[0]), Encoded(codepoints[1..]);
      FirstOfEncoded(codepoints[0], rest);
      EncodedPrints(codepoints[1..]);
      assert (bytes + rest)[|bytes|..] == rest;
      if codepoints[0] < 0x80 {
        OneByte(codepoints[0]);
      } else {
        ScalarIsSequence(codepoints[0]);
        assert (bytes + rest)[0] == bytes[0];
      }
    }
  }

  lemma OneByte(codepoint: nat)
    requires codepoint < 0x80
    ensures JsonGrammar.Utf8(codepoint) == [codepoint as char]
  {
  }

  lemma {:induction false} PrintedIsEncoded(name: string) returns (codepoints: seq<nat>)
    requires NameText(true, name).Some?
    ensures AllScalars(codepoints) && Encoded(codepoints) == name
    decreases |name|
  {
    hide JsonGrammar.Utf8;
    hide FirstSequence;
    hide CodepointOf;
    hide IsSequence;
    if name == [] {
      codepoints := [];
    } else {
      var c := name[0];
      var bytes: string, first: nat;
      if c != '~' && c != '/' && NeedPercentEncode(c) {
        bytes := FirstSequence(name).value;
        SequenceLength(bytes);
        SequenceIsScalar(bytes);
        first := CodepointOf(bytes);
      } else {
        bytes := [c];
        first := c as int;
        OneByte(first);
      }
      var rest := PrintedIsEncoded(name[|bytes|..]);
      codepoints := [first] + rest;
      assert codepoints[1..] == rest;
      assert bytes + name[|bytes|..] == name;
    }
  }

  /** A URI fragment can be printed exactly when every name is UTF-8. */
  lemma {:induction false} PrintableNames(names: seq<string>)
    ensures NamesText(true, names).Some? <==> forall k :: 0 <= k < |names| ==> IsUtf8(names[k])
    decreases |names|
  {
    hide IsUtf8;
    hide NameText;
    if names != [] {
      PrintableName(names[0]);
      PrintableNames(names[1..]);
      assert forall k :: 1 <= k < |names| ==> names[k] == names[1..][k - 1];
      assert forall k :: 0 <= k < |names| - 1 ==> names[1..][k] == names[k + 1];
    }
  }

  lemma PrintableName(name: string)
    ensures NameText(true, name).Some? <==> IsUtf8(name)
  {
    hide NameText;
    if NameText(true, name).Some? {
      var codepoints := PrintedIsEncoded(name);
    } else if IsUtf8(name) {
      var codepoints: seq<nat> :| AllScalars(codepoints) && Encoded(codepoints) == name;
      EncodedPrints(codepoints);
    }
  }

  lemma {:induction false} StringFormPrints(names: seq<string>)
    ensures NamesText(false, names).Some?
    decreases |names|
  {
    hide NameText;
    if names != [] {
      NamePrints(names[0]);
      StringFormPrints(names[1..]);
    }
  }

  lemma {:induction false} NamePrints(name: string)
    ensures NameText(false, name).Some?
    decreases |name|
  {
    if name != [] {
      NamePrints(name[1..]);
    }
  }

  /** Printing succeeds always in string form, and as a URI fragment exactly for UTF-8 names; then parsing undoes it. */
  lemma PrintParseRoundTrip(fragment: bool, names: seq<string>)
    ensures Stringify(fragment, names).Some? <==> (fragment ==> forall k :: 0 <= k < |names| ==> IsUtf8(names[k]))
    ensures Stringify(fragment, names).Some? ==> Parse(Stringify(fragment, names).value) == Names(names)
  {
    hide NamesText;
    hide Parse;
    hide IsUtf8;
    if fragment {
      PrintableNames(names);
    } else {
      StringFormPrints(names);
    }
    if Stringify(fragment, names).Some? {
      ParsePrinted(fragment, names);
    }
  }

  // ---------------------------------------------------------------------------------------------
  // Parsing, then printing

  lemma {:induction false} PrintScanned(s: string, i: nat)
    requires i <= |s| && ScanName(s, false, i).Scanned?
    ensures var r := ScanName(s, false, i);
      NameText(false, r.name) == Some(s[i..r.next])
    decreases |s| - i
  {
    hide PercentSequence;
    var r := ScanName(s, false, i);
    if i < |s| && s[i] != '/' {
      var piece := if s[i] == '~' then s[i..i + 2] else s[i..i + 1];
      var rest := ScanName(s, false, i + |piece|);
      assert ScanName(s, false, i) == ScanUnit(s, false, i + 1, s[i]);
      PrintScanned(s, i + |piece|);
      assert piece + s[i + |piece|..rest.next] == s[i..rest.next];
      assert r.name[1..] == rest.name;
      NameTextStep(false, r.name);
      assert piece == Piece(r.name[0]);
    } else {
      assert s[i..i] == [];
    }
  }

  lemma {:induction false} PrintScannedNames(s: string, i: nat)
    requires i <= |s| && (i < |s| ==> s[i] == '/') && ScanNames(s, false, i).Names?
    ensures NamesText(false, ScanNames(s, false, i).names) == Some(s[i..])
    decreases |s| - i
  {
    hide ScanName;
    hide NameText;
    if i < |s| {
      var first := ScanName(s, false, i + 1);
      PrintScanned(s, i + 1);
      PrintScannedNames(s, first.next);
      var names := ScanNames(s, false, i).names;
      assert names[0] == first.name && names[1..] == ScanNames(s, false, first.next).names;
      assert "/" + s[i + 1..first.next] + s[first.next..] == s[i..];
    } else {
      assert s[i..] == [];
    }
  }

  /** A pointer in string form is the print of its own names. */
  lemma ParsePrintRoundTrip(s: string)
    requires !IsFragment(s) && Parse(s).Names?
    ensures Stringify(false, Parse(s).names) == Some(s)
  {
    hide ScanNames;
    hide NamesText;
    PrintScannedNames(s, 0);
    assert "" + s[0..] == s;
  }

  lemma ScalarThenUtf8(codepoint: nat, rest: string)
    requires IsScalar(codepoint) && IsUtf8(rest)
    ensures IsUtf8(JsonGrammar.Utf8(codepoint) + rest)
  {
    hide JsonGrammar.Utf8;
    var codepoints: seq<nat> :| AllScalars(codepoints) && Encoded(codepoints) == rest;
    var more := [codepoint] + codepoints;
    assert more[1..] == codepoints;
    assert AllScalars(more) && Encoded(more) == JsonGrammar.Utf8(codepoint) + rest;
  }

  lemma SequenceThenUtf8(bytes: string, rest: string)
    requires IsSequence(bytes) && IsUtf8(rest)
    ensures IsUtf8(bytes + rest)
  {
    hide IsUtf8;
    hide IsSequence;
    hide CodepointOf;
    SequenceIsScalar(bytes);
    ScalarThenUtf8(CodepointOf(bytes), rest);
  }

  lemma PlainThenUtf8(c: char, rest: string)
    requires c as int < 0x80 && IsUtf8(rest)
    ensures IsUtf8([c] + rest)
  {
    hide IsUtf8;
    OneByte(c as int);
    ScalarThenUtf8(c as int, rest);
  }

  lemma NothingIsUtf8()
    ensures IsUtf8([])
  {
    assert AllScalars([]) && Encoded([]) == [];
  }

  lemma {:induction false} FollowersAllowed(s: string, i: nat, masks: seq<bv8>)
    requires PercentFollowers(s, i, masks).Some?
    ensures var bytes := PercentFollowers(s, i, masks).value;
      |bytes| == |masks| && forall k :: 0 <= k < |masks| ==> Allowed(bytes[k], masks[k])
    decreases |masks|
  {
    hide PercentByte;
    hide Allowed;
    if masks != [] {
      FollowersAllowed(s, i + 3, masks[1..]);
    }
  }

  /** What is accepted percent-encoded is a sequence; a single byte of it is plain. */
  lemma AcceptedIsSequence(s: string, i: nat)
    requires PercentSequence(s, i).Some?
    ensures var bytes := PercentSequence(s, i).value;
      IsSequence(bytes) && (|bytes| == 1 ==> bytes[0] as int < 0x80)
  {
    hide PercentByte;
    hide PercentFollowers;
    hide Followers;
    hide Allowed;
    var lead := PercentByte(s, i).value;
    FollowersByLead(lead);
    FollowersAllowed(s, i + 3, Followers(lead).value);
  }

  /** A scanned name of a URI fragment is UTF-8, although nobody asks. */
  lemma {:induction false} ScannedIsUtf8(s: string, i: nat)
    requires i <= |s| && ScanName(s, true, i).Scanned?
    ensures IsUtf8(ScanName(s, true, i).name)
    decreases |s| - i, 1
  {
    hide IsUtf8;
    hide PercentSequence;
    hide IsSequence;
    if i == |s| || s[i] == '/' {
      NothingIsUtf8();
    } else if s[i] == '%' {
      AcceptedIsSequence(s, i);
      var bytes := PercentSequence(s, i).value;
      if |bytes| == 1 {
        UnitIsUtf8(s, i + 3, bytes[0]);
      } else {
        ScannedIsUtf8(s, i + 3 * |bytes|);
        SequenceThenUtf8(bytes, ScanName(s, true, i + 3 * |bytes|).name);
      }
    } else {
      UnitIsUtf8(s, i + 1, s[i]);
    }
  }

  lemma {:induction false} UnitIsUtf8(s: string, i: nat, c: char)
    requires i <= |s| && c as int < 0x80 && ScanUnit(s, true, i, c).Scanned?
    ensures IsUtf8(ScanUnit(s, true, i, c).name)
    decreases |s| - i, 2
  {
    hide IsUtf8;
    hide ScanName;
    if c != '~' {
      ScannedIsUtf8(s, i);
      PlainThenUtf8(c, ScanName(s, true, i).name);
    } else {
      ScannedIsUtf8(s, i + 1);
      PlainThenUtf8(if s[i] == '0' then '~' else '/', ScanName(s, true, i + 1).name);
    }
  }

  lemma {:induction false} AllScannedAreUtf8(s: string, i: nat)
    requires i <= |s| && (i < |s| ==> s[i] == '/') && ScanNames(s, true, i).Names?
    ensures forall k :: 0 <= k < |ScanNames(s, true, i).names| ==> IsUtf8(ScanNames(s, true, i).names[k])
    decreases |s| - i
  {
    hide ScanName;
    hide IsUtf8;
    if i < |s| {
      ScannedIsUtf8(s, i + 1);
      AllScannedAreUtf8(s, ScanName(s, true, i + 1).next);
    }
  }

  /** The names of a URI fragment are UTF-8, so they can be printed as a fragment, which parses to them again. */
  lemma FragmentRoundTrip(s: string)
    requires IsFragment(s) && Parse(s).Names?
    ensures forall k :: 0 <= k < |Parse(s).names| ==> IsUtf8(Parse(s).names[k])
    ensures Stringify(true, Parse(s).names).Some? && Parse(Stringify(true, Parse(s).names).value) == Parse(s)
  {
    hide ScanNames;
    hide IsUtf8;
    hide Stringify;
    AllScannedAreUtf8(s, 1);
    PrintParseRoundTrip(true, Parse(s).names);
  }

  // ---------------------------------------------------------------------------------------------
  // The loops

  /** Prints what a name begins with: one code unit, or one sequence of bytes. */
  method PrintFirst(fragment: bool, name: string) returns (ok: bool, piece: string, length: nat)
    requires name != []
    ensures ok ==>
      1 <= length <= |name| && NameText(fragment, name) == Prefix(piece, NameText(fragment, name[length..]))
    ensures !ok ==> NameText(fragment, name).None?
  {
    hide FirstSequence;
    hide NameText;
    var c := name[0];
    ok, length := true, 1;
    if c == '~' {
      piece := "~0";
    } else if c == '/' {
      piece := "~1";
    } else if fragment && NeedPercentEncode(c) {
      var bytes := FirstSequence(name);
      NameTextEncoded(name);
      if bytes.None? {
        return false, [], 0;
      }
      SequenceLength(bytes.value);
      piece := EncodeBytes(bytes.value);
      return true, piece, |bytes.value|;
    } else {
      piece := [c];
    }
    NameTextStep(fragment, name);
  }

  lemma EmptyName(fragment: bool, name: string)
    requires name == []
    ensures NameText(fragment, name) == Some([])
  {
  }

  /** Prints one name. */
  method PrintName(fragment: bool, name: string) returns (ok: bool, text: string)
    ensures ok <==> NameText(fragment, name).Some?
    ensures ok ==> NameText(fragment, name) == Some(text)
  {
    hide NameText;
    text := [];
    var j := 0;
    assert name[0..] == name;
    PrefixOfNothing(NameText(fragment, name));
    while j < |name|
      invariant 0 <= j <= |name|
      invariant NameText(fragment, name) == Prefix(text, NameText(fragment, name[j..]))
    {
      var printed, piece, length := PrintFirst(fragment, name[j..]);
      if !printed {
        return false, text;
      }
      assert name[j..][length..] == name[j + length..];
      PrefixTwice(text, piece, NameText(fragment, name[j + length..]));
      text := text + piece;
      j := j + length;
    }
    EmptyName(fragment, name[j..]);
    assert text + [] == text;
    return true, text;
  }

  lemma PrefixOfNothing(text: Option<string>)
    ensures Prefix([], text) == text
  {
    if text.Some? {
      assert [] + text.value == text.value;
    }
  }

  lemma NameTextEncoded(name: string)
    requires name != [] && name[0] != '~' && name[0] != '/' && NeedPercentEncode(name[0])
    ensures var bytes := FirstSequence(name);
      NameText(true, name) ==
        if bytes.None? then None else Prefix(PercentAll(bytes.value), NameText(true, name[|bytes.value|..]))
  {
    hide FirstSequence;
  }

  lemma PrefixTwice(a: string, b: string, rest: Option<string>)
    ensures Prefix(a, Prefix(b, rest)) == Prefix(a + b, rest)
  {
    if rest.Some? {
      assert a + (b + rest.value) == (a + b) + rest.value;
    }
  }

  method EncodeBytes(bytes: string) returns (text: string)
    ensures text == PercentAll(bytes)
  {
    text := [];
    var k := 0;
    while k < |bytes|
      invariant 0 <= k <= |bytes|
      invariant text + PercentAll(bytes[k..]) == PercentAll(bytes)
    {
      var u := bytes[k] as int % 256;
      var triplet := ['%', JsonDom.HexLetter(u / 16), JsonDom.HexLetter(u % 16)];
      assert bytes[k..][1..] == bytes[k + 1..];
      assert text + (triplet + PercentAll(bytes[k + 1..])) == (text + triplet) + PercentAll(bytes[k + 1..]);
      text := text + triplet;
      k := k + 1;
    }
  }
}
