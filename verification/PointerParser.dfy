/**
 The parser of include/rapidjson/pointer.h as it runs: names are decoded into a buffer no longer than
 the source, one after the other, each ended by a NUL.
 */
module PointerParser {
  import opened Wrappers
  import JsonGrammar
  import JsonPointer
  import opened PointerText

  const NUL := '\0'

  /** s stands in the buffer from a position. */
  ghost predicate Stands(buffer: array<char>, start: nat, s: string)
    reads buffer
  {
    start + |s| <= buffer.Length && forall k :: 0 <= k < |s| ==> buffer[start + k] == s[k]
  }

  /** Reads a %XY triplet; on failure yields 0 and stays where it stopped. */
  method TakePercent(source: string, src: nat) returns (c: char, next: nat, valid: bool)
    requires src <= |source|
    ensures valid <==> PercentByte(source, src).Some?
    ensures valid ==> PercentByte(source, src) == Some(c) && next == src + 3
    ensures src <= next <= |source| && (!valid ==> c == NUL)
  {
    if src + 3 > |source| || source[src] != '%' {
      return NUL, src, false;
    }
    next := src + 1;
    var value := 0;
    var j := 0;
    while j < 2
      invariant 0 <= j <= 2 && next == src + 1 + j
      invariant 0 <= value < (if j == 0 then 1 else if j == 1 then 16 else 256)
      invariant j >= 1 ==> JsonGrammar.HexDigit(source[src + 1]) >= 0
      invariant j == 1 ==> value == JsonGrammar.HexDigit(source[src + 1])
      invariant j == 2 ==>
        && JsonGrammar.HexDigit(source[src + 2]) >= 0
        && value == JsonGrammar.HexDigit(source[src + 1]) * 16 + JsonGrammar.HexDigit(source[src + 2])
    {
      var h := source[next];
      value := value * 16;
      if '0' <= h <= '9' {
        value := value + (h as int - '0' as int);
      } else if 'A' <= h <= 'F' {
        value := value + (h as int - 'A' as int + 10);
      } else if 'a' <= h <= 'f' {
        value := value + (h as int - 'a' as int + 10);
      } else {
        return NUL, next, false;
      }
      next := next + 1;
      j := j + 1;
    }
    return value as char, next, true;
  }

  /** Copies a percent-encoded UTF-8 sequence, checking each byte; bytes are stored even when the check fails. */
  lemma PercentStart(source: string, i: nat)
    ensures var lead := PercentByte(source, i);
      PercentSequence(source, i) ==
        if lead.None? || Followers(lead.value).None? then None
        else Prefix([lead.value], PercentFollowers(source, i + 3, Followers(lead.value).value))
  {
    hide PercentByte;
    hide PercentFollowers;
  }

  lemma FollowersStep(source: string, i: nat, masks: seq<bv8>)
    ensures PercentFollowers(source, i, masks) ==
      if masks == [] then Some([])
      else
        var b := PercentByte(source, i);
        if b.None? || !Allowed(b.value, masks[0]) then None
        else Prefix([b.value], PercentFollowers(source, i + 3, masks[1..]))
  {
    hide PercentByte;
    hide Allowed;
  }

  method Validate(source: string, i: nat, buffer: array<char>, name: nat) returns (ok: bool, next: nat, len: nat)
    requires i <= |source| == buffer.Length && name + 2 <= i
    modifies buffer
    ensures ok <==> PercentSequence(source, i).Some?
    ensures ok ==> next == i + 3 * len && len == |PercentSequence(source, i).value|
    ensures ok ==> Stands(buffer, name, PercentSequence(source, i).value)
    ensures forall k :: 0 <= k < name ==> buffer[k] == old(buffer[k])
  {
    hide PercentByte;
    hide Allowed;
    hide PercentSequence;
    hide PercentFollowers;
    hide Followers;
    PercentStart(source, i);
    var c, src, valid := TakePercent(source, i);
    buffer[name] := c;
    var f := Followers(c);
    if !valid || f.None? {
      return false, src, 1;
    }
    ByteFits(source, i);
    var masks := f.value;
    ok := true;
    var n := 0;
    ghost var bytes := [c];
    assert masks[0..] == masks;
    while n < |masks|
      invariant 0 <= n <= |masks| && i <= src <= |source|
      invariant buffer[name] == c
      invariant ok ==> src == i + 3 * (n + 1) && |bytes| == n + 1 && Stands(buffer, name, bytes)
      invariant if ok
        then PercentSequence(source, i) == Prefix(bytes, PercentFollowers(source, src, masks[n..]))
        else PercentSequence(source, i).None?
      invariant forall k :: 0 <= k < name ==> buffer[k] == old(buffer[k])
    {
      FollowersStep(source, src, masks[n..]);
      var taken, after, good := TakePercent(source, src);
      buffer[name + 1 + n] := taken;
      if ok {
        assert masks[n..][0] == masks[n] && masks[n..][1..] == masks[n + 1..];
        if good && Allowed(taken, masks[n]) {
          PrefixTwice(bytes, [taken], PercentFollowers(source, after, masks[n + 1..]));
          bytes := bytes + [taken];
        } else {
          ok := false;
        }
      }
      src := after;
      n := n + 1;
    }
    FollowersStep(source, src, []);
    return ok, src, 1 + |masks|;
  }

  lemma ByteFits(source: string, i: nat)
    requires PercentByte(source, i).Some?
    ensures i + 3 <= |source|
  {
  }

  lemma MultiByteIsNoNumber(source: string, i: nat)
    requires PercentSequence(source, i).Some?
    ensures var bytes := PercentSequence(source, i).value;
      |bytes| > 1 ==> !JsonPointer.AllDigits(bytes)
  {
    hide PercentByte;
    hide PercentFollowers;
    var bytes := PercentSequence(source, i).value;
    if |bytes| > 1 {
      assert !JsonGrammar.IsDigit(bytes[0]);
    }
  }

  /** What follows a code unit that has been read up to `at`. */
  lemma UnitScanned(source: string, fragment: bool, i: nat, at: nat, c: char)
    requires i < at <= |source| && source[i] != '/'
    requires
      if fragment && source[i] == '%' then PercentSequence(source, i) == Some([c]) && at == i + 3
      else !(fragment && NeedPercentEncode(source[i])) && c == source[i] && at == i + 1
    ensures ScanName(source, fragment, i) == ScanUnit(source, fragment, at, c)
  {
    hide PercentSequence;
    hide NeedPercentEncode;
  }

  /** One round of the loop over a name: decodes one sequence or code unit into the buffer. */
  method DecodePiece(source: string, fragment: bool, i: nat, buffer: array<char>, name: nat)
    returns (next: nat, error: Option<PointerError>, ghost piece: string, len: nat, isNumber: bool)
    requires i < |source| == buffer.Length && source[i] != '/'
    requires name + (if fragment then 2 else 1) <= i
    modifies buffer
    ensures error.Some? ==> ScanName(source, fragment, i) == Malformed(error.value, next)
    ensures error.None? ==>
      && i < next <= |source| && len == |piece| && Stands(buffer, name, piece)
      && name + len + (if fragment then 2 else 1) <= next
      && ScanName(source, fragment, i) == Before(piece, ScanName(source, fragment, next))
      && (isNumber <==> JsonPointer.AllDigits(piece))
    ensures forall k :: 0 <= k < name ==> buffer[k] == old(buffer[k])
  {
    hide PercentSequence;
    hide NeedPercentEncode;
    error, piece, len, isNumber := None, [], 0, false;
    var c := source[i];
    next := i;
    if fragment {
      if c == '%' {
        var ok, after, bytes := Validate(source, i, buffer, name);
        if !ok {
          return i, Some(InvalidPercentEncoding), [], 0, false;
        }
        piece := PercentSequence(source, i).value;
        MultiByteIsNoNumber(source, i);
        if bytes == 1 {
          c := buffer[name];
          assert piece == [c];
          next := after - 1;
        } else {
          return after, None, piece, bytes, false;
        }
      } else if NeedPercentEncode(c) {
        return i, Some(CharacterMustPercentEncode), [], 0, false;
      }
    }
    next := next + 1;
    UnitScanned(source, fragment, i, next, c);
    if c == '~' {
      if next < |source| {
        c := source[next];
        if c == '0' {
          c := '~';
        } else if c == '1' {
          c := '/';
        } else {
          return next, Some(InvalidEscape), [], 0, false;
        }
        next := next + 1;
      } else {
        return next, Some(InvalidEscape), [], 0, false;
      }
    }
    isNumber := '0' <= c <= '9';
    buffer[name] := c;
    piece := [c];
    len := 1;
    assert [c][0] == c;
  }

  /** The loop over a name: from after its solidus to the next one. */
  method DecodeName(source: string, fragment: bool, start: nat, buffer: array<char>, name: nat)
    returns (next: nat, error: Option<PointerError>, ghost text: string, length: nat, isNumber: bool)
    requires start <= |source| == buffer.Length && name + (if fragment then 2 else 1) <= start
    modifies buffer
    ensures error.Some? ==> ScanName(source, fragment, start) == Malformed(error.value, next)
    ensures error.None? ==>
      && ScanName(source, fragment, start) == Scanned(next, text) && next <= |source|
      && length == |text| && Stands(buffer, name, text) && name + |text| + (if fragment then 2 else 1) <= next
      && (isNumber <==> text != [] && JsonPointer.AllDigits(text))
    ensures forall k :: 0 <= k < name ==> buffer[k] == old(buffer[k])
  {
    hide NeedPercentEncode;
    var i := start;
    text, length, isNumber := [], 0, true;
    NothingYet(source, fragment, start);
    while i < |source| && source[i] != '/'
      invariant start <= i <= |source|
      invariant length == |text| && Stands(buffer, name, text) && name + length + (if fragment then 2 else 1) <= i
      invariant ScanName(source, fragment, start) == Before(text, ScanName(source, fragment, i))
      invariant isNumber <==> JsonPointer.AllDigits(text)
      invariant forall k :: 0 <= k < name ==> buffer[k] == old(buffer[k])
      decreases |source| - i
    {
      hide ScanName;
      ghost var before := buffer[..];
      var after, failure, piece, len, digits := DecodePiece(source, fragment, i, buffer, name + length);
      if failure.Some? {
        return after, failure, [], 0, false;
      }
      forall k | 0 <= k < |text| ensures buffer[name + k] == text[k] {
        assert buffer[name + k] == before[name + k];
      }
      BeforeTwice(text, piece, ScanName(source, fragment, after));
      Longer(buffer, name, text, piece);
      DigitsBoth(text, piece);
      text := text + piece;
      length := length + len;
      isNumber := isNumber && digits;
      i := after;
    }
    if length == 0 {
      isNumber := false;
    }
    assert text + [] == text;
    return i, None, text, length, isNumber;
  }

  lemma NothingYet(source: string, fragment: bool, i: nat)
    requires i <= |source|
    ensures Before([], ScanName(source, fragment, i)) == ScanName(source, fragment, i)
  {
    hide ScanName;
    assert forall s: string {:trigger [] + s} :: [] + s == s;
  }

  lemma BeforeTwice(a: string, b: string, rest: NameScan)
    ensures Before(a, Before(b, rest)) == Before(a + b, rest)
  {
    if rest.Scanned? {
      assert a + (b + rest.name) == (a + b) + rest.name;
    }
  }

  lemma DigitsBoth(a: string, b: string)
    ensures JsonPointer.AllDigits(a + b) <==> JsonPointer.AllDigits(a) && JsonPointer.AllDigits(b)
  {
    assert forall k :: 0 <= k < |a| ==> (a + b)[k] == a[k];
    assert forall k :: 0 <= k < |b| ==> b[k] == (a + b)[|a| + k];
  }

  lemma Longer(buffer: array<char>, name: nat, text: string, piece: string)
    requires Stands(buffer, name, text) && Stands(buffer, name + |text|, piece)
    ensures Stands(buffer, name, text + piece)
  {
    forall k | 0 <= k < |text + piece| ensures buffer[name + k] == (text + piece)[k] {
      if k >= |text| {
        assert buffer[(name + |text|) + (k - |text|)] == piece[k - |text|];
      }
    }
  }

  /** The index of a name in the buffer that consists of digits. */
  method ToIndex(buffer: array<char>, start: nat, length: nat, ghost name: string, digits: bool) returns (index: nat)
    requires length == |name| && Stands(buffer, start, name)
    requires digits <==> name != [] && JsonPointer.AllDigits(name)
    ensures index == JsonPointer.IndexOf(name)
  {
    var isNumber := digits;
    if isNumber && length > 1 && buffer[start] == '0' {
      assert buffer[start + 0] == name[0];
      isNumber := false;
    }
    if !isNumber {
      return JsonPointer.INVALID_INDEX;
    }
    assert buffer[start + 0] == name[0];
    var n, j := 0, 0;
    while j < length
      invariant 0 <= j <= length
      invariant JsonPointer.Accumulate(name, 0, 0) == JsonPointer.Accumulate(name, j, n)
    {
      hide JsonPointer.Accumulate;
      assert buffer[start + j] == name[j];
      JsonPointer.AccumulateStep(name, j, n);
      var m := (n * 10 + JsonGrammar.DigitValue(buffer[start + j])) % 0x1_0000_0000;
      if m < n {
        return JsonPointer.INVALID_INDEX;
      }
      n := m;
      j := j + 1;
    }
    return n;
  }

  /** Where a token's name is in the buffer, and its index. */
  datatype Span = Span(start: nat, length: nat, index: nat)

  /** The name stands in the buffer, ends in a NUL before `end`, and has its index. */
  predicate Spells(buffer: string, t: Span, name: string, end: nat) {
    && t.start + t.length < end <= |buffer|
    && buffer[t.start..t.start + t.length] == name && buffer[t.start + t.length] == NUL
    && t.index == JsonPointer.IndexOf(name)
  }

  predicate AllSpell(buffer: string, tokens: seq<Span>, names: seq<string>, end: nat) {
    |tokens| == |names| && forall k :: 0 <= k < |names| ==> Spells(buffer, tokens[k], names[k], end)
  }

  lemma OneMoreSpells(buffer: string, tokens: seq<Span>, names: seq<string>, end: nat, t: Span, name: string)
    requires AllSpell(buffer, tokens, names, end) && Spells(buffer, t, name, end)
    ensures AllSpell(buffer, tokens + [t], names + [name], end)
  {
    hide Spells;
  }

  /** Writing behind `end` leaves the tokens alone. */
  lemma StillSpell(before: string, buffer: string, tokens: seq<Span>, names: seq<string>, end: nat, later: nat)
    requires AllSpell(before, tokens, names, end) && end <= later <= |buffer| == |before|
    requires forall k :: 0 <= k < end ==> buffer[k] == before[k]
    ensures AllSpell(buffer, tokens, names, later)
  {
    forall k | 0 <= k < |names| ensures Spells(buffer, tokens[k], names[k], later) {
      var t := tokens[k];
      assert Spells(before, t, names[k], end);
      assert buffer[t.start..t.start + t.length] == before[t.start..t.start + t.length];
    }
  }

  /** A pointer's parse state. */
  class Pointer {
    var nameBuffer: array<char>
    var tokens: seq<Span>
    var parseErrorCode: Option<PointerError>
    var parseErrorOffset: nat

    /** The tokens spell these names, in order. */
    ghost predicate Reads(names: seq<string>, end: nat)
      reads this, nameBuffer
    {
      AllSpell(nameBuffer[..], tokens, names, end)
    }

    /** Parses a source; the names never need more room than the source has. */
    constructor (source: string)
      ensures fresh(nameBuffer) && nameBuffer.Length == |source|
      ensures match Parse(source)
        case Names(names) => parseErrorCode == None && Reads(names, |source|)
        case Rejected(error, offset) => parseErrorCode == Some(error) && parseErrorOffset == offset && tokens == []
    {
      nameBuffer := new char[|source|];
      tokens := [];
      parseErrorCode := None;
      parseErrorOffset := 0;
      new;
      hide ScanName;
      var i := 0;
      var uriFragment := false;
      if |source| > 0 && source[0] == '#' {
        uriFragment := true;
        i := 1;
      }
      if i != |source| && source[i] != '/' {
        Fail(TokenMustBeginWithSolidus, i);
        return;
      }
      ParseTokens(source, uriFragment, i);
    }

    method Fail(error: PointerError, offset: nat)
      modifies this
      ensures nameBuffer == old(nameBuffer) && tokens == []
      ensures parseErrorCode == Some(error) && parseErrorOffset == offset
    {
      tokens := [];
      parseErrorCode := Some(error);
      parseErrorOffset := offset;
    }

    method ParseTokens(source: string, uriFragment: bool, start: nat)
      requires nameBuffer.Length == |source| && tokens == [] && parseErrorCode == None
      requires start == (if uriFragment then 1 else 0) <= |source| && (start < |source| ==> source[start] == '/')
      modifies this, nameBuffer
      ensures nameBuffer == old(nameBuffer)
      ensures match ScanNames(source, uriFragment, start)
        case Names(names) => parseErrorCode == None && Reads(names, |source|)
        case Rejected(error, offset) => parseErrorCode == Some(error) && parseErrorOffset == offset && tokens == []
    {
      hide ScanNames;
      hide Reads;
      var i: nat, name: nat := start, 0;
      ghost var names: seq<string> := [];
      NoNames(source, uriFragment, start);
      Empty();
      while i < |source|
        invariant i <= |source| == nameBuffer.Length && name + start <= i && nameBuffer == old(nameBuffer)
        invariant i < |source| ==> source[i] == '/'
        invariant parseErrorCode == None
        invariant Reads(names, name)
        invariant ScanNames(source, uriFragment, start) == After(names, ScanNames(source, uriFragment, i))
        decreases |source| - i
      {
        hide ScanName;
        hide After;
        NamesStep(source, uriFragment, i, names);
        var next, text, length := ParseToken(source, uriFragment, i, name, names);
        if parseErrorCode.Some? {
          FirstFails(names, source, uriFragment, i);
          return;
        }
        names := names + [text];
        name := name + length + 1;
        i := next;
      }
      NoMore(source, uriFragment, names);
      Widen(names, name, |source|);
    }

    lemma Empty()
      requires tokens == []
      ensures Reads([], 0)
    {
    }

    lemma Widen(names: seq<string>, end: nat, later: nat)
      requires Reads(names, end) && end <= later <= nameBuffer.Length
      ensures Reads(names, later)
    {
    }

    /** One token: its name, the NUL after it, and its index. */
    method ParseToken(source: string, uriFragment: bool, i: nat, name: nat, ghost names: seq<string>)
      returns (next: nat, ghost text: string, length: nat)
      requires i < |source| == nameBuffer.Length && source[i] == '/' && name + (if uriFragment then 1 else 0) <= i
      requires parseErrorCode == None && Reads(names, name)
      modifies this, nameBuffer
      ensures nameBuffer == old(nameBuffer)
      ensures var scan := ScanName(source, uriFragment, i + 1);
        if scan.Malformed? then
          parseErrorCode == Some(scan.error) && parseErrorOffset == scan.offset && tokens == []
        else
          && scan == Scanned(next, text) && i < next && length == |text| && parseErrorCode == None
          && name + length + 1 + (if uriFragment then 1 else 0) <= next
          && Reads(names + [text], name + length + 1)
    {
      hide ScanName;
      hide AllSpell;
      ghost var before := nameBuffer[..];
      var error, isNumber;
      next, error, text, length, isNumber := DecodeName(source, uriFragment, i + 1, nameBuffer, name);
      if error.Some? {
        Fail(error.value, next);
        return;
      }
      nameBuffer[name + length] := NUL;
      ghost var after := nameBuffer[..];
      assert after[name..name + length] == text;
      StillSpell(before, after, tokens, names, name, name + length + 1);
      var index := ToIndex(nameBuffer, name, length, text, isNumber);
      var token := Span(name, length, index);
      OneMoreSpells(after, tokens, names, name + length + 1, token, text);
      tokens := tokens + [token];
    }
  }

  lemma FirstFails(names: seq<string>, source: string, fragment: bool, i: nat)
    requires i < |source| && source[i] == '/' && ScanName(source, fragment, i + 1).Malformed?
    ensures var first := ScanName(source, fragment, i + 1);
      After(names, ScanNames(source, fragment, i)) == Rejected(first.error, first.offset)
  {
    hide ScanName;
  }

  lemma NoMore(source: string, fragment: bool, names: seq<string>)
    ensures After(names, ScanNames(source, fragment, |source|)) == Names(names)
  {
    assert names + [] == names;
  }

  /** Names already read, put before the rest. */
  function After(names: seq<string>, rest: Parsed): Parsed {
    if rest.Rejected? then rest else Names(names + rest.names)
  }

  lemma NoNames(source: string, fragment: bool, i: nat)
    requires i <= |source| && (i < |source| ==> source[i] == '/')
    ensures After([], ScanNames(source, fragment, i)) == ScanNames(source, fragment, i)
  {
    hide ScanNames;
    assert forall s: seq<string> {:trigger [] + s} :: [] + s == s;
  }

  lemma NamesStep(source: string, fragment: bool, i: nat, names: seq<string>)
    requires i < |source| && source[i] == '/'
    ensures var first := ScanName(source, fragment, i + 1);
      After(names, ScanNames(source, fragment, i)) ==
        if first.Malformed? then Rejected(first.error, first.offset)
        else After(names + [first.name], ScanNames(source, fragment, first.next))
  {
    hide ScanName;
    var first := ScanName(source, fragment, i + 1);
    if first.Scanned? && ScanNames(source, fragment, first.next).Names? {
      var rest := ScanNames(source, fragment, first.next).names;
      assert names + ([first.name] + rest) == (names + [first.name]) + rest;
    }
  }
}
