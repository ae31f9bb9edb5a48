/**
 What the recursive-descent parser of include/rapidjson/reader.h accepts and which events it sends,
 as functions of the text and a position.  One `char` is one UTF-8 code unit; the text ends at its
 first NUL or at its end, whichever comes first, because the parser only ever looks at `Peek`.
 */
module JsonGrammar {

  datatype Event =
    | Null
    | Bool(b: bool)
    | Int(i: int)
    | Uint(u: int)
    | Int64(i64: int)
    | Uint64(u64: int)
    | Double(lexeme: string)
    | String(s: string)
    | Key(name: string)
    | StartObject
    | EndObject(memberCount: nat)
    | StartArray
    | EndArray(elementCount: nat)

  /**
   Parse flags and environment: whether a comma may precede a closing bracket, whether to stop after
   the root, which doubles are finite, and whether the handler wants to go on after the events so far.
   */
  datatype Settings = Settings(
    trailingCommas: bool,
    stopWhenDone: bool,
    finite: string -> bool,
    goesOn: seq<Event> -> bool)

  /** How a parser ends: with an error, or at a position.  Either way the events sent are reported. */
  datatype Outcome = Error(events: seq<Event>) | Done(pos: nat, events: seq<Event>)

  datatype Lexed<T> = Bad | Token(pos: nat, value: T)

  const NUL := '\0'
  const SIZE_TYPE := 0x1_0000_0000

  function Peek(t: string, pos: nat): char {
    if pos < |t| then t[pos] else NUL
  }

  predicate IsSpace(c: char) {
    c == ' ' || c == '\n' || c == '\r' || c == '\t'
  }

  function Skip(t: string, pos: nat): (p: nat)
    ensures pos <= p && !IsSpace(Peek(t, p))
    ensures pos <= |t| ==> p <= |t|
    ensures !IsSpace(Peek(t, pos)) ==> p == pos
    decreases |t| - pos
  {
    if IsSpace(Peek(t, pos)) then Skip(t, pos + 1) else pos
  }

  // ---------------------------------------------------------------------------------------------
  // Strings

  function HexDigit(c: char): (d: int)
    ensures -1 <= d < 16
  {
    if '0' <= c <= '9' then c as int - '0' as int
    else if 'A' <= c <= 'F' then c as int - 'A' as int + 10
    else if 'a' <= c <= 'f' then c as int - 'a' as int + 10
    else -1
  }

  /** Four hexadecimal digits. */
  function Hex4(t: string, pos: nat): (r: Lexed<nat>)
    ensures r.Token? ==> r.pos == pos + 4 <= |t| && r.value < 0x10000
  {
    var a, b, c, d := HexDigit(Peek(t, pos)), HexDigit(Peek(t, pos + 1)), HexDigit(Peek(t, pos + 2)),
      HexDigit(Peek(t, pos + 3));
    if a < 0 || b < 0 || c < 0 || d < 0 then Bad
    else Token(pos + 4, ((a * 16 + b) * 16 + c) * 16 + d)
  }

  /** The character a one-letter escape stands for; NUL when there is no such escape. */
  function Unescape(c: char): char {
    if c == '"' || c == '/' || c == '\\' then c
    else if c == 'b' then 8 as char
    else if c == 'f' then 12 as char
    else if c == 'n' then '\n'
    else if c == 'r' then '\r'
    else if c == 't' then '\t'
    else NUL
  }

  function Utf8(codepoint: nat): string
    requires codepoint <= 0x10FFFF
  {
    if codepoint <= 0x7F then [codepoint as char]
    else if codepoint <= 0x7FF then [(0xC0 + codepoint / 64) as char, (0x80 + codepoint % 64) as char]
    else if codepoint <= 0xFFFF then
      [(0xE0 + codepoint / 4096) as char, (0x80 + codepoint / 64 % 64) as char, (0x80 + codepoint % 64) as char]
    else
      [(0xF0 + codepoint / 262144) as char, (0x80 + codepoint / 4096 % 64) as char,
       (0x80 + codepoint / 64 % 64) as char, (0x80 + codepoint % 64) as char]
  }

  /** A \u escape, its letter u already read; a high surrogate must be followed by a low one. */
  function UnicodeEscape(t: string, pos: nat): (r: Lexed<string>)
    ensures r.Token? ==> pos < r.pos <= |t|
  {
    var first := Hex4(t, pos);
    if first.Bad? then Bad
    else if 0xD800 <= first.value <= 0xDBFF then
      if Peek(t, first.pos) != '\\' || Peek(t, first.pos + 1) != 'u' then Bad
      else
        var second := Hex4(t, first.pos + 2);
        if second.Bad? || second.value < 0xDC00 || second.value > 0xDFFF then Bad
        else Token(second.pos, Utf8((first.value - 0xD800) * 1024 + (second.value - 0xDC00) + 0x10000))
    else Token(first.pos, Utf8(first.value))
  }

  /** One piece of a string: an escape or a plain code unit. */
  function StringPiece(t: string, pos: nat): (r: Lexed<string>)
    ensures r.Token? ==> pos < r.pos <= |t|
  {
    var c := Peek(t, pos);
    if c == '\\' then
      var e := Peek(t, pos + 1);
      if Unescape(e) != NUL then Token(pos + 2, [Unescape(e)])
      else if e == 'u' then UnicodeEscape(t, pos + 2)
      else Bad
    else if c < ' ' then Bad
    else Token(pos + 1, [c])
  }

  /** The contents of a string whose opening quote has been read, and the position after the closing one. */
  function StringBody(t: string, pos: nat): (r: Lexed<string>)
    ensures r.Token? ==> pos < r.pos <= |t|
    decreases |t| - pos
  {
    if Peek(t, pos) == '"' then Token(pos + 1, [])
    else
      var piece := StringPiece(t, pos);
      if piece.Bad? then Bad
      else
        var rest := StringBody(t, piece.pos);
        if rest.Bad? then Bad else Token(rest.pos, piece.value + rest.value)
  }

  // ---------------------------------------------------------------------------------------------
  // Numbers

  predicate IsDigit(c: char) {
    '0' <= c <= '9'
  }

  function DigitValue(c: char): nat
    requires IsDigit(c)
  {
    c as int - '0' as int
  }

  /** The end of the run of digits at a position. */
  function DigitsEnd(t: string, pos: nat): (p: nat)
    ensures pos <= p && (p == pos || p <= |t|)
    ensures forall i :: pos <= i < p ==> IsDigit(t[i])
    ensures !IsDigit(Peek(t, p))
    decreases |t| - pos
  {
    if IsDigit(Peek(t, pos)) then DigitsEnd(t, pos + 1) else pos
  }

  function Decimal(s: string): nat
    requires forall i :: 0 <= i < |s| ==> IsDigit(s[i])
  {
    if s == [] then 0 else 10 * Decimal(s[..|s| - 1]) + DigitValue(s[|s| - 1])
  }

  /** The end of the integer part: a zero, or digits not starting with one. */
  function IntegerEnd(t: string, pos: nat): (r: Lexed<nat>)
    ensures r.Token? ==> pos < r.pos <= |t|
  {
    var c := Peek(t, pos);
    if c == '0' then Token(pos + 1, 0)
    else if '1' <= c <= '9' then
      var end := DigitsEnd(t, pos);
      Token(end, Decimal(t[pos..end]))
    else Bad
  }

  function FractionEnd(t: string, pos: nat): (r: Lexed<bool>)
    ensures r.Token? ==> pos <= r.pos && (pos <= |t| ==> r.pos <= |t|)
  {
    if Peek(t, pos) == '.' then
      if IsDigit(Peek(t, pos + 1)) then Token(DigitsEnd(t, pos + 1), true) else Bad
    else Token(pos, false)
  }

  function ExponentEnd(t: string, pos: nat): (r: Lexed<bool>)
    ensures r.Token? ==> pos <= r.pos && (pos <= |t| ==> r.pos <= |t|)
  {
    if Peek(t, pos) == 'e' || Peek(t, pos) == 'E' then
      var digits := if Peek(t, pos + 1) == '+' || Peek(t, pos + 1) == '-' then pos + 2 else pos + 1;
      if IsDigit(Peek(t, digits)) then Token(DigitsEnd(t, digits), true) else Bad
    else Token(pos, false)
  }

  /** Whether an integer has a handler call of its own, and which. */
  function IntegerEvent(minus: bool, n: nat): (e: Event) {
    if minus then
      if n <= 0x8000_0000 then Int(-(n as int))
      else if n <= 0x8000_0000_0000_0000 then Int64(-(n as int))
      else Double([])
    else
      if n < 0x1_0000_0000 then Uint(n)
      else if n < 0x1_0000_0000_0000_0000 then Uint64(n)
      else Double([])
  }

  function Number(t: string, st: Settings, pos: nat): (r: Lexed<Event>)
    ensures r.Token? ==> pos < r.pos <= |t|
  {
    var minus := Peek(t, pos) == '-';
    var start := if minus then pos + 1 else pos;
    var whole := IntegerEnd(t, start);
    if whole.Bad? then Bad
    else
      var frac := FractionEnd(t, whole.pos);
      if frac.Bad? then Bad
      else
        var exp := ExponentEnd(t, frac.pos);
        if exp.Bad? then Bad
        else if frac.value || exp.value || IntegerEvent(minus, whole.value).Double? then
          var lexeme := t[pos..exp.pos];
          if st.finite(lexeme) then Token(exp.pos, Double(lexeme)) else Bad
        else Token(exp.pos, IntegerEvent(minus, whole.value))
  }

  /** A literal name, once its first letter has been seen. */
  function Literal(t: string, pos: nat, word: string, event: Event): (r: Lexed<Event>)
    ensures r.Token? ==> pos + |word| == r.pos <= |t|
  {
    if pos + |word| <= |t| && t[pos..pos + |word|] == word then Token(pos + |word|, event) else Bad
  }

  /** A value that is not an object or an array. */
  function Scalar(t: string, st: Settings, pos: nat): (r: Lexed<Event>)
    ensures r.Token? ==> pos < r.pos <= |t|
  {
    var c := Peek(t, pos);
    if c == 'n' then Literal(t, pos, "null", Null)
    else if c == 't' then Literal(t, pos, "true", Bool(true))
    else if c == 'f' then Literal(t, pos, "false", Bool(false))
    else if c == '"' then
      var body := StringBody(t, pos + 1);
      if body.Bad? then Bad else Token(body.pos, String(body.value))
    else Number(t, st, pos)
  }

  // ---------------------------------------------------------------------------------------------
  // Values

  /** Counts are of the 32-bit SizeType. */
  function Increment(count: nat): nat {
    (count + 1) % SIZE_TYPE
  }

  /** Sends one event and goes on at `pos`, unless the handler has had enough. */
  function Send(st: Settings, pos: nat, events: seq<Event>, e: Event): (r: Outcome)
    ensures r.Done? ==> r.pos == pos
  {
    if st.goesOn(events + [e]) then Done(pos, events + [e]) else Error(events + [e])
  }

  function ScalarOutcome(t: string, st: Settings, pos: nat, events: seq<Event>): (r: Outcome)
    ensures r.Done? ==> pos < r.pos <= |t|
  {
    var s := Scalar(t, st, pos);
    if s.Bad? then Error(events) else Send(st, s.pos, events, s.value)
  }

  function Value(t: string, st: Settings, pos: nat, events: seq<Event>): (r: Outcome)
    ensures r.Done? ==> pos < r.pos <= |t|
    decreases |t| - pos, 5
  {
    if Peek(t, pos) == '{' then
      var start := Send(st, pos + 1, events, StartObject);
      if start.Error? then start else ObjectBody(t, st, Skip(t, start.pos), start.events)
    else if Peek(t, pos) == '[' then
      var start := Send(st, pos + 1, events, StartArray);
      if start.Error? then start else ArrayBody(t, st, Skip(t, start.pos), start.events)
    else ScalarOutcome(t, st, pos, events)
  }

  function ObjectBody(t: string, st: Settings, pos: nat, events: seq<Event>): (r: Outcome)
    ensures r.Done? ==> pos < r.pos <= |t|
    decreases |t| - pos, 4
  {
    if Peek(t, pos) == '}' then Send(st, pos + 1, events, EndObject(0))
    else Members(t, st, pos, events, 0)
  }

  /** From the name of a member to the end of the object; `count` members are complete. */
  function Members(t: string, st: Settings, pos: nat, events: seq<Event>, count: nat): (r: Outcome)
    ensures r.Done? ==> pos < r.pos <= |t|
    decreases |t| - pos, 3
  {
    if Peek(t, pos) != '"' then Error(events)
    else
      var name := StringBody(t, pos + 1);
      if name.Bad? then Error(events)
      else
        var key := Send(st, name.pos, events, Key(name.value));
        if key.Error? then key else MemberColon(t, st, Skip(t, key.pos), key.events, count)
  }

  function MemberColon(t: string, st: Settings, pos: nat, events: seq<Event>, count: nat): (r: Outcome)
    ensures r.Done? ==> pos < r.pos <= |t|
    decreases |t| - pos, 2
  {
    if Peek(t, pos) != ':' then Error(events)
    else MemberValue(t, st, Skip(t, pos + 1), events, count)
  }

  function MemberValue(t: string, st: Settings, pos: nat, events: seq<Event>, count: nat): (r: Outcome)
    ensures r.Done? ==> pos < r.pos <= |t|
    decreases |t| - pos, 6
  {
    var v := Value(t, st, pos, events);
    if v.Error? then v else MemberEnd(t, st, Skip(t, v.pos), v.events, count)
  }

  /** After a member's value, which is not yet counted. */
  function MemberEnd(t: string, st: Settings, pos: nat, events: seq<Event>, count: nat): (r: Outcome)
    ensures r.Done? ==> pos < r.pos <= |t|
    decreases |t| - pos, 1
  {
    if Peek(t, pos) == ',' then NextMember(t, st, Skip(t, pos + 1), events, Increment(count))
    else if Peek(t, pos) == '}' then Send(st, pos + 1, events, EndObject(Increment(count)))
    else Error(events)
  }

  function NextMember(t: string, st: Settings, pos: nat, events: seq<Event>, count: nat): (r: Outcome)
    ensures r.Done? ==> pos < r.pos <= |t|
    decreases |t| - pos, 4
  {
    if st.trailingCommas && Peek(t, pos) == '}' then Send(st, pos + 1, events, EndObject(count))
    else Members(t, st, pos, events, count)
  }

  function ArrayBody(t: string, st: Settings, pos: nat, events: seq<Event>): (r: Outcome)
    ensures r.Done? ==> pos < r.pos <= |t|
    decreases |t| - pos, 7
  {
    if Peek(t, pos) == ']' then Send(st, pos + 1, events, EndArray(0))
    else Elements(t, st, pos, events, 0)
  }

  /** From an element to the end of the array; `count` elements are complete. */
  function Elements(t: string, st: Settings, pos: nat, events: seq<Event>, count: nat): (r: Outcome)
    ensures r.Done? ==> pos < r.pos <= |t|
    decreases |t| - pos, 6
  {
    var v := Value(t, st, pos, events);
    if v.Error? then v else ElementEnd(t, st, Skip(t, v.pos), v.events, count)
  }

  function ElementEnd(t: string, st: Settings, pos: nat, events: seq<Event>, count: nat): (r: Outcome)
    ensures r.Done? ==> pos < r.pos <= |t|
    decreases |t| - pos, 1
  {
    if Peek(t, pos) == ',' then NextElement(t, st, Skip(t, pos + 1), events, Increment(count))
    else if Peek(t, pos) == ']' then Send(st, pos + 1, events, EndArray(Increment(count)))
    else Error(events)
  }

  function NextElement(t: string, st: Settings, pos: nat, events: seq<Event>, count: nat): (r: Outcome)
    ensures r.Done? ==> pos < r.pos <= |t|
    decreases |t| - pos, 7
  {
    if st.trailingCommas && Peek(t, pos) == ']' then Send(st, pos + 1, events, EndArray(count))
    else Elements(t, st, pos, events, count)
  }

  /** After the root value: nothing but white space may follow. */
  function AfterRoot(t: string, st: Settings, pos: nat, events: seq<Event>): Outcome {
    if !st.stopWhenDone && Peek(t, pos) != NUL then Error(events) else Done(pos, events)
  }

  /** The recursive parser on a whole text. */
  function Parse(t: string, st: Settings): Outcome {
    var pos := Skip(t, 0);
    if Peek(t, pos) == NUL then Error([])
    else
      var v := Value(t, st, pos, []);
      if v.Error? then v
      else AfterRoot(t, st, if st.stopWhenDone then v.pos else Skip(t, v.pos), v.events)
  }
}
