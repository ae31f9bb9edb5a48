/**
 JSON values as include/rapidjson/document.h stores them, the events a value sends to a handler, and
 the text a value stands for.
 */
module JsonDom {
  import opened JsonGrammar
  import opened Word

  /** An integer with the flags that say which C++ types can hold it. */
  datatype Number = Number(n: int, isInt: bool, isUint: bool, isInt64: bool, isUint64: bool)

  datatype Member = Member(name: string, value: Json)

  datatype Json =
    | JNull
    | JBool(b: bool)
    | JNumber(number: Number)
    | JString(s: string)
    | JArray(items: seq<Json>)
    | JObject(members: seq<Member>)

  // The four constructors set the flags by looking at different bits.

  function FromInt(i: int): Number
    requires -TWO_TO_THE_31 <= i < TWO_TO_THE_31
  {
    if i >= 0 then Number(i, true, true, true, true) else Number(i, true, false, true, false)
  }

  function FromUint(u: int): Number
    requires 0 <= u < TWO_TO_THE_32
  {
    var topBit := u / TWO_TO_THE_31 % 2 == 1;
    if topBit then Number(u, false, true, true, true) else Number(u, true, true, true, true)
  }

  function FromInt64(i64: int): Number
    requires -TWO_TO_THE_63 <= i64 < TWO_TO_THE_63
  {
    if i64 >= 0 then
      var noHighBits, noHigherBits := i64 / TWO_TO_THE_32 == 0, i64 / TWO_TO_THE_31 == 0;
      Number(i64, noHigherBits, noHighBits, true, true)
    else Number(i64, i64 >= -TWO_TO_THE_31, false, true, false)
  }

  function FromUint64(u64: int): Number
    requires 0 <= u64 < TWO_TO_THE_64
  {
    var topBit := u64 / TWO_TO_THE_63 % 2 == 1;
    var noHighBits, noHigherBits := u64 / TWO_TO_THE_32 == 0, u64 / TWO_TO_THE_31 == 0;
    Number(u64, noHigherBits, noHighBits, !topBit, true)
  }

  /** The flags a number ought to have. */
  function Integer(n: int): Number {
    Number(n, -TWO_TO_THE_31 <= n < TWO_TO_THE_31, 0 <= n < TWO_TO_THE_32, n < TWO_TO_THE_63, 0 <= n)
  }

  /** Whichever constructor builds a number, the flags depend on its value only. */
  lemma FlagsDependOnValue(n: int)
    ensures -TWO_TO_THE_31 <= n < TWO_TO_THE_31 ==> FromInt(n) == Integer(n)
    ensures 0 <= n < TWO_TO_THE_32 ==> FromUint(n) == Integer(n)
    ensures -TWO_TO_THE_63 <= n < TWO_TO_THE_63 ==> FromInt64(n) == Integer(n)
    ensures 0 <= n < TWO_TO_THE_64 ==> FromUint64(n) == Integer(n)
  {
  }

  /** A storable value: integers of 64 bits, and no container with 2^32 entries or more. */
  ghost predicate Valid(v: Json) {
    match v
    case JNumber(x) => -TWO_TO_THE_63 <= x.n < TWO_TO_THE_64 && x == Integer(x.n)
    case JArray(items) => |items| < SIZE_TYPE && forall i :: 0 <= i < |items| ==> Valid(items[i])
    case JObject(members) => |members| < SIZE_TYPE && forall i :: 0 <= i < |members| ==> Valid(members[i].value)
    case _ => true
  }

  // ---------------------------------------------------------------------------------------------
  // Events

  /** The call `Accept` makes for a number. */
  function NumberEvent(x: Number): Event {
    if x.isInt then Int(x.n)
    else if x.isUint then Uint(x.n)
    else if x.isInt64 then Int64(x.n)
    else Uint64(x.n)
  }

  /** The calls the parser makes for the text of an integer. */
  function ParsedNumberEvent(x: Number): Event {
    if x.n < 0 then IntegerEvent(true, -x.n) else IntegerEvent(false, x.n)
  }

  /** The events of a value, given how a number is reported. */
  function Events(v: Json, number: Number -> Event): seq<Event>
    decreases v, 0
  {
    match v
    case JNull => [Null]
    case JBool(b) => [Bool(b)]
    case JNumber(x) => [number(x)]
    case JString(s) => [String(s)]
    case JArray(items) => [StartArray] + ItemEvents(items, number) + [EndArray(|items|)]
    case JObject(members) => [StartObject] + MemberEvents(members, number) + [EndObject(|members|)]
  }

  function ItemEvents(items: seq<Json>, number: Number -> Event): seq<Event>
    decreases items, 1
  {
    if items == [] then [] else Events(items[0], number) + ItemEvents(items[1..], number)
  }

  function MemberEvents(members: seq<Member>, number: Number -> Event): seq<Event>
    decreases members, 1
  {
    if members == [] then []
    else [Key(members[0].name)] + Events(members[0].value, number) + MemberEvents(members[1..], number)
  }

  /** What `Accept` sends. */
  function Accepted(v: Json): seq<Event> {
    Events(v, NumberEvent)
  }

  /** What the parser sends for the value's text. */
  function Parsed(v: Json): seq<Event> {
    Events(v, ParsedNumberEvent)
  }

  // ---------------------------------------------------------------------------------------------
  // Text

  function HexLetter(d: nat): char
    requires d < 16
  {
    if d < 10 then ('0' as int + d) as char else ('A' as int + d - 10) as char
  }

  function Escape(c: char): string {
    if c == '"' then "\\\""
    else if c == '\\' then "\\\\"
    else if c == 8 as char then "\\b"
    else if c == '\t' then "\\t"
    else if c == '\n' then "\\n"
    else if c == 12 as char then "\\f"
    else if c == '\r' then "\\r"
    else if c < ' ' then "\\u00" + [HexLetter(c as int / 16), HexLetter(c as int % 16)]
    else [c]
  }

  function EscapeAll(s: string): string {
    if s == [] then [] else Escape(s[0]) + EscapeAll(s[1..])
  }

  function Quoted(s: string): string {
    "\"" + EscapeAll(s) + "\""
  }

  /** The ordinary decimal digits. */
  function Digits(n: nat): (s: string)
    ensures s != [] && forall i :: 0 <= i < |s| ==> IsDigit(s[i])
  {
    if n < 10 then [('0' as int + n) as char] else Digits(n / 10) + [('0' as int + n % 10) as char]
  }

  function IntegerText(n: int): string {
    if n < 0 then "-" + Digits(-n) else Digits(n)
  }

  function Print(v: Json): (s: string)
    decreases v, 0
  {
    match v
    case JNull => "null"
    case JBool(b) => if b then "true" else "false"
    case JNumber(x) => IntegerText(x.n)
    case JString(s) => Quoted(s)
    case JArray(items) => "[" + PrintItems(items) + "]"
    case JObject(members) => "{" + PrintMembers(members) + "}"
  }

  /** Separated by commas. */
  function PrintItems(items: seq<Json>): string
    decreases items, 1
  {
    if items == [] then []
    else if |items| == 1 then Print(items[0])
    else Print(items[0]) + "," + PrintItems(items[1..])
  }

  function PrintMembers(members: seq<Member>): string
    decreases members, 1
  {
    if members == [] then []
    else
      var first := Quoted(members[0].name) + ":" + Print(members[0].value);
      if |members| == 1 then first else first + "," + PrintMembers(members[1..])
  }
}
