/**
 A tree written by the writer and read back by either parser is rebuilt by the document.
 */
module JsonRoundTrip {
  import opened JsonGrammar
  import opened JsonDom
  import opened JsonWriter
  import opened TextAt
  import opened Wrappers
  import JsonDocument
  import JsonMachine
  import JsonReader

  lemma AtPeek(t: string, pos: nat, s: string, i: nat)
    requires At(t, pos, s) && i < |s|
    ensures Peek(t, pos + i) == s[i]
  {
    AtChar(t, pos, s, i);
  }

  // ---------------------------------------------------------------------------------------------
  // Strings

  lemma HexRead(d: nat)
    requires d < 16
    ensures HexDigit(HexLetter(d)) == d
  {
  }

  lemma ReadControl(t: string, pos: nat, c: char)
    requires c < ' ' && At(t, pos, "\\u00" + [HexLetter(c as int / 16), HexLetter(c as int % 16)])
    ensures UnicodeEscape(t, pos + 2) == Token(pos + 6, [c]) && Peek(t, pos) == '\\' && Peek(t, pos + 1) == 'u'
  {
    var s := "\\u00" + [HexLetter(c as int / 16), HexLetter(c as int % 16)];
    AtPeek(t, pos, s, 0);
    AtPeek(t, pos, s, 1);
    AtPeek(t, pos, s, 2);
    AtPeek(t, pos, s, 3);
    AtPeek(t, pos, s, 4);
    AtPeek(t, pos, s, 5);
    HexRead(c as int / 16);
    HexRead(c as int % 16);
    assert Hex4(t, pos + 2) == Token(pos + 6, c as int);
  }

  /** Every escape reads back as the code unit it was written for. */
  lemma ReadPiece(t: string, pos: nat, c: char)
    requires At(t, pos, Escape(c))
    ensures StringPiece(t, pos) == Token(pos + |Escape(c)|, [c]) && Peek(t, pos) != '"'
  {
    hide UnicodeEscape;
    hide Peek;
    var s := Escape(c);
    AtPeek(t, pos, s, 0);
    if |s| == 2 {
      AtPeek(t, pos, s, 1);
    } else if |s| == 6 {
      ReadControl(t, pos, c);
    }
  }

  lemma {:induction false} ReadString(t: string, pos: nat, s: string)
    requires At(t, pos, EscapeAll(s) + "\"")
    ensures StringBody(t, pos) == Token(pos + |EscapeAll(s)| + 1, s)
    decreases |s|
  {
    hide StringPiece;
    hide Escape;
    hide Peek;
    AtSplit(t, pos, EscapeAll(s), "\"");
    if s == [] {
      AtPeek(t, pos, "\"", 0);
    } else {
      var tail := EscapeAll(s[1..]) + "\"";
      assert EscapeAll(s) + "\"" == Escape(s[0]) + tail;
      AtSplit(t, pos, Escape(s[0]), tail);
      ReadPiece(t, pos, s[0]);
      ReadString(t, pos + |Escape(s[0])|, s[1..]);
      assert [s[0]] + s[1..] == s;
    }
  }

  /** A quoted string, and where it ends. */
  lemma ReadQuoted(t: string, pos: nat, s: string)
    requires At(t, pos, Quoted(s))
    ensures Peek(t, pos) == '"' && StringBody(t, pos + 1) == Token(pos + |Quoted(s)|, s)
  {
    hide StringBody;
    hide EscapeAll;
    var tail := EscapeAll(s) + "\"";
    assert Quoted(s) == "\"" + tail;
    AtPeek(t, pos, Quoted(s), 0);
    AtSplit(t, pos, "\"", tail);
    ReadString(t, pos + 1, s);
  }

  // ---------------------------------------------------------------------------------------------
  // Numbers

  lemma {:induction false} ReadDigits(n: nat)
    ensures Decimal(Digits(n)) == n
    ensures Digits(n)[0] == '0' <==> n == 0
    ensures n == 0 ==> Digits(n) == "0"
  {
    if n >= 10 {
      ReadDigits(n / 10);
      var s := Digits(n);
      assert s[..|s| - 1] == Digits(n / 10);
    } else {
      assert Digits(n)[..0] == [];
    }
  }

  lemma {:induction false} RunOfDigits(t: string, pos: nat, end: nat)
    requires pos <= end <= |t| && (forall i :: pos <= i < end ==> IsDigit(t[i])) && !IsDigit(Peek(t, end))
    ensures DigitsEnd(t, pos) == end
    decreases end - pos
  {
    if pos < end {
      RunOfDigits(t, pos + 1, end);
    }
  }

  /** What may follow a number without changing it. */
  predicate Delimits(c: char) {
    !IsDigit(c) && c != '.' && c != 'e' && c != 'E'
  }

  lemma ReadInteger(t: string, pos: nat, n: nat)
    requires At(t, pos, Digits(n)) && !IsDigit(Peek(t, pos + |Digits(n)|))
    ensures IntegerEnd(t, pos) == Token(pos + |Digits(n)|, n)
    ensures Peek(t, pos) != '-'
  {
    hide Digits;
    hide Decimal;
    var s := Digits(n);
    AtPeek(t, pos, s, 0);
    ReadDigits(n);
    if n != 0 {
      forall i | pos <= i < pos + |s| ensures IsDigit(t[i]) {
        AtPeek(t, pos, s, i - pos);
      }
      RunOfDigits(t, pos, pos + |s|);
    }
  }

  lemma ReadNumber(t: string, st: Settings, pos: nat, x: JsonDom.Number)
    requires Valid(JNumber(x)) && At(t, pos, IntegerText(x.n)) && Delimits(Peek(t, pos + |IntegerText(x.n)|))
    ensures JsonGrammar.Number(t, st, pos) == Token(pos + |IntegerText(x.n)|, ParsedNumberEvent(x))
    ensures Peek(t, pos) == '-' || IsDigit(Peek(t, pos))
  {
    hide IntegerEnd;
    hide Digits;
    hide DigitsEnd;
    hide Peek;
    AtPeek(t, pos, IntegerText(x.n), 0);
    if x.n < 0 {
      AtSplit(t, pos, "-", Digits(-x.n));
      ReadInteger(t, pos + 1, -x.n);
    } else {
      ReadInteger(t, pos, x.n);
    }
  }

  // ---------------------------------------------------------------------------------------------
  // Values

  /** The handler never stops the parse, as the document's handlers never do. */
  ghost predicate AlwaysGoesOn(st: Settings) {
    forall e :: st.goesOn(e)
  }

  lemma AlwaysSends(st: Settings, pos: nat, events: seq<Event>, e: Event)
    requires AlwaysGoesOn(st)
    ensures Send(st, pos, events, e) == Done(pos, events + [e])
  {
  }

  /** A value's text does not begin like white space, a separator or a closing bracket. */
  predicate Opens(c: char) {
    !IsSpace(c) && c != ']' && c != '}' && c != ',' && c != NUL
  }

  lemma FirstChar(v: Json)
    ensures Print(v) != [] && Opens(Print(v)[0])
  {
    hide EscapeAll;
    hide PrintItems;
    hide PrintMembers;
  }

  /** One of the words the parser knows. */
  lemma ReadLiteral(t: string, st: Settings, pos: nat, v: Json)
    requires (v.JNull? || v.JBool?) && At(t, pos, Print(v))
    ensures Scalar(t, st, pos) == Token(pos + |Print(v)|, Parsed(v)[0])
    ensures Peek(t, pos) != '{' && Peek(t, pos) != '['
  {
    AtPeek(t, pos, Print(v), 0);
  }

  lemma ReadScalar(t: string, st: Settings, pos: nat, v: Json)
    requires Valid(v) && !v.JArray? && !v.JObject? && At(t, pos, Print(v))
    requires Delimits(Peek(t, pos + |Print(v)|))
    ensures Scalar(t, st, pos) == Token(pos + |Print(v)|, Parsed(v)[0])
    ensures Peek(t, pos) != '{' && Peek(t, pos) != '['
  {
    hide JsonGrammar.Number;
    hide StringBody;
    hide Quoted;
    hide IntegerText;
    hide Literal;
    match v
    case JNumber(x) =>
      ReadNumber(t, st, pos, x);
    case JString(s) =>
      ReadQuoted(t, pos, s);
    case _ =>
      ReadLiteral(t, st, pos, v);
  }

  /** After `first` comes either a closing bracket or a comma and the rest. */
  lemma AtRest(t: string, pos: nat, first: string, rest: string, close: string)
    requires At(t, pos, first + rest + close) && rest + close != []
    ensures At(t, pos, first) && At(t, pos + |first|, rest + close)
    ensures Peek(t, pos + |first|) == (rest + close)[0]
  {
    assert first + rest + close == first + (rest + close);
    AtSplit(t, pos, first, rest + close);
    AtPeek(t, pos + |first|, rest + close, 0);
  }

  /** Reading a value's text sends the value's events and stops right after it. */
  lemma {:induction false} ReadValue(t: string, st: Settings, pos: nat, events: seq<Event>, v: Json)
    requires AlwaysGoesOn(st) && Valid(v) && At(t, pos, Print(v)) && Delimits(Peek(t, pos + |Print(v)|))
    ensures Value(t, st, pos, events) == Done(pos + |Print(v)|, events + Parsed(v))
    decreases v, 0
  {
    hide AlwaysGoesOn;
    hide Value;
    if v.JArray? {
      ReadArray(t, st, pos, events, v.items);
      assert events + Parsed(v)
        == events + [StartArray] + ItemEvents(v.items, ParsedNumberEvent) + [EndArray(|v.items|)];
    } else if v.JObject? {
      ReadObject(t, st, pos, events, v.members);
      assert events + Parsed(v)
        == events + [StartObject] + MemberEvents(v.members, ParsedNumberEvent) + [EndObject(|v.members|)];
    } else {
      ReadScalarValue(t, st, pos, events, v);
    }
  }

  lemma ReadScalarValue(t: string, st: Settings, pos: nat, events: seq<Event>, v: Json)
    requires AlwaysGoesOn(st) && Valid(v) && !v.JArray? && !v.JObject? && At(t, pos, Print(v))
    requires Delimits(Peek(t, pos + |Print(v)|))
    ensures Value(t, st, pos, events) == Done(pos + |Print(v)|, events + Parsed(v))
  {
    hide AlwaysGoesOn;
    hide ObjectBody;
    hide ArrayBody;
    hide Scalar;
    hide Print;
    hide Send;
    hide ParsedNumberEvent;
    ReadScalar(t, st, pos, v);
    AlwaysSends(st, pos + |Print(v)|, events, Parsed(v)[0]);
    assert Parsed(v) == [Parsed(v)[0]];
  }

  lemma {:induction false} ReadArray(t: string, st: Settings, pos: nat, events: seq<Event>, items: seq<Json>)
    requires AlwaysGoesOn(st) && |items| < SIZE_TYPE && forall i :: 0 <= i < |items| ==> Valid(items[i])
    requires At(t, pos, "[" + PrintItems(items) + "]")
    ensures Value(t, st, pos, events) ==
      Done(pos + |PrintItems(items)| + 2,
        events + [StartArray] + ItemEvents(items, ParsedNumberEvent) + [EndArray(|items|)])
    decreases items, 2
  {
    hide AlwaysGoesOn;
    hide ObjectBody;
    hide Elements;
    hide PrintItems;
    hide Valid;
    var body := PrintItems(items) + "]";
    AtRest(t, pos, "[", PrintItems(items), "]");
    AtPeek(t, pos, "[", 0);
    AlwaysSends(st, pos + 1, events, StartArray);
    NoItems();
    if items == [] {
      AlwaysSends(st, pos + 2, events + [StartArray], EndArray(0));
      assert events + [StartArray] + [] == events + [StartArray];
    } else {
      FirstItem(items);
      ReadItems(t, st, pos + 1, events + [StartArray], 0, items);
    }
  }

  lemma NoItems()
    ensures PrintItems([]) == [] && ItemEvents([], ParsedNumberEvent) == []
  {
  }

  lemma FirstItem(items: seq<Json>)
    requires items != []
    ensures PrintItems(items) != [] && Opens(PrintItems(items)[0])
  {
    hide Print;
    hide PrintItems;
    PrintItemsStep(items);
    FirstChar(items[0]);
  }

  /** What follows an item of an array. */
  function AfterItem(items: seq<Json>): string
    requires items != []
  {
    if |items| == 1 then [] else "," + PrintItems(items[1..])
  }

  /** How the parser goes on after an element. */
  lemma ElementStep(t: string, st: Settings, pos: nat, events: seq<Event>, count: nat, end: nat, sent: seq<Event>)
    requires Value(t, st, pos, events) == Done(end, sent)
    ensures Peek(t, end) == ']' ==>
      Elements(t, st, pos, events, count) == Send(st, end + 1, sent, EndArray(Increment(count)))
    ensures Peek(t, end) == ',' && Opens(Peek(t, end + 1)) ==>
      Elements(t, st, pos, events, count) == Elements(t, st, end + 1, sent, Increment(count))
  {
    hide Value;
    hide Increment;
    assert Elements(t, st, pos, events, count) == ElementEnd(t, st, Skip(t, end), sent, count);
    if Peek(t, end) == ',' && Opens(Peek(t, end + 1)) {
      var n := Increment(count);
      assert ElementEnd(t, st, end, sent, count) == NextElement(t, st, end + 1, sent, n);
      assert NextElement(t, st, end + 1, sent, n) == Elements(t, st, end + 1, sent, n);
    }
  }

  lemma {:induction false} ReadItems(t: string, st: Settings, pos: nat, events: seq<Event>, count: nat,
    items: seq<Json>)
    requires AlwaysGoesOn(st) && count + |items| < SIZE_TYPE && forall i :: 0 <= i < |items| ==> Valid(items[i])
    requires items != [] && At(t, pos, PrintItems(items) + "]")
    ensures Elements(t, st, pos, events, count) ==
      Done(pos + |PrintItems(items)| + 1, events + ItemEvents(items, ParsedNumberEvent) + [EndArray(count + |items|)])
    decreases items, 1
  {
    hide AlwaysGoesOn;
    hide PrintItems;
    hide Valid;
    hide Value;
    hide Elements;
    hide Print;
    hide Parsed;
    hide Events;
    hide ItemEvents;
    hide Delimits;
    hide At;
    hide Opens;
    hide Peek;
    var first, rest := Print(items[0]), AfterItem(items);
    PrintItemsStep(items);
    AtRest(t, pos, first, rest, "]");
    Separators();
    ReadValue(t, st, pos, events, items[0]);
    var end, sent := pos + |first|, events + Parsed(items[0]);
    ElementStep(t, st, pos, events, count, end, sent);
    if |items| == 1 {
      AlwaysSends(st, end + 1, sent, EndArray(count + 1));
      LastItem(items);
    } else {
      AtRest(t, end, ",", PrintItems(items[1..]), "]");
      FirstItem(items[1..]);
      AtPeek(t, end + 1, PrintItems(items[1..]) + "]", 0);
      ReadItems(t, st, end + 1, sent, count + 1, items[1..]);
      MoreItems(events, items, [EndArray(count + |items|)]);
    }
  }

  lemma Separators()
    ensures Delimits(',') && Delimits(']') && Delimits('}') && Delimits(NUL)
  {
  }

  lemma LastItem(items: seq<Json>)
    requires |items| == 1
    ensures ItemEvents(items, ParsedNumberEvent) == Parsed(items[0])
  {
    assert ItemEvents(items[1..], ParsedNumberEvent) == [];
  }

  lemma MoreItems(events: seq<Event>, items: seq<Json>, close: seq<Event>)
    requires items != []
    ensures (events + Parsed(items[0])) + ItemEvents(items[1..], ParsedNumberEvent) + close
            == events + ItemEvents(items, ParsedNumberEvent) + close
  {
    hide Events;
  }

  lemma {:induction false} ReadObject(t: string, st: Settings, pos: nat, events: seq<Event>, members: seq<Member>)
    requires AlwaysGoesOn(st) && |members| < SIZE_TYPE && forall i :: 0 <= i < |members| ==> Valid(members[i].value)
    requires At(t, pos, "{" + PrintMembers(members) + "}")
    ensures Value(t, st, pos, events) == Done(pos + |PrintMembers(members)| + 2,
      events + [StartObject] + MemberEvents(members, ParsedNumberEvent) + [EndObject(|members|)])
    decreases members, 2
  {
    hide AlwaysGoesOn;
    hide ArrayBody;
    hide Members;
    hide PrintMembers;
    hide Valid;
    var body := PrintMembers(members) + "}";
    AtRest(t, pos, "{", PrintMembers(members), "}");
    AtPeek(t, pos, "{", 0);
    AlwaysSends(st, pos + 1, events, StartObject);
    NoMembers();
    if members == [] {
      AlwaysSends(st, pos + 2, events + [StartObject], EndObject(0));
      assert events + [StartObject] + [] == events + [StartObject];
    } else {
      FirstMember(members);
      ReadMembers(t, st, pos + 1, events + [StartObject], 0, members);
    }
  }

  lemma NoMembers()
    ensures PrintMembers([]) == [] && MemberEvents([], ParsedNumberEvent) == []
  {
  }

  lemma FirstMember(members: seq<Member>)
    requires members != []
    ensures PrintMembers(members) != [] && PrintMembers(members)[0] == '"'
  {
    hide Print;
    hide EscapeAll;
    hide PrintMembers;
    PrintMembersStep(members);
  }

  /** What follows a member of an object. */
  function AfterMember(members: seq<Member>): string
    requires members != []
  {
    if |members| == 1 then [] else "," + PrintMembers(members[1..])
  }

  /** How the parser goes through a member's name and value. */
  lemma MemberStep(t: string, st: Settings, pos: nat, events: seq<Event>, count: nat,
                   name: string, colon: nat, end: nat, sent: seq<Event>)
    requires AlwaysGoesOn(st)
    requires Peek(t, pos) == '"' && StringBody(t, pos + 1) == Token(colon, name)
    requires Peek(t, colon) == ':' && Opens(Peek(t, colon + 1))
    requires Value(t, st, colon + 1, events + [Key(name)]) == Done(end, sent)
    ensures Peek(t, end) == '}' ==>
      Members(t, st, pos, events, count) == Send(st, end + 1, sent, EndObject(Increment(count)))
    ensures Peek(t, end) == ',' && Peek(t, end + 1) == '"' ==>
      Members(t, st, pos, events, count) == Members(t, st, end + 1, sent, Increment(count))
  {
    hide AlwaysGoesOn;
    hide Value;
    hide StringBody;
    hide Increment;
    AlwaysSends(st, colon, events, Key(name));
    var named := events + [Key(name)];
    assert Members(t, st, pos, events, count) == MemberColon(t, st, colon, named, count);
    assert MemberColon(t, st, colon, named, count) == MemberValue(t, st, colon + 1, named, count);
    assert MemberValue(t, st, colon + 1, named, count) == MemberEnd(t, st, Skip(t, end), sent, count);
    if Peek(t, end) == ',' && Peek(t, end + 1) == '"' {
      var n := Increment(count);
      assert MemberEnd(t, st, end, sent, count) == NextMember(t, st, end + 1, sent, n);
      assert NextMember(t, st, end + 1, sent, n) == Members(t, st, end + 1, sent, n);
    }
  }

  lemma ReadMember(t: string, st: Settings, pos: nat, events: seq<Event>, m: Member)
    requires AlwaysGoesOn(st) && Valid(m.value) && At(t, pos, MemberText(m)) && Delimits(Peek(t, pos + |MemberText(m)|))
    ensures Peek(t, pos) == '"'
    ensures var colon := pos + |Quoted(m.name)|;
      StringBody(t, pos + 1) == Token(colon, m.name) && Peek(t, colon) == ':' && Opens(Peek(t, colon + 1)) &&
      Value(t, st, colon + 1, events + [Key(m.name)])
        == Done(pos + |MemberText(m)|, events + [Key(m.name)] + Parsed(m.value))
    decreases m, 1
  {
    hide AlwaysGoesOn;
    hide Value;
    hide Print;
    hide Parsed;
    hide Quoted;
    hide StringBody;
    hide Valid;
    hide Delimits;
    hide Opens;
    hide Peek;
    hide At;
    var name, text := Quoted(m.name), Print(m.value);
    assert MemberText(m) == name + (":" + text);
    AtSplit(t, pos, name, ":" + text);
    AtSplit(t, pos + |name|, ":", text);
    ReadQuoted(t, pos, m.name);
    AtPeek(t, pos + |name|, ":", 0);
    FirstChar(m.value);
    AtPeek(t, pos + |name| + 1, text, 0);
    ReadValue(t, st, pos + |name| + 1, events + [Key(m.name)], m.value);
  }

  lemma {:induction false} ReadMembers(t: string, st: Settings, pos: nat, events: seq<Event>, count: nat,
    members: seq<Member>)
    requires AlwaysGoesOn(st) && count + |members| < SIZE_TYPE
    requires forall i :: 0 <= i < |members| ==> Valid(members[i].value)
    requires members != [] && At(t, pos, PrintMembers(members) + "}")
    ensures Members(t, st, pos, events, count) == Done(pos + |PrintMembers(members)| + 1,
      events + MemberEvents(members, ParsedNumberEvent) + [EndObject(count + |members|)])
    decreases members, 1
  {
    hide AlwaysGoesOn;
    hide PrintMembers;
    hide Valid;
    hide Value;
    hide Members;
    hide StringBody;
    hide MemberText;
    hide Parsed;
    hide Events;
    hide MemberEvents;
    hide Quoted;
    hide Delimits;
    hide At;
    hide Opens;
    hide Peek;
    var m := members[0];
    var first, rest := MemberText(m), AfterMember(members);
    PrintMembersStep(members);
    AtRest(t, pos, first, rest, "}");
    Separators();
    ReadMember(t, st, pos, events, m);
    var end, sent := pos + |first|, events + [Key(m.name)] + Parsed(m.value);
    MemberStep(t, st, pos, events, count, m.name, pos + |Quoted(m.name)|, end, sent);
    if |members| == 1 {
      AlwaysSends(st, end + 1, sent, EndObject(count + 1));
      LastMember(events, members);
    } else {
      AtRest(t, end, ",", PrintMembers(members[1..]), "}");
      FirstMember(members[1..]);
      AtPeek(t, end + 1, PrintMembers(members[1..]) + "}", 0);
      ReadMembers(t, st, end + 1, sent, count + 1, members[1..]);
      MoreMembers(events, members, [EndObject(count + |members|)]);
    }
  }

  lemma LastMember(events: seq<Event>, members: seq<Member>)
    requires |members| == 1
    ensures events + [Key(members[0].name)] + Parsed(members[0].value)
      == events + MemberEvents(members, ParsedNumberEvent)
  {
    assert MemberEvents(members[1..], ParsedNumberEvent) == [];
  }

  lemma MoreMembers(events: seq<Event>, members: seq<Member>, close: seq<Event>)
    requires members != []
    ensures (events + [Key(members[0].name)] + Parsed(members[0].value)) + MemberEvents(members[1..], ParsedNumberEvent)
      + close
            == events + MemberEvents(members, ParsedNumberEvent) + close
  {
    hide Events;
  }

  // ---------------------------------------------------------------------------------------------
  // The whole way round

  /** Either parser reads a value's text to its end and sends the value's events. */
  lemma ParsePrinted(v: Json, st: Settings)
    requires Valid(v) && AlwaysGoesOn(st)
    ensures Parse(Print(v), st) == Done(|Print(v)|, Parsed(v))
    ensures JsonMachine.IterativeParse(Print(v), st) == Parse(Print(v), st)
  {
    hide AlwaysGoesOn;
    hide Value;
    hide Print;
    hide Parsed;
    hide JsonMachine.IterativeParse;
    var t := Print(v);
    FirstChar(v);
    Separators();
    assert t[0..|t|] == t;
    ReadValue(t, st, 0, [], v);
    JsonMachine.ParsersAgree(t, st);
    assert [] + Parsed(v) == Parsed(v);
  }

  /** DOM to text to DOM: the same tree, members in order, whichever parser reads the text. */
  lemma TreeRoundTrip(v: Json, st: Settings)
    requires Valid(v) && AlwaysGoesOn(st)
    ensures var written := WriteAll(EMPTY, Accepted(v));
      written.Some? && written.value.levels == [] &&
      var parsed := JsonMachine.IterativeParse(written.value.text, st);
      parsed == Parse(written.value.text, st) && parsed.Done? && parsed.pos == |written.value.text| &&
      JsonDocument.BuildAll([], parsed.events) == Some([v])
  {
    hide Print;
    hide Parse;
    hide JsonMachine.IterativeParse;
    hide WriteAll;
    WriterPrints(v);
    ParsePrinted(v, st);
    JsonDocument.BothAreFaithful();
    JsonDocument.Rebuild([], v, ParsedNumberEvent);
    assert [] + [v] == [v];
  }

  /** The text determines the tree. */
  lemma TextIsFaithful(v: Json, w: Json)
    requires Valid(v) && Valid(w) && Print(v) == Print(w)
    ensures v == w
  {
    hide Print;
    hide Valid;
    var st := Settings(false, false, s => true, e => true);
    TreeRoundTrip(v, st);
    TreeRoundTrip(w, st);
    WriterPrints(v);
    WriterPrints(w);
  }

  /** The objects at work: writer, reader and document; which parser runs does not matter. */
  method CopyThroughText(v: Json, iterative: bool) returns (copy: Json)
    requires Valid(v)
    ensures copy == v
  {
    hide Print;
    hide Parse;
    hide JsonMachine.IterativeParse;
    hide JsonDocument.Build;
    hide Events;
    var w := new Writer();
    Accept(v, w);
    assert [] + Print(v) == Print(v);
    var st := Settings(false, false, lexeme => true, events => true);
    var r := new JsonReader.Reader(w.text, st);
    if iterative {
      r.ParseIteratively();
    } else {
      r.ParseText();
    }
    ParsePrinted(v, st);
    JsonDocument.BothAreFaithful();
    JsonDocument.Rebuild([], v, ParsedNumberEvent);
    var d := new JsonDocument.Document();
    d.HandleAll(r.events);
    assert d.stack == [] + [v];
    return d.stack[0];
  }
}
