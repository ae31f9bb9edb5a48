/**
 The handler of include/rapidjson/writer.h: it turns events into text, keeping for every open
 container the number of values written to it.
 */
module JsonWriter {
  import opened JsonGrammar
  import opened JsonDom
  import opened Wrappers

  datatype Level = Level(valueCount: nat, inArray: bool)

  /** The writer's state: the text so far, the open containers, and whether there has been a root. */
  datatype Writing = Writing(text: string, levels: seq<Level>, hasRoot: bool)

  const EMPTY := Writing([], [], false)

  /** What `Prefix` does before a value; None when one of its assertions fails. */
  function Prefixed(w: Writing, isString: bool): Option<Writing> {
    if w.levels == [] then
      if w.hasRoot then None else Some(w.(hasRoot := true))
    else
      var level := w.levels[|w.levels| - 1];
      if !level.inArray && level.valueCount % 2 == 0 && !isString then None
      else
        var separator :=
          if level.valueCount == 0 then ""
          else if level.inArray || level.valueCount % 2 == 0 then ","
          else ":";
        Some(w.(text := w.text + separator,
                levels := w.levels[..|w.levels| - 1] + [level.(valueCount := level.valueCount + 1)]))
  }

  function Put(w: Option<Writing>, s: string): Option<Writing> {
    if w.None? then None else Some(w.value.(text := w.value.text + s))
  }

  function Opened(w: Option<Writing>, inArray: bool): Option<Writing> {
    if w.None? then None else Some(w.value.(levels := w.value.levels + [Level(0, inArray)]))
  }

  function Closed(w: Writing, inArray: bool): Option<Writing> {
    if w.levels == [] then None
    else
      var level := w.levels[|w.levels| - 1];
      if level.inArray != inArray || (!inArray && level.valueCount % 2 != 0) then None
      else Some(w.(levels := w.levels[..|w.levels| - 1]))
  }

  /** One handler call; None where an assertion of the source fails, or for a double. */
  function Write(w: Writing, e: Event): Option<Writing> {
    match e
    case Null => Put(Prefixed(w, false), "null")
    case Bool(b) => Put(Prefixed(w, false), if b then "true" else "false")
    case Int(n) => Put(Prefixed(w, false), IntegerText(n))
    case Uint(n) => Put(Prefixed(w, false), IntegerText(n))
    case Int64(n) => Put(Prefixed(w, false), IntegerText(n))
    case Uint64(n) => Put(Prefixed(w, false), IntegerText(n))
    case Double(_) => None
    case String(s) => Put(Prefixed(w, true), Quoted(s))
    case Key(s) => Put(Prefixed(w, true), Quoted(s))
    case StartObject => Put(Opened(Prefixed(w, false), false), "{")
    case EndObject(_) => Put(Closed(w, false), "}")
    case StartArray => Put(Opened(Prefixed(w, false), true), "[")
    case EndArray(_) => Put(Closed(w, true), "]")
  }

  function WriteAll(w: Writing, events: seq<Event>): Option<Writing>
    decreases |events|
  {
    if events == [] then Some(w)
    else
      var next := Write(w, events[0]);
      if next.None? then None else WriteAll(next.value, events[1..])
  }

  lemma {:induction false} WriteAllSplit(w: Writing, a: seq<Event>, b: seq<Event>)
    ensures WriteAll(w, a + b) == (var m := WriteAll(w, a); if m.None? then None else WriteAll(m.value, b))
    decreases |a|
  {
    if a == [] {
      assert a + b == b;
    } else {
      assert (a + b)[1..] == a[1..] + b;
      var next := Write(w, a[0]);
      if next.Some? {
        WriteAllSplit(next.value, a[1..], b);
      }
    }
  }

  lemma WriteOne(w: Writing, e: Event)
    ensures WriteAll(w, [e]) == Write(w, e)
  {
    assert [e][1..] == [];
  }

  /** The writer stands where a value (and not a name) may come. */
  predicate TakesValue(w: Writing) {
    if w.levels == [] then !w.hasRoot
    else
      var level := w.levels[|w.levels| - 1];
      level.inArray || level.valueCount % 2 == 1
  }

  /** The innermost container. */
  function Inside(w: Writing): Level
    requires w.levels != []
  {
    w.levels[|w.levels| - 1]
  }

  /** n more values and some more text in the innermost container. */
  function With(w: Writing, s: string, n: nat): Writing
    requires w.levels != []
  {
    w.(text := w.text + s,
       levels := w.levels[..|w.levels| - 1] + [Inside(w).(valueCount := Inside(w).valueCount + n)])
  }

  lemma WithTwice(w: Writing, s: string, m: nat, t: string, n: nat)
    requires w.levels != []
    ensures With(With(w, s, m), t, n) == With(w, s + t, m + n)
  {
    assert w.text + s + t == w.text + (s + t);
    assert With(w, s, m).levels[..|w.levels| - 1] == w.levels[..|w.levels| - 1];
  }

  lemma WithNothing(w: Writing)
    requires w.levels != []
    ensures With(w, [], 0) == w
  {
  }

  /** The separator the next value gets inside a container. */
  function Separator(w: Writing): string
    requires w.levels != []
  {
    if Inside(w).valueCount == 0 then ""
    else if Inside(w).inArray || Inside(w).valueCount % 2 == 0 then ","
    else ":"
  }

  lemma PutInside(w: Writing, isString: bool, s: string)
    requires w.levels != []
    requires Inside(w).inArray || Inside(w).valueCount % 2 == 1 || isString
    ensures Put(Prefixed(w, isString), s) == Some(With(w, Separator(w) + s, 1))
  {
    assert w.text + Separator(w) + s == w.text + (Separator(w) + s);
  }

  lemma WriteBracketed(w: Writing, open: Event, events: seq<Event>, close: Event, w1: Writing, w2: Writing)
    requires Write(w, open) == Some(w1) && WriteAll(w1, events) == Some(w2)
    ensures WriteAll(w, [open] + events + [close]) == Write(w2, close)
  {
    hide Write;
    WriteOne(w, open);
    WriteOne(w2, close);
    WriteAllSplit(w, [open], events);
    WriteAllSplit(w, [open] + events, [close]);
  }

  function OpenEvent(inArray: bool): Event {
    if inArray then StartArray else StartObject
  }

  function CloseEvent(inArray: bool, size: nat): Event {
    if inArray then EndArray(size) else EndObject(size)
  }

  function Bracketed(inArray: bool, body: string): string {
    if inArray then "[" + body + "]" else "{" + body + "}"
  }

  /** The state right after an opening bracket. */
  lemma OpenContainer(w: Writing, inArray: bool)
    requires TakesValue(w)
    ensures var w1 := Write(w, OpenEvent(inArray));
      && w1.Some? && w1.value.levels != [] && Inside(w1.value) == Level(0, inArray)
  {
  }

  /** A writer in which a container has just been opened. */
  function Opening(w: Writing, inArray: bool): Writing {
    w.(text := w.text + (if inArray then "[" else "{"), levels := w.levels + [Level(0, inArray)])
  }

  lemma CloseOpened(w: Writing, inArray: bool, body: string, n: nat, size: nat)
    requires inArray || n % 2 == 0
    ensures Write(With(Opening(w, inArray), body, n), CloseEvent(inArray, size))
      == Put(Some(w), Bracketed(inArray, body))
  {
    hide Quoted;
    hide IntegerText;
    hide Prefixed;
    var left, right := if inArray then "[" else "{", if inArray then "]" else "}";
    var w2 := With(Opening(w, inArray), body, n);
    assert w2.levels[..|w2.levels| - 1] == w.levels;
    assert Write(w2, CloseEvent(inArray, size)) == Put(Closed(w2, inArray), right);
    Join(w.text, left, body);
    Join(w.text, left + body, right);
  }

  /** The closing bracket completes the text of the container. */
  lemma CloseContainer(w: Writing, inArray: bool, body: string, n: nat, size: nat)
    requires TakesValue(w) && (inArray || n % 2 == 0)
    requires var w1 := Write(w, OpenEvent(inArray)); w1.Some? && w1.value.levels != []
    ensures Write(With(Write(w, OpenEvent(inArray)).value, body, n), CloseEvent(inArray, size)) ==
      Put(Prefixed(w, false), Bracketed(inArray, body))
    ensures Put(Prefixed(w, false), Bracketed(inArray, body)).Some?
  {
    hide Quoted;
    hide IntegerText;
    hide Prefixed;
    hide With;
    hide Bracketed;
    assert Write(w, OpenEvent(inArray)) == Some(Opening(Prefixed(w, false).value, inArray));
    CloseOpened(Prefixed(w, false).value, inArray, body, n, size);
  }

  /** A container whose entries have been written, between its brackets. */
  lemma WriteContainer(w: Writing, inArray: bool, events: seq<Event>, body: string, n: nat, size: nat)
    requires TakesValue(w) && (inArray || n % 2 == 0)
    requires var w1 := Write(w, OpenEvent(inArray));
      && w1.Some? && w1.value.levels != []
      && WriteAll(w1.value, events) == Some(With(w1.value, body, n))
    ensures WriteAll(w, [OpenEvent(inArray)] + events + [CloseEvent(inArray, size)]) ==
      Put(Prefixed(w, false), Bracketed(inArray, body))
  {
    hide WriteAll;
    hide Write;
    var w1 := Write(w, OpenEvent(inArray)).value;
    WriteBracketed(w, OpenEvent(inArray), events, CloseEvent(inArray, size), w1, With(w1, body, n));
    CloseContainer(w, inArray, body, n, size);
  }

  lemma WriteScalar(w: Writing, v: Json)
    requires TakesValue(w) && !v.JArray? && !v.JObject?
    ensures WriteAll(w, Accepted(v)) == Put(Prefixed(w, false), Print(v))
  {
    hide WriteAll;
    WriteOne(w, Accepted(v)[0]);
  }

  /** The writer stands where a member's name has to come. */
  predicate AtName(w: Writing) {
    w.levels != [] && !Inside(w).inArray && Inside(w).valueCount % 2 == 0
  }

  /** Writing a value's events appends the value's text after the separator, and changes nothing else. */
  lemma {:induction false} WriteValue(w: Writing, v: Json)
    requires TakesValue(w)
    ensures WriteAll(w, Accepted(v)) == Put(Prefixed(w, false), Print(v))
    decreases v, 0
  {
    hide WriteAll;
    match v
    case JArray(items) =>
      var w1 := Write(w, StartArray).value;
      WriteItems(w1, items);
      assert ItemsText(w1, items) == PrintItems(items);
      WriteContainer(w, true, ItemEvents(items, NumberEvent), PrintItems(items), |items|, |items|);
    case JObject(members) =>
      var w1 := Write(w, StartObject).value;
      WriteMembers(w1, members);
      assert MembersText(w1, members) == PrintMembers(members);
      WriteContainer(w, false, MemberEvents(members, NumberEvent), PrintMembers(members), 2 * |members|, |members|);
    case _ => WriteScalar(w, v);
  }

  /** What a run of items adds to an array that already holds some values or none. */
  function ItemsText(w: Writing, items: seq<Json>): string
    requires w.levels != []
  {
    if items == [] then [] else Separator(w) + PrintItems(items)
  }

  lemma {:induction false} WriteItems(w: Writing, items: seq<Json>)
    requires w.levels != [] && Inside(w).inArray
    ensures WriteAll(w, ItemEvents(items, NumberEvent)) == Some(With(w, ItemsText(w, items), |items|))
    decreases items, 1
  {
    hide Prefixed;
    hide Put;
    hide Print;
    WithNothing(w);
    if items != [] {
      var text := Separator(w) + Print(items[0]);
      WriteValue(w, items[0]);
      PutInside(w, false, Print(items[0]));
      var w1 := With(w, text, 1);
      WriteItems(w1, items[1..]);
      WriteAllSplit(w, Accepted(items[0]), ItemEvents(items[1..], NumberEvent));
      WithTwice(w, text, 1, ItemsText(w1, items[1..]), |items| - 1);
      JoinItems(w, items);
    }
  }

  lemma JoinItems(w: Writing, items: seq<Json>)
    requires w.levels != [] && Inside(w).inArray && items != []
    ensures var first := Separator(w) + Print(items[0]);
      first + ItemsText(With(w, first, 1), items[1..]) == ItemsText(w, items)
  {
    hide Print;
    hide PrintItems;
    PrintItemsStep(items);
    Join(Separator(w), Print(items[0]), if |items| == 1 then [] else "," + PrintItems(items[1..]));
  }

  lemma PrintItemsStep(items: seq<Json>)
    requires items != []
    ensures PrintItems(items) == Print(items[0]) + (if |items| == 1 then [] else "," + PrintItems(items[1..]))
  {
    hide Print;
    if |items| > 1 {
      Join(Print(items[0]), ",", PrintItems(items[1..]));
    }
  }

  lemma PrintMembersStep(members: seq<Member>)
    requires members != []
    ensures PrintMembers(members)
      == MemberText(members[0]) + (if |members| == 1 then [] else "," + PrintMembers(members[1..]))
  {
    hide Print;
    hide Quoted;
    if |members| > 1 {
      Join(MemberText(members[0]), ",", PrintMembers(members[1..]));
    }
  }

  lemma Join(a: string, b: string, c: string)
    ensures (a + b) + c == a + (b + c)
  {
  }

  function MembersText(w: Writing, members: seq<Member>): string
    requires w.levels != []
  {
    if members == [] then [] else Separator(w) + PrintMembers(members)
  }

  /** A name, the colon and a value. */
  function MemberText(m: Member): string {
    Quoted(m.name) + ":" + Print(m.value)
  }

  lemma {:induction false} WriteMember(w: Writing, m: Member)
    requires AtName(w)
    ensures WriteAll(w, [Key(m.name)] + Accepted(m.value)) == Some(With(w, Separator(w) + MemberText(m), 2))
    decreases m, 1
  {
    hide Prefixed;
    hide Put;
    hide Print;
    hide Quoted;
    var name, value := Quoted(m.name), Print(m.value);
    PutInside(w, true, name);
    WriteOne(w, Key(m.name));
    var w1 := With(w, Separator(w) + name, 1);
    WriteValue(w1, m.value);
    PutInside(w1, false, value);
    WriteAllSplit(w, [Key(m.name)], Accepted(m.value));
    assert Separator(w1) == ":";
    WithTwice(w, Separator(w) + name, 1, ":" + value, 1);
    assert (Separator(w) + name) + (":" + value) == Separator(w) + (name + ":" + value);
  }

  lemma {:induction false} WriteMembers(w: Writing, members: seq<Member>)
    requires AtName(w)
    ensures WriteAll(w, MemberEvents(members, NumberEvent)) == Some(With(w, MembersText(w, members), 2 * |members|))
    decreases members, 1
  {
    hide Prefixed;
    hide Put;
    hide Print;
    hide Write;
    WithNothing(w);
    if members != [] {
      var m := members[0];
      var text := Separator(w) + MemberText(m);
      WriteMember(w, m);
      var w1 := With(w, text, 2);
      WriteMembers(w1, members[1..]);
      WriteAllSplit(w, [Key(m.name)] + Accepted(m.value), MemberEvents(members[1..], NumberEvent));
      WithTwice(w, text, 2, MembersText(w1, members[1..]), 2 * (|members| - 1));
      JoinMembers(w, members);
    }
  }

  lemma JoinMembers(w: Writing, members: seq<Member>)
    requires AtName(w) && members != []
    ensures var first := Separator(w) + MemberText(members[0]);
      first + MembersText(With(w, first, 2), members[1..]) == MembersText(w, members)
  {
    hide Print;
    hide PrintMembers;
    hide MemberText;
    PrintMembersStep(members);
    Join(Separator(w), MemberText(members[0]), if |members| == 1 then [] else "," + PrintMembers(members[1..]));
  }

  /** The text the writer has produced after a whole value. */
  lemma WriterPrints(v: Json)
    ensures WriteAll(EMPTY, Accepted(v)) == Some(Writing(Print(v), [], true))
  {
    hide WriteAll;
    hide Print;
    WriteValue(EMPTY, v);
    assert [] + Print(v) == Print(v);
  }

  // ---------------------------------------------------------------------------------------------
  // The writer as it runs

  class Writer {
    var text: string
    var levels: seq<Level>
    var hasRoot: bool

    constructor ()
      ensures Contents() == EMPTY
    {
      text := [];
      levels := [];
      hasRoot := false;
    }

    function Contents(): Writing
      reads this
    {
      Writing(text, levels, hasRoot)
    }

    /** A separator if one is due, and one more value in the innermost container. */
    method Prefix(isString: bool)
      requires Prefixed(Contents(), isString).Some?
      modifies this
      ensures Some(Contents()) == Prefixed(old(Contents()), isString)
    {
      if levels != [] {
        var level := levels[|levels| - 1];
        if level.valueCount > 0 {
          if level.inArray {
            text := text + ",";
          } else {
            text := text + (if level.valueCount % 2 == 0 then "," else ":");
          }
        }
        levels := levels[..|levels| - 1] + [level.(valueCount := level.valueCount + 1)];
        assert old(text) + "" == old(text);
      } else {
        hasRoot := true;
      }
    }

    method WriteString(str: string)
      modifies this`text
      ensures text == old(text) + Quoted(str)
    {
      hide Escape;
      text := text + "\"";
      var i := 0;
      assert str[0..] == str;
      while i < |str|
        invariant 0 <= i <= |str|
        invariant text + EscapeAll(str[i..]) == old(text) + "\"" + EscapeAll(str)
      {
        assert str[i..][1..] == str[i + 1..];
        assert text + EscapeAll(str[i..]) == (text + Escape(str[i])) + EscapeAll(str[i + 1..]);
        text := text + Escape(str[i]);
        i := i + 1;
      }
      assert text == old(text) + "\"" + EscapeAll(str);
      text := text + "\"";
    }

    method Push(inArray: bool)
      modifies this`levels
      ensures levels == old(levels) + [Level(0, inArray)]
    {
      levels := levels + [Level(0, inArray)];
    }

    method Pop()
      requires levels != []
      modifies this`levels
      ensures levels == old(levels)[..|old(levels)| - 1]
    {
      levels := levels[..|levels| - 1];
    }

    /** One handler call, under the source's assertions. */
    method Handle(e: Event)
      requires Write(Contents(), e).Some?
      modifies this
      ensures Some(Contents()) == Write(old(Contents()), e)
    {
      match e
      case Null =>
        Prefix(false);
        text := text + "null";
      case Bool(b) =>
        Prefix(false);
        text := text + (if b then "true" else "false");
      case Int(n) =>
        Prefix(false);
        text := text + IntegerText(n);
      case Uint(n) =>
        Prefix(false);
        text := text + IntegerText(n);
      case Int64(n) =>
        Prefix(false);
        text := text + IntegerText(n);
      case Uint64(n) =>
        Prefix(false);
        text := text + IntegerText(n);
      case String(s) =>
        Prefix(true);
        WriteString(s);
      case Key(s) =>
        Prefix(true);
        WriteString(s);
      case StartObject =>
        Prefix(false);
        Push(false);
        text := text + "{";
      case EndObject(_) =>
        Pop();
        text := text + "}";
      case StartArray =>
        Prefix(false);
        Push(true);
        text := text + "[";
      case EndArray(_) =>
        Pop();
        text := text + "]";
    }
  }

  /** `GenericValue::Accept` with a writer as the handler. */
  method Accept(v: Json, w: Writer)
    requires TakesValue(w.Contents())
    modifies w
    ensures Some(w.Contents()) == Put(Prefixed(old(w.Contents()), false), Print(v))
    decreases v, 0
  {
    hide WriteAll;
    WriteValue(w.Contents(), v);
    match v
    case JNull =>
      w.Handle(Null);
    case JBool(b) =>
      w.Handle(Bool(b));
    case JNumber(x) =>
      w.Handle(NumberEvent(x));
    case JString(s) =>
      w.Handle(String(s));
    case JArray(items) =>
      AcceptArray(v, w);
    case JObject(members) =>
      AcceptObject(v, w);
  }

  /** What the writer will hold once the remaining items have been written. */
  ghost function AfterItems(w: Writing, items: seq<Json>): Writing
    requires w.levels != []
  {
    With(w, ItemsText(w, items), |items|)
  }

  lemma ItemWritten(w: Writing, items: seq<Json>)
    requires w.levels != [] && Inside(w).inArray && items != []
    ensures TakesValue(w)
    ensures forall w1 :: Some(w1) == Put(Prefixed(w, false), Print(items[0])) ==>
      && w1.levels != [] && Inside(w1).inArray
      && AfterItems(w1, items[1..]) == AfterItems(w, items)
  {
    hide Print;
    hide PrintItems;
    var text := Separator(w) + Print(items[0]);
    var w1 := With(w, text, 1);
    PutInside(w, false, Print(items[0]));
    JoinItems(w, items);
    WithTwice(w, text, 1, ItemsText(w1, items[1..]), |items| - 1);
  }

  method AcceptArray(v: Json, w: Writer)
    requires v.JArray? && TakesValue(w.Contents())
    modifies w
    ensures Some(w.Contents()) == Put(Prefixed(old(w.Contents()), false), Print(v))
    decreases v.items, 2
  {
    hide Prefixed;
    hide Put;
    hide PrintItems;
    hide Write;
    hide AfterItems;
    hide TakesValue;
    var items := v.items;
    ghost var start := w.Contents();
    OpenContainer(start, true);
    w.Handle(StartArray);
    ghost var goal := AfterItems(w.Contents(), items);
    var i := 0;
    assert items[0..] == items;
    AllItems(w.Contents(), items);
    CloseContainer(start, true, PrintItems(items), |items|, |items|);
    while i < |items|
      invariant 0 <= i <= |items|
      invariant w.levels != [] && Inside(w.Contents()).inArray
      invariant AfterItems(w.Contents(), items[i..]) == goal
    {
      assert items[i..][1..] == items[i + 1..] && items[i..][0] == items[i];
      ItemWritten(w.Contents(), items[i..]);
      Accept(items[i], w);
      i := i + 1;
    }
    assert items[i..] == [];
    NoItems(w.Contents());
    w.Handle(EndArray(|items|));
  }

  lemma AllItems(w: Writing, items: seq<Json>)
    requires w.levels != [] && Inside(w).valueCount == 0
    ensures AfterItems(w, items) == With(w, PrintItems(items), |items|)
  {
    assert ItemsText(w, items) == PrintItems(items);
  }

  lemma NoItems(w: Writing)
    requires w.levels != []
    ensures AfterItems(w, []) == w
  {
    WithNothing(w);
  }

  ghost function AfterMembers(w: Writing, members: seq<Member>): Writing
    requires w.levels != []
  {
    With(w, MembersText(w, members), 2 * |members|)
  }

  lemma MemberWritten(w: Writing, members: seq<Member>)
    requires AtName(w) && members != []
    ensures var w1 := With(w, Separator(w) + MemberText(members[0]), 2);
      AtName(w1) && AfterMembers(w1, members[1..]) == AfterMembers(w, members)
  {
    hide MemberText;
    hide PrintMembers;
    var text := Separator(w) + MemberText(members[0]);
    var w1 := With(w, text, 2);
    JoinMembers(w, members);
    WithTwice(w, text, 2, MembersText(w1, members[1..]), 2 * (|members| - 1));
  }

  lemma AllMembers(w: Writing, members: seq<Member>)
    requires w.levels != [] && Inside(w).valueCount == 0
    ensures AfterMembers(w, members) == With(w, PrintMembers(members), 2 * |members|)
  {
    assert MembersText(w, members) == PrintMembers(members);
  }

  lemma NoMembers(w: Writing)
    requires w.levels != []
    ensures AfterMembers(w, []) == w
  {
    WithNothing(w);
  }

  method AcceptObject(v: Json, w: Writer)
    requires v.JObject? && TakesValue(w.Contents())
    modifies w
    ensures Some(w.Contents()) == Put(Prefixed(old(w.Contents()), false), Print(v))
    decreases v.members, 2
  {
    hide Prefixed;
    hide Put;
    hide PrintMembers;
    hide Write;
    hide AfterMembers;
    hide TakesValue;
    hide MemberText;
    var members := v.members;
    ghost var start := w.Contents();
    OpenContainer(start, false);
    w.Handle(StartObject);
    ghost var goal := AfterMembers(w.Contents(), members);
    var i := 0;
    assert members[0..] == members;
    AllMembers(w.Contents(), members);
    CloseContainer(start, false, PrintMembers(members), 2 * |members|, |members|);
    while i < |members|
      invariant 0 <= i <= |members|
      invariant AtName(w.Contents())
      invariant AfterMembers(w.Contents(), members[i..]) == goal
    {
      assert members[i..][1..] == members[i + 1..] && members[i..][0] == members[i];
      MemberWritten(w.Contents(), members[i..]);
      AcceptMember(members[i], w);
      i := i + 1;
    }
    assert members[i..] == [];
    NoMembers(w.Contents());
    w.Handle(EndObject(|members|));
  }

  method AcceptMember(m: Member, w: Writer)
    requires AtName(w.Contents())
    modifies w
    ensures w.Contents() == With(old(w.Contents()), Separator(old(w.Contents())) + MemberText(m), 2)
    decreases m, 1
  {
    hide Prefixed;
    hide Put;
    hide Print;
    hide Quoted;
    ghost var before := w.Contents();
    var name, value := Quoted(m.name), Print(m.value);
    PutInside(before, true, name);
    w.Handle(Key(m.name));
    ghost var named := w.Contents();
    PutInside(named, false, value);
    Accept(m.value, w);
    WithTwice(before, Separator(before) + name, 1, ":" + value, 1);
    assert (Separator(before) + name) + (":" + value) == Separator(before) + (name + ":" + value);
  }
}
