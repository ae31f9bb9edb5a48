/**
 The grammar the parsers of include/rapidjson/reader.h stand for, stated without a parser: a syntax tree
 says where everything is in the text, and what lies between has to be white space.
 */
module JsonLayout {
  import opened JsonGrammar
  import JsonMachine
  import opened JsonRoundTrip

  /** A value from `begin` to just before `end`; `trailing` tells whether a comma precedes the closing bracket. */
  datatype Node =
    | Leaf(begin: nat, end: nat, event: Event)
    | ObjectNode(begin: nat, end: nat, entries: seq<Entry>, trailing: bool)
    | ArrayNode(begin: nat, end: nat, items: seq<Node>, trailing: bool)

  datatype Entry = Entry(begin: nat, nameEnd: nat, name: string, value: Node)

  predicate Blank(t: string, a: nat, b: nat) {
    a <= b <= |t| && forall k :: a <= k < b ==> IsSpace(t[k])
  }

  predicate MarkAt(t: string, a: nat, m: nat, b: nat, c: char) {
    Blank(t, a, m) && m < |t| && t[m] == c && Blank(t, m + 1, b)
  }

  /** Nothing but white space and one mark. */
  ghost predicate Around(t: string, a: nat, b: nat, c: char) {
    exists m: nat :: MarkAt(t, a, m, b, c)
  }

  /** From the last entry to the end of the container. */
  ghost predicate Closes(t: string, st: Settings, a: nat, end: nat, trailing: bool, bracket: char) {
    && 0 < end <= |t| && t[end - 1] == bracket
    && if trailing then st.trailingCommas && Around(t, a, end - 1, ',') else Blank(t, a, end - 1)
  }

  ghost predicate Derives(t: string, st: Settings, n: Node)
    decreases n, 0
  {
    match n
    case Leaf(begin, end, event) => Scalar(t, st, begin) == Token(end, event)
    case ArrayNode(begin, end, items, trailing) =>
      && Peek(t, begin) == '['
      && if items == [] then !trailing && Closes(t, st, begin + 1, end, false, ']')
         else Blank(t, begin + 1, items[0].begin) && DerivesItems(t, st, items, end, trailing)
    case ObjectNode(begin, end, entries, trailing) =>
      && Peek(t, begin) == '{'
      && if entries == [] then !trailing && Closes(t, st, begin + 1, end, false, '}')
         else Blank(t, begin + 1, entries[0].begin) && DerivesEntries(t, st, entries, end, trailing)
  }

  ghost predicate DerivesItems(t: string, st: Settings, items: seq<Node>, end: nat, trailing: bool)
    requires items != []
    decreases items, 1
  {
    && Derives(t, st, items[0])
    && if |items| == 1 then Closes(t, st, items[0].end, end, trailing, ']')
       else Around(t, items[0].end, items[1].begin, ',') && DerivesItems(t, st, items[1..], end, trailing)
  }

  /** A name, a colon and a value. */
  ghost predicate DerivesEntry(t: string, st: Settings, m: Entry)
    decreases m, 0
  {
    && Peek(t, m.begin) == '"' && StringBody(t, m.begin + 1) == Token(m.nameEnd, m.name)
    && Around(t, m.nameEnd, m.value.begin, ':') && Derives(t, st, m.value)
  }

  ghost predicate DerivesEntries(t: string, st: Settings, entries: seq<Entry>, end: nat, trailing: bool)
    requires entries != []
    decreases entries, 1
  {
    var m := entries[0];
    && DerivesEntry(t, st, m)
    && if |entries| == 1 then Closes(t, st, m.value.end, end, trailing, '}')
       else Around(t, m.value.end, entries[1].begin, ',') && DerivesEntries(t, st, entries[1..], end, trailing)
  }

  // ---------------------------------------------------------------------------------------------
  // What a tree says

  function EventsOf(n: Node): seq<Event>
    decreases n, 0
  {
    match n
    case Leaf(_, _, event) => [event]
    case ArrayNode(_, _, items, _) => [StartArray] + ItemEvents(items) + [EndArray(|items| % SIZE_TYPE)]
    case ObjectNode(_, _, entries, _) => [StartObject] + EntryEvents(entries) + [EndObject(|entries| % SIZE_TYPE)]
  }

  function ItemEvents(items: seq<Node>): seq<Event>
    decreases items, 1
  {
    if items == [] then [] else EventsOf(items[0]) + ItemEvents(items[1..])
  }

  function EntryEvents(entries: seq<Entry>): seq<Event>
    decreases entries, 1
  {
    if entries == [] then [] else [Key(entries[0].name)] + EventsOf(entries[0].value) + EntryEvents(entries[1..])
  }

  // ---------------------------------------------------------------------------------------------
  // White space

  lemma {:induction false} SkipBlank(t: string, a: nat, b: nat)
    requires Blank(t, a, b) && !IsSpace(Peek(t, b))
    ensures Skip(t, a) == b
    decreases b - a
  {
    if a < b {
      assert IsSpace(t[a]);
      SkipBlank(t, a + 1, b);
    }
  }

  lemma {:induction false} SkippedIsBlank(t: string, a: nat)
    requires a <= |t|
    ensures Blank(t, a, Skip(t, a))
    decreases |t| - a
  {
    if IsSpace(Peek(t, a)) {
      SkippedIsBlank(t, a + 1);
    }
  }

  /** A mark is what comes after the white space. */
  lemma SkipToMark(t: string, a: nat, b: nat, c: char)
    requires Around(t, a, b, c) && !IsSpace(c) && !IsSpace(Peek(t, b))
    ensures Peek(t, Skip(t, a)) == c && Skip(t, Skip(t, a) + 1) == b
  {
    var m: nat :| MarkAt(t, a, m, b, c);
    SkipBlank(t, a, m);
    SkipBlank(t, m + 1, b);
  }

  lemma MarkIsAround(t: string, a: nat, c: char)
    requires a <= |t| && Peek(t, Skip(t, a)) == c && c != NUL
    ensures Around(t, a, Skip(t, Skip(t, a) + 1), c)
  {
    SkippedIsBlank(t, a);
    SkippedIsBlank(t, Skip(t, a) + 1);
    assert MarkAt(t, a, Skip(t, a), Skip(t, Skip(t, a) + 1), c);
  }

  // ---------------------------------------------------------------------------------------------
  // Every tree is parsed

  /** How a value begins. */
  predicate Begins(c: char) {
    !IsSpace(c) && c != ']' && c != '}' && c != ',' && c != ':' && c != NUL
  }

  lemma DerivedBegins(t: string, st: Settings, n: Node)
    requires Derives(t, st, n)
    ensures Begins(Peek(t, n.begin))
  {
  }

  /** The count, and one more, in 32 bits. */
  lemma CountMore(count: nat)
    ensures Increment(count % SIZE_TYPE) == (count + 1) % SIZE_TYPE
  {
  }

  /** After the last item. */
  lemma ArrayCloses(t: string, st: Settings, a: nat, end: nat, trailing: bool, events: seq<Event>, count: nat)
    requires AlwaysGoesOn(st) && Closes(t, st, a, end, trailing, ']')
    ensures ElementEnd(t, st, Skip(t, a), events, count % SIZE_TYPE)
      == Done(end, events + [EndArray((count + 1) % SIZE_TYPE)])
  {
    CountMore(count);
    if trailing {
      SkipToMark(t, a, end - 1, ',');
    } else {
      SkipBlank(t, a, end - 1);
    }
  }

  lemma ObjectCloses(t: string, st: Settings, a: nat, end: nat, trailing: bool, events: seq<Event>, count: nat)
    requires AlwaysGoesOn(st) && Closes(t, st, a, end, trailing, '}')
    ensures MemberEnd(t, st, Skip(t, a), events, count % SIZE_TYPE)
      == Done(end, events + [EndObject((count + 1) % SIZE_TYPE)])
  {
    CountMore(count);
    if trailing {
      SkipToMark(t, a, end - 1, ',');
    } else {
      SkipBlank(t, a, end - 1);
    }
  }

  lemma ArrayStarts(t: string, st: Settings, begin: nat, next: nat, events: seq<Event>)
    requires AlwaysGoesOn(st) && Peek(t, begin) == '[' && Blank(t, begin + 1, next) && !IsSpace(Peek(t, next))
    ensures Value(t, st, begin, events) ==
      if Peek(t, next) == ']' then Done(next + 1, events + [StartArray] + [EndArray(0)])
      else Elements(t, st, next, events + [StartArray], 0)
  {
    SkipBlank(t, begin + 1, next);
    hide Elements;
  }

  lemma ObjectStarts(t: string, st: Settings, begin: nat, next: nat, events: seq<Event>)
    requires AlwaysGoesOn(st) && Peek(t, begin) == '{' && Blank(t, begin + 1, next) && !IsSpace(Peek(t, next))
    ensures Value(t, st, begin, events) ==
      if Peek(t, next) == '}' then Done(next + 1, events + [StartObject] + [EndObject(0)])
      else Members(t, st, next, events + [StartObject], 0)
  {
    SkipBlank(t, begin + 1, next);
    hide Members;
  }

  lemma AfterItem(t: string, st: Settings, pos: nat, events: seq<Event>, count: nat)
    requires Value(t, st, pos, events).Done?
    ensures var v := Value(t, st, pos, events);
      Elements(t, st, pos, events, count) == ElementEnd(t, st, Skip(t, v.pos), v.events, count)
  {
    hide Value;
    hide ElementEnd;
  }

  lemma NextItem(t: string, st: Settings, a: nat, next: nat, events: seq<Event>, count: nat)
    requires Around(t, a, next, ',') && Begins(Peek(t, next))
    ensures ElementEnd(t, st, Skip(t, a), events, count) == Elements(t, st, next, events, Increment(count))
  {
    SkipToMark(t, a, next, ',');
    hide Elements;
  }

  lemma AfterName(t: string, st: Settings, m: Entry, events: seq<Event>, count: nat)
    requires AlwaysGoesOn(st) && Peek(t, m.begin) == '"' && StringBody(t, m.begin + 1) == Token(m.nameEnd, m.name)
    requires Around(t, m.nameEnd, m.value.begin, ':') && !IsSpace(Peek(t, m.value.begin))
    ensures Members(t, st, m.begin, events, count) == MemberValue(t, st, m.value.begin, events + [Key(m.name)], count)
  {
    hide MemberValue;
    hide StringBody;
    hide Around;
    hide Skip;
    SkipToMark(t, m.nameEnd, m.value.begin, ':');
  }

  lemma AfterMember(t: string, st: Settings, pos: nat, events: seq<Event>, count: nat)
    requires Value(t, st, pos, events).Done?
    ensures var v := Value(t, st, pos, events);
      MemberValue(t, st, pos, events, count) == MemberEnd(t, st, Skip(t, v.pos), v.events, count)
  {
    hide Value;
    hide MemberEnd;
  }

  lemma NextEntry(t: string, st: Settings, a: nat, next: nat, events: seq<Event>, count: nat)
    requires Around(t, a, next, ',') && Peek(t, next) == '"'
    ensures MemberEnd(t, st, Skip(t, a), events, count) == Members(t, st, next, events, Increment(count))
  {
    SkipToMark(t, a, next, ',');
    hide Members;
  }

  lemma NoEvents()
    ensures ItemEvents([]) == [] && EntryEvents([]) == []
  {
  }

  /** The parser reads a value as its tree says. */
  lemma {:induction false} TreeIsParsed(t: string, st: Settings, n: Node, events: seq<Event>)
    requires AlwaysGoesOn(st) && Derives(t, st, n)
    ensures Value(t, st, n.begin, events) == Done(n.end, events + EventsOf(n))
    decreases n, 0
  {
    hide Scalar;
    hide Value;
    hide Elements;
    hide Members;
    hide DerivesItems;
    hide DerivesEntries;
    hide ItemEvents;
    hide EntryEvents;
    NoEvents();
    match n
    case Leaf(begin, end, event) =>
      LeafIsParsed(t, st, begin, events);
    case ArrayNode(begin, end, items, trailing) =>
      var started := events + [StartArray];
      if items == [] {
        ArrayStarts(t, st, begin, end - 1, events);
      } else {
        FirstBegins(t, st, items, end, trailing);
        ArrayStarts(t, st, begin, items[0].begin, events);
        ItemsAreParsed(t, st, items, end, trailing, started, 0);
      }
      assert started + ItemEvents(items) + [EndArray(|items| % SIZE_TYPE)] == events + EventsOf(n);
    case ObjectNode(begin, end, entries, trailing) =>
      var started := events + [StartObject];
      if entries == [] {
        ObjectStarts(t, st, begin, end - 1, events);
      } else {
        FirstIsQuote(t, st, entries, end, trailing);
        ObjectStarts(t, st, begin, entries[0].begin, events);
        EntriesAreParsed(t, st, entries, end, trailing, started, 0);
      }
      assert started + EntryEvents(entries) + [EndObject(|entries| % SIZE_TYPE)] == events + EventsOf(n);
  }

  lemma LeafIsParsed(t: string, st: Settings, begin: nat, events: seq<Event>)
    requires AlwaysGoesOn(st) && Scalar(t, st, begin).Token?
    ensures Value(t, st, begin, events) == Done(Scalar(t, st, begin).pos, events + [Scalar(t, st, begin).value])
  {
  }

  lemma FirstBegins(t: string, st: Settings, items: seq<Node>, end: nat, trailing: bool)
    requires items != [] && DerivesItems(t, st, items, end, trailing)
    ensures Begins(Peek(t, items[0].begin))
  {
    hide Derives;
    DerivedBegins(t, st, items[0]);
  }

  lemma FirstIsQuote(t: string, st: Settings, entries: seq<Entry>, end: nat, trailing: bool)
    requires entries != [] && DerivesEntries(t, st, entries, end, trailing)
    ensures Peek(t, entries[0].begin) == '"'
  {
    hide Derives;
    assert DerivesEntry(t, st, entries[0]);
  }

  lemma {:induction false} ItemsAreParsed(t: string, st: Settings, items: seq<Node>, end: nat, trailing: bool,
                                          events: seq<Event>, count: nat)
    requires AlwaysGoesOn(st) && items != [] && DerivesItems(t, st, items, end, trailing)
    ensures Elements(t, st, items[0].begin, events, count % SIZE_TYPE)
      == Done(end, events + ItemEvents(items) + [EndArray((count + |items|) % SIZE_TYPE)])
    decreases items, 1
  {
    hide Value;
    hide Elements;
    hide ElementEnd;
    hide Derives;
    hide EventsOf;
    hide Closes;
    hide Around;
    hide Increment;
    var first := items[0];
    var more := events + EventsOf(first);
    TreeIsParsed(t, st, first, events);
    AfterItem(t, st, first.begin, events, count % SIZE_TYPE);
    if |items| == 1 {
      ArrayCloses(t, st, first.end, end, trailing, more, count);
      NoEvents();
      assert items[1..] == [] && more == events + ItemEvents(items);
    } else {
      FirstBegins(t, st, items[1..], end, trailing);
      NextItem(t, st, first.end, items[1].begin, more, count % SIZE_TYPE);
      CountMore(count);
      ItemsAreParsed(t, st, items[1..], end, trailing, more, count + 1);
      assert more + ItemEvents(items[1..]) == events + ItemEvents(items);
    }
  }

  /** The first member is read up to its value's end. */
  lemma {:induction false} EntryIsParsed(t: string, st: Settings, m: Entry, events: seq<Event>, count: nat)
    requires AlwaysGoesOn(st) && DerivesEntry(t, st, m)
    ensures Members(t, st, m.begin, events, count)
      == MemberEnd(t, st, Skip(t, m.value.end), events + [Key(m.name)] + EventsOf(m.value), count)
    decreases m, 0
  {
    hide Value;
    hide Members;
    hide MemberValue;
    hide MemberEnd;
    hide Derives;
    hide EventsOf;
    hide Around;
    hide StringBody;
    var named := events + [Key(m.name)];
    DerivedBegins(t, st, m.value);
    AfterName(t, st, m, events, count);
    TreeIsParsed(t, st, m.value, named);
    AfterMember(t, st, m.value.begin, named, count);
  }

  lemma {:induction false} EntriesAreParsed(t: string, st: Settings, entries: seq<Entry>, end: nat, trailing: bool,
                                            events: seq<Event>, count: nat)
    requires AlwaysGoesOn(st) && entries != [] && DerivesEntries(t, st, entries, end, trailing)
    ensures Members(t, st, entries[0].begin, events, count % SIZE_TYPE)
      == Done(end, events + EntryEvents(entries) + [EndObject((count + |entries|) % SIZE_TYPE)])
    decreases entries, 1
  {
    hide Members;
    hide MemberEnd;
    hide DerivesEntry;
    hide EventsOf;
    hide Closes;
    hide Around;
    hide Increment;
    var m := entries[0];
    var more := events + [Key(m.name)] + EventsOf(m.value);
    EntryIsParsed(t, st, m, events, count % SIZE_TYPE);
    FirstEntryEvents(events, entries);
    hide EntryEvents;
    if |entries| == 1 {
      ObjectCloses(t, st, m.value.end, end, trailing, more, count);
      NoEvents();
      assert entries[1..] == [] && more + [] == more;
    } else {
      FirstIsQuote(t, st, entries[1..], end, trailing);
      NextEntry(t, st, m.value.end, entries[1].begin, more, count % SIZE_TYPE);
      CountMore(count);
      EntriesAreParsed(t, st, entries[1..], end, trailing, more, count + 1);
    }
  }

  lemma FirstEntryEvents(events: seq<Event>, entries: seq<Entry>)
    requires entries != []
    ensures events + EntryEvents(entries)
      == events + [Key(entries[0].name)] + EventsOf(entries[0].value) + EntryEvents(entries[1..])
  {
    hide EventsOf;
  }

  // ---------------------------------------------------------------------------------------------
  // Everything parsed has a tree

  lemma OneItem(t: string, st: Settings, first: Node, end: nat, trailing: bool)
    requires Derives(t, st, first) && Closes(t, st, first.end, end, trailing, ']')
    ensures DerivesItems(t, st, [first], end, trailing)
  {
  }

  lemma OneItemMore(t: string, st: Settings, first: Node, rest: seq<Node>, end: nat, trailing: bool)
    requires Derives(t, st, first) && rest != [] && DerivesItems(t, st, rest, end, trailing)
    requires Around(t, first.end, rest[0].begin, ',')
    ensures DerivesItems(t, st, [first] + rest, end, trailing)
  {
    assert ([first] + rest)[1..] == rest;
  }

  /** What may follow an item: the end, perhaps after a comma, or a comma and an item. */
  lemma ItemEnd(t: string, st: Settings, a: nat, events: seq<Event>, count: nat)
    requires AlwaysGoesOn(st) && a <= |t| && ElementEnd(t, st, Skip(t, a), events, count).Done?
    ensures var p := Skip(t, a);
      var next := Skip(t, p + 1);
      var r := ElementEnd(t, st, p, events, count);
      if Peek(t, p) == ']' then r.pos == p + 1 && Closes(t, st, a, p + 1, false, ']')
      else
        && Peek(t, p) == ',' && a < next <= |t| && Around(t, a, next, ',')
        && if st.trailingCommas && Peek(t, next) == ']' then r.pos == next + 1 && Closes(t, st, a, next + 1, true, ']')
           else r == Elements(t, st, next, events, Increment(count))
  {
    hide Elements;
    SkippedIsBlank(t, a);
    if Peek(t, Skip(t, a)) == ',' {
      MarkIsAround(t, a, ',');
    }
  }

  lemma EntryEnd(t: string, st: Settings, a: nat, events: seq<Event>, count: nat)
    requires AlwaysGoesOn(st) && a <= |t| && MemberEnd(t, st, Skip(t, a), events, count).Done?
    ensures var p := Skip(t, a);
      var next := Skip(t, p + 1);
      var r := MemberEnd(t, st, p, events, count);
      if Peek(t, p) == '}' then r.pos == p + 1 && Closes(t, st, a, p + 1, false, '}')
      else
        && Peek(t, p) == ',' && a < next <= |t| && Around(t, a, next, ',')
        && if st.trailingCommas && Peek(t, next) == '}' then r.pos == next + 1 && Closes(t, st, a, next + 1, true, '}')
           else r == Members(t, st, next, events, Increment(count))
  {
    hide Members;
    SkippedIsBlank(t, a);
    if Peek(t, Skip(t, a)) == ',' {
      MarkIsAround(t, a, ',');
    }
  }

  /** What may follow a bracket. */
  lemma Opened(t: string, pos: nat)
    requires pos < |t|
    ensures var next := Skip(t, pos + 1);
      pos < next <= |t| && Blank(t, pos + 1, next) && !IsSpace(Peek(t, next))
  {
    SkippedIsBlank(t, pos + 1);
  }

  lemma EmptyContainer(t: string, st: Settings, pos: nat, next: nat)
    requires pos < next <= |t| && Blank(t, pos + 1, next)
    ensures Peek(t, pos) == '[' && Peek(t, next) == ']' ==> Derives(t, st, ArrayNode(pos, next + 1, [], false))
    ensures Peek(t, pos) == '{' && Peek(t, next) == '}' ==> Derives(t, st, ObjectNode(pos, next + 1, [], false))
  {
  }

  /** Whatever the parser reads as a value has a tree. */
  lemma {:induction false} ParsedHasTree(t: string, st: Settings, pos: nat, events: seq<Event>) returns (n: Node)
    requires AlwaysGoesOn(st) && Value(t, st, pos, events).Done?
    ensures Derives(t, st, n) && n.begin == pos && n.end == Value(t, st, pos, events).pos
    decreases |t| - pos, 5
  {
    var r := Value(t, st, pos, events);
    if Peek(t, pos) == '[' {
      Opened(t, pos);
      var next := Skip(t, pos + 1);
      ArrayStarts(t, st, pos, next, events);
      if Peek(t, next) == ']' {
        EmptyContainer(t, st, pos, next);
        n := ArrayNode(pos, next + 1, [], false);
      } else {
        var items, trailing := ParsedItems(t, st, next, events + [StartArray], 0);
        n := ArrayNode(pos, r.pos, items, trailing);
      }
    } else if Peek(t, pos) == '{' {
      Opened(t, pos);
      var next := Skip(t, pos + 1);
      ObjectStarts(t, st, pos, next, events);
      if Peek(t, next) == '}' {
        EmptyContainer(t, st, pos, next);
        n := ObjectNode(pos, next + 1, [], false);
      } else {
        var entries, trailing := ParsedEntries(t, st, next, events + [StartObject], 0);
        n := ObjectNode(pos, r.pos, entries, trailing);
      }
    } else {
      n := ScalarTree(t, st, pos, events);
    }
  }

  lemma ScalarTree(t: string, st: Settings, pos: nat, events: seq<Event>) returns (n: Node)
    requires Value(t, st, pos, events).Done? && Peek(t, pos) != '[' && Peek(t, pos) != '{'
    ensures Derives(t, st, n) && n.begin == pos && n.end == Value(t, st, pos, events).pos
  {
    hide Scalar;
    n := Leaf(pos, Scalar(t, st, pos).pos, Scalar(t, st, pos).value);
  }

  lemma ItemIsValue(t: string, st: Settings, pos: nat, events: seq<Event>, count: nat)
    requires Elements(t, st, pos, events, count).Done?
    ensures Value(t, st, pos, events).Done?
  {
    hide Value;
    hide ElementEnd;
  }

  lemma MemberIsValue(t: string, st: Settings, pos: nat, events: seq<Event>, count: nat)
    requires MemberValue(t, st, pos, events, count).Done?
    ensures Value(t, st, pos, events).Done?
  {
    hide Value;
    hide MemberEnd;
  }

  lemma {:induction false} ParsedItems(t: string, st: Settings, pos: nat, events: seq<Event>, count: nat)
    returns (items: seq<Node>, trailing: bool)
    requires AlwaysGoesOn(st) && Elements(t, st, pos, events, count).Done?
    ensures items != [] && items[0].begin == pos
    ensures DerivesItems(t, st, items, Elements(t, st, pos, events, count).pos, trailing)
    decreases |t| - pos, 6
  {
    hide Value;
    hide Elements;
    hide ElementEnd;
    hide Derives;
    hide DerivesItems;
    hide Closes;
    hide Around;
    var v := Value(t, st, pos, events);
    ItemIsValue(t, st, pos, events, count);
    AfterItem(t, st, pos, events, count);
    var first := ParsedHasTree(t, st, pos, events);
    ItemEnd(t, st, v.pos, v.events, count);
    var p := Skip(t, v.pos);
    var next := Skip(t, p + 1);
    if Peek(t, p) == ']' {
      OneItem(t, st, first, p + 1, false);
      items, trailing := [first], false;
    } else if st.trailingCommas && Peek(t, next) == ']' {
      OneItem(t, st, first, next + 1, true);
      items, trailing := [first], true;
    } else {
      var rest, comma := ParsedItems(t, st, next, v.events, Increment(count));
      OneItemMore(t, st, first, rest, Elements(t, st, pos, events, count).pos, comma);
      items, trailing := [first] + rest, comma;
    }
  }

  lemma OneEntry(t: string, st: Settings, m: Entry, end: nat, trailing: bool)
    requires DerivesEntry(t, st, m) && Closes(t, st, m.value.end, end, trailing, '}')
    ensures DerivesEntries(t, st, [m], end, trailing)
  {
    hide Derives;
  }

  lemma OneEntryMore(t: string, st: Settings, m: Entry, rest: seq<Entry>, end: nat, trailing: bool)
    requires DerivesEntry(t, st, m) && rest != [] && DerivesEntries(t, st, rest, end, trailing)
    requires Around(t, m.value.end, rest[0].begin, ',')
    ensures DerivesEntries(t, st, [m] + rest, end, trailing)
  {
    hide Derives;
    assert ([m] + rest)[1..] == rest;
  }

  /** A member that is parsed begins with a name and a colon. */
  lemma NameParsed(t: string, st: Settings, pos: nat, events: seq<Event>, count: nat)
    requires AlwaysGoesOn(st) && Members(t, st, pos, events, count).Done?
    ensures Peek(t, pos) == '"' && StringBody(t, pos + 1).Token?
    ensures var name := StringBody(t, pos + 1);
      var x := Skip(t, Skip(t, name.pos) + 1);
      && pos < x <= |t| && Around(t, name.pos, x, ':')
      && Members(t, st, pos, events, count) == MemberValue(t, st, x, events + [Key(name.value)], count)
  {
    hide MemberValue;
    hide StringBody;
    var name := StringBody(t, pos + 1);
    MarkIsAround(t, name.pos, ':');
  }

  lemma {:induction false} ParsedEntries(t: string, st: Settings, pos: nat, events: seq<Event>, count: nat)
    returns (entries: seq<Entry>, trailing: bool)
    requires AlwaysGoesOn(st) && Members(t, st, pos, events, count).Done?
    ensures entries != [] && entries[0].begin == pos
    ensures DerivesEntries(t, st, entries, Members(t, st, pos, events, count).pos, trailing)
    decreases |t| - pos, 6
  {
    hide Value;
    hide Members;
    hide MemberValue;
    hide MemberEnd;
    hide StringBody;
    hide Derives;
    hide DerivesEntries;
    hide Closes;
    hide Around;
    NameParsed(t, st, pos, events, count);
    var name := StringBody(t, pos + 1);
    var x := Skip(t, Skip(t, name.pos) + 1);
    var named := events + [Key(name.value)];
    var v := Value(t, st, x, named);
    MemberIsValue(t, st, x, named, count);
    AfterMember(t, st, x, named, count);
    var value := ParsedHasTree(t, st, x, named);
    var m := Entry(pos, name.pos, name.value, value);
    EntryEnd(t, st, v.pos, v.events, count);
    var p := Skip(t, v.pos);
    var next := Skip(t, p + 1);
    if Peek(t, p) == '}' {
      OneEntry(t, st, m, p + 1, false);
      entries, trailing := [m], false;
    } else if st.trailingCommas && Peek(t, next) == '}' {
      OneEntry(t, st, m, next + 1, true);
      entries, trailing := [m], true;
    } else {
      var rest, comma := ParsedEntries(t, st, next, v.events, Increment(count));
      OneEntryMore(t, st, m, rest, Members(t, st, pos, events, count).pos, comma);
      entries, trailing := [m] + rest, comma;
    }
  }

  // ---------------------------------------------------------------------------------------------
  // Whole texts

  /** The text up to `end` is the tree with white space around it; parsing may stop right behind the root. */
  ghost predicate IsDocument(t: string, st: Settings, n: Node, end: nat) {
    && Blank(t, 0, n.begin) && Derives(t, st, n)
    && if st.stopWhenDone then end == n.end else Blank(t, n.end, end) && Peek(t, end) == NUL
  }

  lemma DocumentIsParsed(t: string, st: Settings, n: Node, end: nat)
    requires AlwaysGoesOn(st) && IsDocument(t, st, n, end)
    ensures Parse(t, st) == Done(end, EventsOf(n))
  {
    hide Value;
    hide Derives;
    DerivedBegins(t, st, n);
    SkipBlank(t, 0, n.begin);
    TreeIsParsed(t, st, n, []);
    assert [] + EventsOf(n) == EventsOf(n);
    if !st.stopWhenDone {
      SkipBlank(t, n.end, end);
    }
  }

  lemma ParsedIsDocument(t: string, st: Settings) returns (n: Node)
    requires AlwaysGoesOn(st) && Parse(t, st).Done?
    ensures IsDocument(t, st, n, Parse(t, st).pos)
  {
    hide Value;
    hide Derives;
    var pos := Skip(t, 0);
    SkippedIsBlank(t, 0);
    n := ParsedHasTree(t, st, pos, []);
    SkippedIsBlank(t, n.end);
  }

  /**
   Both parsers accept exactly the texts that have a tree, with any white space between the marks and with
   commas before closing brackets if they are allowed, and they send what the tree says.
   */
  lemma ParsersFollowGrammar(t: string, st: Settings, end: nat, events: seq<Event>)
    requires AlwaysGoesOn(st)
    ensures Parse(t, st) == Done(end, events) <==> exists n :: IsDocument(t, st, n, end) && events == EventsOf(n)
    ensures JsonMachine.IterativeParse(t, st) == Parse(t, st)
  {
    hide IsDocument;
    hide Parse;
    JsonMachine.ParsersAgree(t, st);
    if Parse(t, st) == Done(end, events) {
      var n := ParsedIsDocument(t, st);
      DocumentIsParsed(t, st, n, end);
    }
    if n :| IsDocument(t, st, n, end) && events == EventsOf(n) {
      DocumentIsParsed(t, st, n, end);
    }
  }

  /** The grammar is unambiguous: all trees of a text say the same. */
  lemma TreesSayTheSame(t: string, st: Settings, n: Node, m: Node, end: nat, stop: nat)
    requires AlwaysGoesOn(st) && IsDocument(t, st, n, end) && IsDocument(t, st, m, stop)
    ensures end == stop && EventsOf(n) == EventsOf(m)
  {
    DocumentIsParsed(t, st, n, end);
    DocumentIsParsed(t, st, m, stop);
  }
}
