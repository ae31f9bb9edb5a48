/**
 The writer of include/rapidjson/writer.h wastes nothing: no text from which the parser gets the same events
 is shorter than the one that is written.
 */
module JsonShortest {
  import opened JsonDom
  import opened JsonGrammar
  import opened TextAt
  import JsonLayout
  import JsonLeaves
  import JsonNumbers
  import JsonRoundTrip
  import JsonStrings

  // ---------------------------------------------------------------------------------------------
  // Strings

  lemma {:induction false} EscapeConcat(a: string, b: string)
    ensures EscapeAll(a + b) == EscapeAll(a) + EscapeAll(b)
    decreases |a|
  {
    hide Escape;
    if a == [] {
      assert a + b == b;
    } else {
      assert (a + b)[1..] == a[1..] + b;
      EscapeConcat(a[1..], b);
    }
  }

  lemma EscapeOne(c: char)
    ensures EscapeAll([c]) == Escape(c) && |Escape(c)| <= 6
    ensures c >= ' ' && c != '"' && c != '\\' ==> |Escape(c)| == 1
  {
    assert [c][1..] == [];
  }

  lemma EscapeTwo(c: char, d: char)
    ensures EscapeAll([c, d]) == Escape(c) + Escape(d)
  {
    EscapeOne(c);
    EscapeOne(d);
    EscapeConcat([c], [d]);
    assert [c] + [d] == [c, d];
  }

  lemma LetterNoShorter(k: nat)
    requires k < 8
    ensures |EscapeAll([JsonStrings.MEANINGS[k]])| <= 2
  {
    EscapeOne(JsonStrings.MEANINGS[k]);
    match k
    case 0 => case 1 => case 2 => case 3 => case 4 => case 5 => case 6 => case _ =>
  }

  lemma CodepointNoShorter(codepoint: nat)
    requires codepoint <= 0x10FFFF
    ensures |EscapeAll(Utf8(codepoint))| <= if codepoint <= 0xFFFF then 6 else 12
  {
    hide Escape;
    hide EscapeAll;
    var u := Utf8(codepoint);
    EscapeOne(u[0]);
    if |u| >= 2 {
      EscapeOne(u[1]);
      EscapeTwo(u[0], u[1]);
      assert u[..2] == [u[0], u[1]];
      if |u| == 3 {
        EscapeOne(u[2]);
        EscapeConcat(u[..2], [u[2]]);
        assert u[..2] + [u[2]] == u;
      } else if |u| == 4 {
        EscapeOne(u[2]);
        EscapeOne(u[3]);
        EscapeTwo(u[2], u[3]);
        EscapeConcat(u[..2], [u[2], u[3]]);
        assert u[..2] + [u[2], u[3]] == u;
      }
    }
  }

  lemma PieceNoShorter(p: JsonStrings.Piece)
    requires JsonStrings.IsPiece(p)
    ensures |EscapeAll(JsonStrings.Said(p))| <= JsonStrings.Width(p)
  {
    hide EscapeAll;
    hide Utf8;
    match p
    case Plain(c) => EscapeOne(c);
    case Letter(k) => LetterNoShorter(k);
    case Unit(n) => CodepointNoShorter(n);
    case Pair(codepoint) => CodepointNoShorter(codepoint);
  }

  lemma {:induction false} SpellingNoShorter(t: string, pos: nat, end: nat, pieces: seq<JsonStrings.Piece>)
    requires JsonStrings.ArePieces(pieces) && JsonStrings.Spelled(t, pos, end, pieces)
    ensures end >= pos + |EscapeAll(JsonStrings.AllSaid(pieces))| + 1
    decreases |pieces|
  {
    hide JsonStrings.PieceAt;
    if pieces != [] {
      hide EscapeAll;
      hide JsonStrings.Said;
      PieceNoShorter(pieces[0]);
      SpellingNoShorter(t, pos + JsonStrings.Width(pieces[0]), end, pieces[1..]);
      EscapeConcat(JsonStrings.Said(pieces[0]), JsonStrings.AllSaid(pieces[1..]));
    }
  }

  lemma StringNoShorter(t: string, pos: nat, end: nat, s: string)
    requires StringBody(t, pos) == Token(end, s)
    ensures end >= pos + |EscapeAll(s)| + 1
  {
    hide StringBody;
    JsonStrings.StringsAreSpelled(t, pos, end, s);
    var pieces :| JsonStrings.IsSpelling(t, pos, end, s, pieces);
    SpellingNoShorter(t, pos, end, pieces);
  }

  // ---------------------------------------------------------------------------------------------
  // Numbers

  /** The fewest digits a number can have. */
  lemma {:induction false} DigitsNoShorter(s: string)
    requires s != [] && forall i :: 0 <= i < |s| ==> IsDigit(s[i])
    ensures |Digits(Decimal(s))| <= |s|
  {
    if |s| > 1 {
      DigitsNoShorter(s[..|s| - 1]);
      var n := Decimal(s[..|s| - 1]);
      assert Decimal(s) / 10 == n;
    } else {
      assert s[..0] == [];
    }
  }

  lemma NumberNoShorter(t: string, st: Settings, pos: nat, end: nat, n: int)
    requires exists e :: JsonGrammar.Number(t, st, pos) == Token(end, e) && Stored(e, n)
    ensures end >= pos + |IntegerText(n)|
  {
    hide JsonGrammar.Number;
    hide Digits;
    hide Decimal;
    hide JsonNumbers.IsWhole;
    hide JsonNumbers.IsFraction;
    hide JsonNumbers.IsExponent;
    var e :| JsonGrammar.Number(t, st, pos) == Token(end, e) && Stored(e, n);
    JsonNumbers.NumbersAreWritten(t, st, pos, end, e);
    var p :| JsonNumbers.IsReading(t, st, pos, end, e, p);
    var start := JsonNumbers.WholeStart(pos, p);
    JsonNumbers.WholeIsRead(t, start, p.wholeEnd);
    DigitsNoShorter(t[start..p.wholeEnd]);
    if p.minus && n == 0 {
      OneDigit();
    }
  }

  lemma OneDigit()
    ensures |Digits(0)| == 1
  {
  }

  /** The call reports this integer. */
  predicate Stored(e: Event, n: int) {
    e == Int(n) || e == Uint(n) || e == Int64(n) || e == Uint64(n)
  }

  // ---------------------------------------------------------------------------------------------
  // Values

  type Node = JsonLayout.Node
  type Entry = JsonLayout.Entry

  function ItemsParsed(items: seq<Json>): seq<Event> {
    JsonDom.ItemEvents(items, ParsedNumberEvent)
  }

  function MembersParsed(members: seq<Member>): seq<Event> {
    JsonDom.MemberEvents(members, ParsedNumberEvent)
  }

  /** An event a value that is no container sends. */
  predicate IsScalarEvent(e: Event) {
    e.Null? || e.Bool? || e.Int? || e.Uint? || e.Int64? || e.Uint64? || e.Double? || e.String?
  }

  predicate IsContainer(v: Json) {
    v.JArray? || v.JObject?
  }

  lemma ScalarSends(t: string, st: Settings, pos: nat)
    requires Scalar(t, st, pos).Token?
    ensures IsScalarEvent(Scalar(t, st, pos).value)
  {
    JsonLeaves.NumberBegins(t, st, pos);
  }

  /** The first event tells a container from any other value, and a value from the end of a container. */
  lemma FirstOfNode(t: string, st: Settings, n: Node)
    requires JsonLayout.Derives(t, st, n)
    ensures var es := JsonLayout.EventsOf(n);
      && es != [] && (if n.Leaf? then IsScalarEvent(es[0]) && es == [es[0]]
                      else if n.ArrayNode? then es[0] == StartArray else es[0] == StartObject)
  {
    hide Scalar;
    if n.Leaf? {
      ScalarSends(t, st, n.begin);
    }
  }

  lemma FirstOfValue(v: Json)
    ensures Parsed(v) != []
    ensures !IsContainer(v) ==> IsScalarEvent(Parsed(v)[0]) && Parsed(v) == [Parsed(v)[0]]
    ensures v.JArray? ==> Parsed(v)[0] == StartArray
    ensures v.JObject? ==> Parsed(v)[0] == StartObject
  {
  }

  lemma LeafNoShorter(t: string, st: Settings, pos: nat, end: nat, v: Json)
    requires Valid(v) && !IsContainer(v) && Scalar(t, st, pos) == Token(end, Parsed(v)[0])
    ensures end >= pos + |Print(v)|
  {
    hide StringBody;
    hide JsonGrammar.Number;
    hide IntegerText;
    hide EscapeAll;
    JsonLeaves.NumberBegins(t, st, pos);
    match v
    case JString(s) => StringNoShorter(t, pos + 1, end, s);
    case JNumber(x) =>
      assert Stored(Parsed(v)[0], x.n);
      NumberNoShorter(t, st, pos, end, x.n);
    case _ =>
  }

  lemma Drop<T>(a: seq<T>, b: seq<T>, c: seq<T>, d: seq<T>)
    requires |a| == |b| && a + c == b + d
    ensures a == b && c == d
  {
    assert (a + c)[..|a|] == a && (b + d)[..|b|] == b;
    assert (a + c)[|a|..] == c && (b + d)[|b|..] == d;
  }

  /** What follows the entries of a container. */
  predicate IsEnd(tail: seq<Event>) {
    tail != [] && (tail[0].EndArray? || tail[0].EndObject?)
  }

  /** A value found where events begin like those of another one is that value, and takes no less text. */
  lemma {:induction false} NodeNoShorter(t: string, st: Settings, n: Node, v: Json, rest: seq<Event>, more: seq<Event>)
    requires JsonLayout.Derives(t, st, n) && Valid(v) && JsonLayout.EventsOf(n) + rest == Parsed(v) + more
    ensures n.end >= n.begin + |Print(v)| && rest == more
    decreases n, 0
  {
    hide Scalar;
    hide JsonLayout.DerivesItems;
    hide JsonLayout.DerivesEntries;
    hide JsonLayout.ItemEvents;
    hide JsonLayout.EntryEvents;
    hide JsonDom.ItemEvents;
    hide JsonDom.MemberEvents;
    hide PrintItems;
    hide PrintMembers;
    FirstOfNode(t, st, n);
    FirstOfValue(v);
    var es, vs := JsonLayout.EventsOf(n), Parsed(v);
    assert (es + rest)[0] == es[0] && (vs + more)[0] == vs[0];
    match n
    case Leaf(begin, end, event) =>
      Drop(es, vs, rest, more);
      LeafNoShorter(t, st, begin, end, v);
    case ArrayNode(begin, end, items, trailing) =>
      var last, stop := [EndArray(|items| % SIZE_TYPE)], [EndArray(|v.items|)];
      Inside(StartArray, JsonLayout.ItemEvents(items), last, rest, ItemsParsed(v.items), stop, more);
      ArrayNoShorter(t, st, begin, end, items, trailing, v.items, last + rest, stop + more);
      Drop(last, stop, rest, more);
    case ObjectNode(begin, end, entries, trailing) =>
      var last, stop := [EndObject(|entries| % SIZE_TYPE)], [EndObject(|v.members|)];
      Inside(StartObject, JsonLayout.EntryEvents(entries), last, rest, MembersParsed(v.members), stop, more);
      ObjectNoShorter(t, st, begin, end, entries, trailing, v.members, last + rest, stop + more);
      Drop(last, stop, rest, more);
  }

  /** The same start taken away. */
  lemma Inside(first: Event, a: seq<Event>, last: seq<Event>, rest: seq<Event>,
               b: seq<Event>, stop: seq<Event>, more: seq<Event>)
    requires [first] + a + last + rest == [first] + b + stop + more
    ensures a + (last + rest) == b + (stop + more)
  {
    assert [first] + a + last + rest == [first] + (a + (last + rest));
    assert [first] + b + stop + more == [first] + (b + (stop + more));
    Drop([first], [first], a + (last + rest), b + (stop + more));
  }

  lemma {:induction false} ArrayNoShorter(
    t: string, st: Settings, begin: nat, end: nat, items: seq<Node>, trailing: bool,
    vs: seq<Json>, tail: seq<Event>, stop: seq<Event>)
    requires JsonLayout.Derives(t, st, JsonLayout.ArrayNode(begin, end, items, trailing))
    requires IsEnd(tail) && IsEnd(stop) && JsonLayout.ItemEvents(items) + tail == ItemsParsed(vs) + stop
    requires forall i :: 0 <= i < |vs| ==> Valid(vs[i])
    ensures end >= begin + |PrintItems(vs)| + 2 && tail == stop
    decreases items, 2
  {
    hide JsonLayout.DerivesItems;
    if items == [] {
      assert [] + tail == tail;
      NoItems(vs, stop);
      assert [] + stop == stop;
    } else {
      ItemsNoShorter(t, st, items, end, trailing, vs, tail, stop);
    }
  }

  /** Events that begin with the end of a container hold no values before it. */
  lemma NoItems(vs: seq<Json>, stop: seq<Event>)
    requires IsEnd(ItemsParsed(vs) + stop)
    ensures vs == []
  {
    if vs != [] {
      ItemsAreNoEnd(vs, stop);
    }
  }

  lemma ItemsAreNoEnd(vs: seq<Json>, stop: seq<Event>)
    requires vs != []
    ensures !IsEnd(ItemsParsed(vs) + stop)
  {
    FirstOfValue(vs[0]);
    var es := Parsed(vs[0]);
    assert (ItemsParsed(vs) + stop)[0] == es[0];
  }

  lemma NothingBefore(stop: seq<Event>)
    ensures ItemsParsed([]) + stop == stop && MembersParsed([]) + stop == stop
  {
  }

  lemma NextItem(vs: seq<Json>, stop: seq<Event>)
    requires vs != []
    ensures ItemsParsed(vs) + stop == Parsed(vs[0]) + (ItemsParsed(vs[1..]) + stop)
  {
    hide JsonDom.Events;
  }

  lemma NextNode(items: seq<Node>, tail: seq<Event>)
    requires items != []
    ensures JsonLayout.ItemEvents(items) + tail
      == JsonLayout.EventsOf(items[0]) + (JsonLayout.ItemEvents(items[1..]) + tail)
  {
    hide JsonLayout.EventsOf;
  }

  lemma {:induction false} ItemsNoShorter(t: string, st: Settings, items: seq<Node>, end: nat, trailing: bool,
                                          vs: seq<Json>, tail: seq<Event>, stop: seq<Event>)
    requires items != [] && JsonLayout.DerivesItems(t, st, items, end, trailing)
    requires IsEnd(tail) && IsEnd(stop) && JsonLayout.ItemEvents(items) + tail == ItemsParsed(vs) + stop
    requires forall i :: 0 <= i < |vs| ==> Valid(vs[i])
    ensures end >= items[0].begin + |PrintItems(vs)| + 1 && tail == stop
    decreases items, 1
  {
    hide JsonLayout.Derives;
    hide JsonLayout.EventsOf;
    hide JsonDom.Events;
    hide Print;
    hide Valid;
    SomeItems(t, st, items, end, trailing, vs, tail, stop);
    NextNode(items, tail);
    NextItem(vs, stop);
    var rest, more := JsonLayout.ItemEvents(items[1..]) + tail, ItemsParsed(vs[1..]) + stop;
    NodeNoShorter(t, st, items[0], vs[0], rest, more);
    if |items| == 1 {
      assert items[1..] == [] && rest == tail;
      NoItems(vs[1..], stop);
      assert more == stop;
    } else {
      ItemsNoShorter(t, st, items[1..], end, trailing, vs[1..], tail, stop);
      SomeItems(t, st, items[1..], end, trailing, vs[1..], tail, stop);
    }
  }

  lemma SomeItems(t: string, st: Settings, items: seq<Node>, end: nat, trailing: bool,
                  vs: seq<Json>, tail: seq<Event>, stop: seq<Event>)
    requires items != [] && JsonLayout.DerivesItems(t, st, items, end, trailing)
    requires IsEnd(stop) && JsonLayout.ItemEvents(items) + tail == ItemsParsed(vs) + stop
    ensures vs != []
  {
    hide JsonLayout.Derives;
    FirstOfNode(t, st, items[0]);
    NextNode(items, tail);
    NothingBefore(stop);
    var es := JsonLayout.EventsOf(items[0]);
    assert (JsonLayout.ItemEvents(items) + tail)[0] == es[0];
  }

  lemma {:induction false} ObjectNoShorter(
    t: string, st: Settings, begin: nat, end: nat, entries: seq<Entry>, trailing: bool,
    ms: seq<Member>, tail: seq<Event>, stop: seq<Event>)
    requires JsonLayout.Derives(t, st, JsonLayout.ObjectNode(begin, end, entries, trailing))
    requires IsEnd(tail) && IsEnd(stop) && JsonLayout.EntryEvents(entries) + tail == MembersParsed(ms) + stop
    requires forall i :: 0 <= i < |ms| ==> Valid(ms[i].value)
    ensures end >= begin + |PrintMembers(ms)| + 2 && tail == stop
    decreases entries, 2
  {
    hide JsonLayout.DerivesEntries;
    if entries == [] {
      assert [] + tail == tail;
      NoMembers(ms, stop);
      assert [] + stop == stop;
    } else {
      EntriesNoShorter(t, st, entries, end, trailing, ms, tail, stop);
    }
  }

  lemma NoMembers(ms: seq<Member>, stop: seq<Event>)
    requires IsEnd(MembersParsed(ms) + stop)
    ensures ms == []
  {
    if ms != [] {
      MembersAreNoEnd(ms, stop);
    }
  }

  lemma MembersAreNoEnd(ms: seq<Member>, stop: seq<Event>)
    requires ms != []
    ensures !IsEnd(MembersParsed(ms) + stop)
  {
    assert (MembersParsed(ms) + stop)[0] == Key(ms[0].name);
  }

  lemma NextMember(ms: seq<Member>, stop: seq<Event>)
    requires ms != []
    ensures MembersParsed(ms) + stop == [Key(ms[0].name)] + (Parsed(ms[0].value) + (MembersParsed(ms[1..]) + stop))
  {
    hide JsonDom.Events;
  }

  lemma NextEntry(entries: seq<Entry>, tail: seq<Event>)
    requires entries != []
    ensures JsonLayout.EntryEvents(entries) + tail
      == [Key(entries[0].name)]
         + (JsonLayout.EventsOf(entries[0].value) + (JsonLayout.EntryEvents(entries[1..]) + tail))
  {
    hide JsonLayout.EventsOf;
  }

  lemma {:induction false} EntryNoShorter(t: string, st: Settings, m: Entry, v: Member,
                                          rest: seq<Event>, more: seq<Event>)
    requires JsonLayout.DerivesEntry(t, st, m) && Valid(v.value)
    requires [Key(m.name)] + (JsonLayout.EventsOf(m.value) + rest) == [Key(v.name)] + (Parsed(v.value) + more)
    ensures m.value.end >= m.begin + |Quoted(v.name)| + 1 + |Print(v.value)| && rest == more
    decreases m, 0
  {
    hide JsonLayout.Derives;
    hide JsonLayout.EventsOf;
    hide JsonDom.Events;
    hide Print;
    hide Valid;
    hide StringBody;
    Drop([Key(m.name)], [Key(v.name)], JsonLayout.EventsOf(m.value) + rest, Parsed(v.value) + more);
    assert [Key(m.name)][0] == [Key(v.name)][0];
    StringNoShorter(t, m.begin + 1, m.nameEnd, m.name);
    NodeNoShorter(t, st, m.value, v.value, rest, more);
  }

  lemma {:induction false} EntriesNoShorter(t: string, st: Settings, entries: seq<Entry>, end: nat, trailing: bool,
                                            ms: seq<Member>, tail: seq<Event>, stop: seq<Event>)
    requires entries != [] && JsonLayout.DerivesEntries(t, st, entries, end, trailing)
    requires IsEnd(tail) && IsEnd(stop) && JsonLayout.EntryEvents(entries) + tail == MembersParsed(ms) + stop
    requires forall i :: 0 <= i < |ms| ==> Valid(ms[i].value)
    ensures end >= entries[0].begin + |PrintMembers(ms)| + 1 && tail == stop
    decreases entries, 1
  {
    hide JsonLayout.DerivesEntry;
    hide JsonLayout.EventsOf;
    hide JsonDom.Events;
    hide Print;
    hide Quoted;
    hide Valid;
    SomeMembers(entries, tail, ms, stop);
    NextEntry(entries, tail);
    NextMember(ms, stop);
    var rest, more := JsonLayout.EntryEvents(entries[1..]) + tail, MembersParsed(ms[1..]) + stop;
    EntryNoShorter(t, st, entries[0], ms[0], rest, more);
    if |entries| == 1 {
      assert entries[1..] == [] && rest == tail;
      NoMembers(ms[1..], stop);
      assert more == stop;
    } else {
      EntriesNoShorter(t, st, entries[1..], end, trailing, ms[1..], tail, stop);
      SomeMembers(entries[1..], tail, ms[1..], stop);
    }
  }

  lemma SomeMembers(entries: seq<Entry>, tail: seq<Event>, ms: seq<Member>, stop: seq<Event>)
    requires entries != [] && IsEnd(stop) && JsonLayout.EntryEvents(entries) + tail == MembersParsed(ms) + stop
    ensures ms != []
  {
    NextEntry(entries, tail);
    NothingBefore(stop);
    assert (JsonLayout.EntryEvents(entries) + tail)[0] == Key(entries[0].name);
  }

  // ---------------------------------------------------------------------------------------------
  // Whole texts

  /** Whatever text gives the parser a value's events, the writer's is no longer, and gives them too. */
  lemma WriterIsShortest(t: string, st: Settings, v: Json)
    requires JsonRoundTrip.AlwaysGoesOn(st) && Valid(v) && Parse(t, st).Done? && Parse(t, st).events == Parsed(v)
    ensures |Print(v)| <= |t|
    ensures Parse(Print(v), st) == Done(|Print(v)|, Parsed(v))
  {
    hide Valid;
    hide Print;
    hide JsonDom.Events;
    hide Parse;
    hide JsonLayout.Derives;
    hide JsonLayout.EventsOf;
    var n := JsonLayout.ParsedIsDocument(t, st);
    JsonLayout.DocumentIsParsed(t, st, n, Parse(t, st).pos);
    NodeNoShorter(t, st, n, v, [], []);
    EndsInside(t, st, n);
    JsonRoundTrip.ParsePrinted(v, st);
  }

  lemma EndsInside(t: string, st: Settings, n: Node)
    requires JsonRoundTrip.AlwaysGoesOn(st) && JsonLayout.Derives(t, st, n)
    ensures n.end <= |t|
  {
    hide JsonLayout.Derives;
    JsonLayout.TreeIsParsed(t, st, n, []);
  }
}
