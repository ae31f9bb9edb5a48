/**
 The handler of include/rapidjson/document.h: finished values wait on a stack until the container
 they belong to is closed.
 */
module JsonDocument {
  import opened JsonGrammar
  import opened JsonDom
  import opened Word
  import opened Wrappers

  /** Names and values alternate on the stack; a member is two neighbouring cells. */
  function Pairs(cells: seq<Json>): Option<seq<Member>>
    decreases |cells|
  {
    if cells == [] then Some([])
    else if |cells| == 1 || !cells[0].JString? then None
    else
      var rest := Pairs(cells[2..]);
      if rest.None? then None else Some([Member(cells[0].s, cells[1])] + rest.value)
  }

  /** The integer constructor a number event uses; None if its argument is not of the constructor's type. */
  function NumberOf(e: Event): Option<Number> {
    match e
    case Int(i) => if -TWO_TO_THE_31 <= i < TWO_TO_THE_31 then Some(FromInt(i)) else None
    case Uint(u) => if 0 <= u < TWO_TO_THE_32 then Some(FromUint(u)) else None
    case Int64(i) => if -TWO_TO_THE_63 <= i < TWO_TO_THE_63 then Some(FromInt64(i)) else None
    case Uint64(u) => if 0 <= u < TWO_TO_THE_64 then Some(FromUint64(u)) else None
    case _ => None
  }

  /** One handler call; None when the stack does not hold what the call takes off it, or for a double. */
  function Build(stack: seq<Json>, e: Event): Option<seq<Json>> {
    match e
    case Null => Some(stack + [JNull])
    case Bool(b) => Some(stack + [JBool(b)])
    case String(s) => Some(stack + [JString(s)])
    case Key(s) => Some(stack + [JString(s)])
    case StartObject => Some(stack + [JObject([])])
    case EndObject(n) =>
      if |stack| < 2 * n + 1 then None
      else
        var top := |stack| - 2 * n;
        var members := Pairs(stack[top..]);
        if members.None? || !stack[top - 1].JObject? then None
        else Some(stack[..top - 1] + [JObject(members.value)])
    case StartArray => Some(stack + [JArray([])])
    case EndArray(n) =>
      if |stack| < n + 1 then None
      else
        var top := |stack| - n;
        if !stack[top - 1].JArray? then None
        else Some(stack[..top - 1] + [JArray(stack[top..])])
    case _ =>
      var x := NumberOf(e);
      if x.None? then None else Some(stack + [JNumber(x.value)])
  }

  function BuildAll(stack: seq<Json>, events: seq<Event>): Option<seq<Json>>
    decreases |events|
  {
    if events == [] then Some(stack)
    else
      var next := Build(stack, events[0]);
      if next.None? then None else BuildAll(next.value, events[1..])
  }

  lemma {:induction false} BuildAllSplit(stack: seq<Json>, a: seq<Event>, b: seq<Event>)
    ensures BuildAll(stack, a + b) == (var m := BuildAll(stack, a); if m.None? then None else BuildAll(m.value, b))
    decreases |a|
  {
    hide Build;
    if a == [] {
      assert a + b == b;
    } else {
      assert (a + b)[1..] == a[1..] + b;
      var next := Build(stack, a[0]);
      if next.Some? {
        BuildAllSplit(next.value, a[1..], b);
      }
    }
  }

  lemma BuildOne(stack: seq<Json>, e: Event)
    ensures BuildAll(stack, [e]) == Build(stack, e)
  {
    assert [e][1..] == [];
  }

  /** A way of reporting integers from which the document recovers them, flags included. */
  ghost predicate Faithful(number: Number -> Event) {
    forall x :: Valid(JNumber(x)) ==> NumberOf(number(x)) == Some(x) && !number(x).Double?
  }

  lemma BothAreFaithful()
    ensures Faithful(NumberEvent) && Faithful(ParsedNumberEvent)
  {
    forall x | Valid(JNumber(x))
      ensures NumberOf(NumberEvent(x)) == Some(x) && NumberOf(ParsedNumberEvent(x)) == Some(x)
    {
      FlagsDependOnValue(x.n);
    }
  }

  /** The cells a run of members leaves on the stack. */
  function Cells(members: seq<Member>): (cells: seq<Json>)
    ensures |cells| == 2 * |members|
  {
    if members == [] then [] else [JString(members[0].name), members[0].value] + Cells(members[1..])
  }

  lemma {:induction false} PairsOfCells(members: seq<Member>)
    ensures Pairs(Cells(members)) == Some(members)
  {
    if members != [] {
      PairsOfCells(members[1..]);
      assert Cells(members)[2..] == Cells(members[1..]);
      assert members == [members[0]] + members[1..];
    }
  }

  /** The events of a value put exactly that value on the stack. */
  lemma {:induction false} Rebuild(stack: seq<Json>, v: Json, number: Number -> Event)
    requires Valid(v) && Faithful(number)
    ensures BuildAll(stack, Events(v, number)) == Some(stack + [v])
    decreases v, 0
  {
    hide BuildAll;
    match v
    case JNull => BuildOne(stack, Null);
    case JBool(b) => BuildOne(stack, Bool(b));
    case JNumber(x) => BuildOne(stack, number(x));
    case JString(s) => BuildOne(stack, String(s));
    case JArray(items) =>
      var open := stack + [JArray([])];
      RebuildItems(open, items, number);
      CloseArray(stack, items);
      BuildBracketed(stack, StartArray, ItemEvents(items, number), EndArray(|items|), open, open + items);
    case JObject(members) =>
      var open := stack + [JObject([])];
      RebuildMembers(open, members, number);
      CloseObject(stack, members);
      BuildBracketed(stack, StartObject, MemberEvents(members, number), EndObject(|members|), open,
        open + Cells(members));
  }

  lemma BuildBracketed(stack: seq<Json>, open: Event, events: seq<Event>, close: Event, s1: seq<Json>, s2: seq<Json>)
    requires Build(stack, open) == Some(s1) && BuildAll(s1, events) == Some(s2)
    ensures BuildAll(stack, [open] + events + [close]) == Build(s2, close)
  {
    hide Build;
    BuildOne(stack, open);
    BuildOne(s2, close);
    BuildAllSplit(stack, [open], events);
    BuildAllSplit(stack, [open] + events, [close]);
  }

  lemma CloseArray(stack: seq<Json>, items: seq<Json>)
    ensures Build(stack + [JArray([])] + items, EndArray(|items|)) == Some(stack + [JArray(items)])
  {
    var s := stack + [JArray([])] + items;
    assert s[|stack|] == JArray([]) && s[|stack| + 1..] == items && s[..|stack|] == stack;
  }

  lemma CloseObject(stack: seq<Json>, members: seq<Member>)
    ensures Build(stack + [JObject([])] + Cells(members), EndObject(|members|)) == Some(stack + [JObject(members)])
  {
    hide Pairs;
    hide Cells;
    PairsOfCells(members);
    EndOfObject(stack, Cells(members), members);
  }

  lemma EndOfObject(stack: seq<Json>, cells: seq<Json>, members: seq<Member>)
    requires Pairs(cells) == Some(members) && |cells| == 2 * |members|
    ensures Build(stack + [JObject([])] + cells, EndObject(|members|)) == Some(stack + [JObject(members)])
  {
    hide Pairs;
    var s := stack + [JObject([])] + cells;
    assert s[|stack|] == JObject([]) && s[|stack| + 1..] == cells && s[..|stack|] == stack;
  }

  lemma {:induction false} RebuildItems(stack: seq<Json>, items: seq<Json>, number: Number -> Event)
    requires Faithful(number) && forall i :: 0 <= i < |items| ==> Valid(items[i])
    ensures BuildAll(stack, ItemEvents(items, number)) == Some(stack + items)
    decreases items, 1
  {
    hide Build;
    if items == [] {
      assert stack + items == stack;
    } else {
      Rebuild(stack, items[0], number);
      RebuildItems(stack + [items[0]], items[1..], number);
      BuildAllSplit(stack, Events(items[0], number), ItemEvents(items[1..], number));
      assert stack + [items[0]] + items[1..] == stack + items;
    }
  }

  lemma {:induction false} RebuildMembers(stack: seq<Json>, members: seq<Member>, number: Number -> Event)
    requires Faithful(number) && forall i :: 0 <= i < |members| ==> Valid(members[i].value)
    ensures BuildAll(stack, MemberEvents(members, number)) == Some(stack + Cells(members))
    decreases members, 1
  {
    hide BuildAll;
    if members == [] {
      NoEvents(stack);
      assert stack + Cells(members) == stack;
    } else {
      var name, value := JString(members[0].name), members[0].value;
      var key, values, rest := [Key(members[0].name)], Events(value, number), MemberEvents(members[1..], number);
      BuildOne(stack, key[0]);
      Rebuild(stack + [name], value, number);
      RebuildMembers(stack + [name] + [value], members[1..], number);
      BuildAllSplit(stack, key, values);
      BuildAllSplit(stack, key + values, rest);
      assert stack + [name] + [value] + Cells(members[1..]) == stack + Cells(members);
    }
  }

  lemma NoEvents(stack: seq<Json>)
    ensures BuildAll(stack, []) == Some(stack)
  {
  }

  // ---------------------------------------------------------------------------------------------
  // The document as it runs

  class Document {
    var stack: seq<Json>

    constructor ()
      ensures stack == []
    {
      stack := [];
    }

    method Push(v: Json)
      modifies this
      ensures stack == old(stack) + [v]
    {
      stack := stack + [v];
    }

    /** Takes the topmost n cells off the stack. */
    method Pop(n: nat) returns (cells: seq<Json>)
      requires n <= |stack|
      modifies this
      ensures stack == old(stack)[..|old(stack)| - n] && cells == old(stack)[|old(stack)| - n..]
    {
      cells := stack[|stack| - n..];
      stack := stack[..|stack| - n];
    }

    method SetTop(v: Json)
      requires stack != []
      modifies this
      ensures stack == old(stack)[..|old(stack)| - 1] + [v]
    {
      stack := stack[..|stack| - 1] + [v];
    }

    /** One handler call. */
    method Handle(e: Event)
      requires Build(stack, e).Some?
      modifies this
      ensures Some(stack) == Build(old(stack), e)
    {
      hide Pairs;
      ghost var was := stack;
      match e
      case Null => Push(JNull);
      case Bool(b) => Push(JBool(b));
      case String(s) => Push(JString(s));
      case Key(s) => Push(JString(s));
      case StartObject => Push(JObject([]));
      case StartArray => Push(JArray([]));
      case EndObject(n) =>
        var cells := Pop(2 * n);
        assert stack[..|stack| - 1] == was[..|was| - 2 * n - 1];
        SetTop(JObject(Pairs(cells).value));
      case EndArray(n) =>
        var elements := Pop(n);
        assert stack[..|stack| - 1] == was[..|was| - n - 1];
        SetTop(JArray(elements));
      case Int(i) => Push(JNumber(FromInt(i)));
      case Uint(u) => Push(JNumber(FromUint(u)));
      case Int64(i) => Push(JNumber(FromInt64(i)));
      case Uint64(u) => Push(JNumber(FromUint64(u)));
    }

    /** A whole sequence of handler calls. */
    method HandleAll(events: seq<Event>)
      requires BuildAll(stack, events).Some?
      modifies this
      ensures Some(stack) == BuildAll(old(stack), events)
    {
      hide Build;
      var i := 0;
      assert events[0..] == events;
      while i < |events|
        invariant 0 <= i <= |events|
        invariant BuildAll(stack, events[i..]) == BuildAll(old(stack), events)
      {
        assert events[i..][1..] == events[i + 1..];
        Handle(events[i]);
        i := i + 1;
      }
    }
  }
}
