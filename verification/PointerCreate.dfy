/**
 What `Create` of include/rapidjson/pointer.h makes, read off the root it leaves: one token at a time, and
 along a whole path from nothing.
 */
module PointerCreate {
  import opened JsonDom
  import opened JsonPointer
  import opened Wrappers
  import JsonGrammar
  import JsonRoundTrip

  predicate IsContainer(v: Json) {
    v.JArray? || v.JObject?
  }

  /** The token is an array index. */
  predicate HasIndex(t: Token) {
    t.index != INVALID_INDEX
  }

  /** The root after `Create`. */
  function Made(v: Json, tokens: seq<Token>): Json {
    Create(v, tokens).root
  }

  // ---------------------------------------------------------------------------------------------
  // One token

  /** "-" on an array: one item more, behind the others. */
  lemma DashAppends(items: seq<Json>, t: Token, rest: seq<Token>)
    requires t.name == "-"
    ensures Made(JArray(items), [t] + rest) == JArray(items + [Made(JNull, rest)])
    ensures Create(JArray(items), [t] + rest).path[0] == Item(|items|)
  {
    assert ([t] + rest)[1..] == rest;
  }

  /** An index on an array: the item there, or a new one with nulls up to it. */
  lemma IndexOnArray(items: seq<Json>, t: Token, rest: seq<Token>)
    requires t.name != "-" && HasIndex(t)
    ensures Create(JArray(items), [t] + rest).path[0] == Item(t.index)
    ensures t.index < |items| ==>
      Made(JArray(items), [t] + rest) == JArray(items[t.index := Made(items[t.index], rest)])
    ensures t.index >= |items| ==>
      var w := Made(JArray(items), [t] + rest);
      && w.JArray? && |w.items| == t.index + 1 && items <= w.items && w.items[t.index] == Made(JNull, rest)
      && forall k :: |items| <= k < t.index ==> w.items[k] == JNull
  {
    assert ([t] + rest)[1..] == rest;
  }

  /** A name on an array: the array gives way to an object with that one member. */
  lemma NameOnArray(items: seq<Json>, t: Token, rest: seq<Token>)
    requires t.name != "-" && !HasIndex(t)
    ensures Made(JArray(items), [t] + rest) == JObject([Member(t.name, Made(JNull, rest))])
    ensures Create(JArray(items), [t] + rest).path[0] == Entry(0)
  {
    assert ([t] + rest)[1..] == rest;
  }

  /** On an object every token is a member name: the first member of that name, or a new last one. */
  lemma AnyOnObject(members: seq<Member>, t: Token, rest: seq<Token>, k: nat)
    requires k <= |members| && (k < |members| ==> members[k].name == t.name)
    requires forall i :: 0 <= i < k ==> members[i].name != t.name
    ensures Create(JObject(members), [t] + rest).path[0] == Entry(k)
    ensures Made(JObject(members), [t] + rest) ==
      if k < |members| then JObject(members[k := Member(t.name, Made(members[k].value, rest))])
      else JObject(members + [Member(t.name, Made(JNull, rest))])
  {
    assert ([t] + rest)[1..] == rest;
    assert k < |members| ==> members[k] == Member(t.name, members[k].value);
  }

  /** Anything else gives way: to an array with nulls before the new item, or to an object with one member. */
  lemma AnyOnOther(v: Json, t: Token, rest: seq<Token>)
    requires !IsContainer(v)
    ensures HasIndex(t) ==>
      var w := Made(v, [t] + rest);
      && w.JArray? && |w.items| == t.index + 1 && w.items[t.index] == Made(JNull, rest)
      && (forall k :: 0 <= k < t.index ==> w.items[k] == JNull)
      && Create(v, [t] + rest).path[0] == Item(t.index)
    ensures !HasIndex(t) ==>
      && Made(v, [t] + rest) == JObject([Member(t.name, Made(JNull, rest))])
      && Create(v, [t] + rest).path[0] == Entry(0)
  {
    assert ([t] + rest)[1..] == rest;
  }

  /** Without tokens nothing is made. */
  lemma NothingMade(v: Json)
    ensures Create(v, []) == Created(v, [], true)
  {
  }

  // ---------------------------------------------------------------------------------------------
  // A whole path

  /** Along the path: the node the first k tokens lead to is the container the next one asks for, and nothing else. */
  ghost predicate MadeFor(w: Json, t: Token) {
    if HasIndex(t) then
      w.JArray? && |w.items| == t.index + 1 && forall k :: 0 <= k < t.index ==> w.items[k] == JNull
    else w.JObject? && |w.members| == 1 && w.members[0].name == t.name
  }

  /** From a value that is no container, each token makes the container it asks for, and the last holds a null. */
  lemma {:induction false} PathFromNothing(v: Json, tokens: seq<Token>, k: nat)
    requires !IsContainer(v) && k < |tokens|
    ensures var c := Create(v, tokens);
      && |c.path| == |tokens| && !c.existed
      && At(c.root, c.path[..k]).Some? && MadeFor(At(c.root, c.path[..k]).value, tokens[k])
      && c.path[k] == (if HasIndex(tokens[k]) then Item(tokens[k].index) else Entry(0))
      && At(c.root, c.path) == Some(JNull)
    decreases |tokens|
  {
    var t, rest := tokens[0], tokens[1..];
    assert tokens == [t] + rest;
    AnyOnOther(v, t, rest);
    CreatedNode(v, tokens);
    NewPath(v, tokens);
    var c, sub := Create(v, tokens), Create(JNull, rest);
    assert c.path == [c.path[0]] + sub.path;
    if k > 0 {
      PathFromNothing(JNull, rest, k - 1);
      assert c.path[..k] == [c.path[0]] + sub.path[..k - 1];
      assert c.path[..k][1..] == sub.path[..k - 1];
    }
  }

  lemma NewPath(v: Json, tokens: seq<Token>)
    requires !IsContainer(v) && tokens != []
    ensures !Create(v, tokens).existed
    ensures Create(v, tokens).path == [Create(v, tokens).path[0]] + Create(JNull, tokens[1..]).path
  {
  }

  // ---------------------------------------------------------------------------------------------
  // Which names are indices

  lemma NumeralIsNumber(n: nat)
    ensures IsNumber(Digits(n)) && JsonGrammar.Decimal(Digits(n)) == n
  {
    JsonRoundTrip.ReadDigits(n);
  }

  /** A number in its usual form is the index it says, if that fits. */
  lemma NumeralIsIndex(n: nat)
    requires n <= INVALID_INDEX
    ensures IndexOf(Digits(n)) == n
  {
    hide IndexOf, IsNumber, Digits, JsonGrammar.Decimal;
    NumeralIsNumber(n);
    IndexIsDecimal(Digits(n));
  }

  lemma {:induction false} NumberIsNumeral(name: string)
    requires IsNumber(name)
    ensures Digits(JsonGrammar.Decimal(name)) == name
  {
    var last := |name| - 1;
    if last == 0 {
      assert name[..0] == [];
      assert name == [name[0]];
    } else {
      var front := name[..last];
      assert front[0] == name[0];
      NumberIsNumeral(front);
      NumberIsPositive(front);
      var n := JsonGrammar.Decimal(front);
      assert JsonGrammar.Decimal(name) / 10 == n;
      assert name == front + [name[last]];
    }
  }

  lemma {:induction false} NumberIsPositive(name: string)
    requires IsNumber(name) && name[0] != '0'
    ensures JsonGrammar.Decimal(name) > 0
  {
    var last := |name| - 1;
    if last > 0 {
      assert name[..last][0] == name[0];
      NumberIsPositive(name[..last]);
    } else {
      assert name[..0] == [];
    }
  }

  /** Any other name has no index: not the empty one, nor one with another character or a leading zero. */
  lemma OnlyNumeralsAreIndices(name: string)
    requires forall n: nat :: name != Digits(n)
    ensures IndexOf(name) == INVALID_INDEX
  {
    if IsNumber(name) {
      NumberIsNumeral(name);
    }
  }
}
