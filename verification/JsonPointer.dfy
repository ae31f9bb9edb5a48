/**
 Resolving and creating values through a JSON Pointer, after include/rapidjson/pointer.h.  A node of
 a tree is named by its path: which element or which member is taken at each level.
 */
module JsonPointer {
  import JsonGrammar
  import opened JsonDom
  import opened Wrappers

  const INVALID_INDEX := 0xFFFF_FFFF

  /** A name and, if the name reads as one, an array index. */
  datatype Token = Token(name: string, index: nat)

  datatype Step = Item(i: nat) | Entry(i: nat)

  predicate AllDigits(name: string) {
    forall i :: 0 <= i < |name| ==> JsonGrammar.IsDigit(name[i])
  }

  /** The conversion as written: 32-bit arithmetic, and a step that comes out smaller counts as overflow. */
  function Accumulate(name: string, j: nat, n: nat): nat
    requires AllDigits(name) && j <= |name|
    decreases |name| - j
  {
    if j == |name| then n
    else
      var m := (n * 10 + JsonGrammar.DigitValue(name[j])) % 0x1_0000_0000;
      if m < n then INVALID_INDEX else Accumulate(name, j + 1, m)
  }

  /** The index `Parse` gives a token: digits only, and no leading zero. */
  function IndexOf(name: string): nat {
    if name == [] || !AllDigits(name) || (|name| > 1 && name[0] == '0') then INVALID_INDEX
    else Accumulate(name, 0, 0)
  }

  /** A pointer as `Parse` makes it. */
  predicate AsParsed(tokens: seq<Token>) {
    forall i :: 0 <= i < |tokens| ==> tokens[i].index == IndexOf(tokens[i].name)
  }

  // ---------------------------------------------------------------------------------------------
  // Which names become their number

  /** The digit at k makes the number smaller once it is cut to 32 bits, which is all that the check sees. */
  ghost predicate Shrinks(name: string, k: nat)
    requires AllDigits(name) && k < |name|
  {
    JsonGrammar.Decimal(name[..k + 1]) % 0x1_0000_0000 < JsonGrammar.Decimal(name[..k]) % 0x1_0000_0000
  }

  ghost predicate ShrinksFrom(name: string, j: nat)
    requires AllDigits(name)
  {
    exists k :: j <= k < |name| && Shrinks(name, k)
  }

  /** The conversion gives the number cut to 32 bits, unless the check stops it. */
  lemma {:induction false} AccumulateMeaning(name: string, j: nat)
    requires AllDigits(name) && j <= |name|
    ensures Accumulate(name, j, JsonGrammar.Decimal(name[..j]) % 0x1_0000_0000)
      == if ShrinksFrom(name, j) then INVALID_INDEX else JsonGrammar.Decimal(name) % 0x1_0000_0000
    decreases |name| - j
  {
    if j < |name| {
      hide Accumulate;
      hide JsonGrammar.Decimal;
      hide AllDigits;
      hide JsonGrammar.DigitValue;
      var n := JsonGrammar.Decimal(name[..j]);
      DecimalStep(name, j);
      CutStep(n, JsonGrammar.DigitValue(name[j]));
      AccumulateStep(name, j, n % 0x1_0000_0000);
      AccumulateMeaning(name, j + 1);
      assert ShrinksFrom(name, j) <==> Shrinks(name, j) || ShrinksFrom(name, j + 1);
    } else {
      assert name[..j] == name;
    }
  }

  lemma CutStep(n: nat, digit: nat)
    ensures (n % 0x1_0000_0000 * 10 + digit) % 0x1_0000_0000 == (n * 10 + digit) % 0x1_0000_0000
  {
    var q := n / 0x1_0000_0000;
    assert n * 10 + digit == n % 0x1_0000_0000 * 10 + digit + 0x1_0000_0000 * (10 * q);
  }

  predicate IsNumber(name: string) {
    name != [] && AllDigits(name) && (|name| > 1 ==> name[0] != '0')
  }

  /** The index of a number of any length. */
  lemma IndexMeaning(name: string)
    requires IsNumber(name)
    ensures IndexOf(name) == if ShrinksFrom(name, 0) then INVALID_INDEX else JsonGrammar.Decimal(name) % 0x1_0000_0000
  {
    assert name[..0] == [];
    AccumulateMeaning(name, 0);
  }

  /** The index is the number exactly when it fits 32 bits; the largest of these is the marker itself. */
  lemma IndexIsDecimal(name: string)
    requires IsNumber(name)
    ensures IndexOf(name) == JsonGrammar.Decimal(name) <==> JsonGrammar.Decimal(name) <= INVALID_INDEX
  {
    hide IndexOf;
    hide JsonGrammar.Decimal;
    IndexMeaning(name);
    if JsonGrammar.Decimal(name) <= INVALID_INDEX {
      forall k | 0 <= k < |name| ensures !Shrinks(name, k) {
        PrefixIsSmaller(name, k + 1);
        DecimalStep(name, k);
      }
    }
  }

  /**
   Of the numbers of ten digits, those beyond 32 bits that the check catches.  Any other is taken for the
   index that is left after cutting.
   */
  lemma TenDigitsRejected(name: string)
    requires IsNumber(name) && |name| == 10
    ensures var v := JsonGrammar.Decimal(name);
      && (IndexOf(name) == INVALID_INDEX <==> INVALID_INDEX <= v < 4772185884 || 0x1_FFFF_FFFF <= v < 9544371768)
      && (IndexOf(name) != INVALID_INDEX ==> IndexOf(name) == v % 0x1_0000_0000)
  {
    hide IndexOf;
    hide JsonGrammar.Decimal;
    IndexMeaning(name);
    var v, w := JsonGrammar.Decimal(name), JsonGrammar.Decimal(name[..9]);
    DecimalBelow(name[..9]);
    TenIsBillion();
    assert name[..10] == name;
    DecimalStep(name, 9);
    LastCut(v, w);
    forall k | 0 <= k < 9 ensures !Shrinks(name, k) {
      NineDigitsFit(name, k);
    }
    assert ShrinksFrom(name, 0) <==> Shrinks(name, 9);
  }

  lemma NineDigitsFit(name: string, k: nat)
    requires AllDigits(name) && k < 9 < |name| && JsonGrammar.Decimal(name[..9]) < 1_000_000_000
    ensures !Shrinks(name, k)
  {
    hide JsonGrammar.Decimal;
    assert name[..9][..k + 1] == name[..k + 1];
    PrefixIsSmaller(name[..9], k + 1);
    DecimalStep(name, k);
  }

  lemma LastCut(v: nat, w: nat)
    requires w < 1_000_000_000 && w * 10 <= v < w * 10 + 10
    ensures v % 0x1_0000_0000 < w % 0x1_0000_0000
      <==> 0x1_0000_0000 <= v < 4772185884 || 0x2_0000_0000 <= v < 9544371768
    ensures v % 0x1_0000_0000 == INVALID_INDEX <==> v == INVALID_INDEX || v == 0x1_FFFF_FFFF
  {
    var q := if v < 0x1_0000_0000 then 0 else if v < 0x2_0000_0000 then 1 else 2;
    assert v % 0x1_0000_0000 == v - q * 0x1_0000_0000;
  }

  function Ten(k: nat): nat {
    if k == 0 then 1 else 10 * Ten(k - 1)
  }

  lemma {:induction false} DecimalBelow(s: string)
    requires AllDigits(s)
    ensures JsonGrammar.Decimal(s) < Ten(|s|)
  {
    if s != [] {
      DecimalBelow(s[..|s| - 1]);
    }
  }

  lemma DecimalStep(name: string, j: nat)
    requires AllDigits(name) && j < |name|
    ensures JsonGrammar.Decimal(name[..j + 1]) == JsonGrammar.Decimal(name[..j]) * 10 + JsonGrammar.DigitValue(name[j])
  {
    assert name[..j + 1][..j] == name[..j];
  }

  lemma {:induction false} PrefixIsSmaller(name: string, j: nat)
    requires AllDigits(name) && j <= |name|
    ensures JsonGrammar.Decimal(name[..j]) <= JsonGrammar.Decimal(name)
    decreases |name| - j
  {
    if j < |name| {
      assert name[..j + 1][..j] == name[..j];
      PrefixIsSmaller(name, j + 1);
    } else {
      assert name[..j] == name;
    }
  }

  /** So 5000000000 becomes the index 705032704. */
  lemma OverflowCheckMisses()
    ensures IndexOf("5000000000") == 705032704
  {
    assert "5" + Zeros(9) == "5000000000";
    hide *;
    FiveAndZeros(9);
    TenIsBillion();
    FiveBillion("5" + Zeros(9));
  }

  lemma FiveBillion(name: string)
    requires AllDigits(name) && |name| == 10 && name[0] == '5' && JsonGrammar.Decimal(name) == 5_000_000_000
    ensures IndexOf(name) == 705032704
  {
    hide IndexOf;
    hide JsonGrammar.Decimal;
    TenDigitsRejected(name);
  }

  lemma TenIsBillion()
    ensures Ten(9) == 1_000_000_000
  {
    assert Ten(5) == 100_000;
  }

  function Zeros(k: nat): string {
    seq(k, i => '0')
  }

  lemma {:induction false} FiveAndZeros(k: nat)
    ensures AllDigits("5" + Zeros(k)) && JsonGrammar.Decimal("5" + Zeros(k)) == 5 * Ten(k)
  {
    if k > 0 {
      assert ("5" + Zeros(k))[..k] == "5" + Zeros(k - 1);
      FiveAndZeros(k - 1);
    }
  }

  lemma AccumulateStep(name: string, j: nat, n: nat)
    requires AllDigits(name) && j < |name|
    ensures var m := (n * 10 + JsonGrammar.DigitValue(name[j])) % 0x1_0000_0000;
      Accumulate(name, j, n) == if m < n then INVALID_INDEX else Accumulate(name, j + 1, m)
  {
  }

  lemma DashHasNoIndex(t: Token)
    requires IsDash(t)
    ensures IndexOf(t.name) == INVALID_INDEX
  {
    assert !JsonGrammar.IsDigit(t.name[0]);
  }

  // ---------------------------------------------------------------------------------------------
  // Nodes

  function Child(v: Json, s: Step): Option<Json> {
    match s
    case Item(i) => if v.JArray? && i < |v.items| then Some(v.items[i]) else None
    case Entry(i) => if v.JObject? && i < |v.members| then Some(v.members[i].value) else None
  }

  function At(v: Json, path: seq<Step>): Option<Json>
    decreases |path|
  {
    if path == [] then Some(v)
    else
      var c := Child(v, path[0]);
      if c.None? then None else At(c.value, path[1..])
  }

  function WithChild(v: Json, s: Step, x: Json): (w: Json)
    requires Child(v, s).Some?
    ensures Child(w, s) == Some(x)
    ensures forall other :: other != s ==> Child(w, other) == Child(v, other)
  {
    if v.JArray? then JArray(v.items[s.i := x])
    else JObject(v.members[s.i := v.members[s.i].(value := x)])
  }

  function Replace(v: Json, path: seq<Step>, x: Json): Json
    requires At(v, path).Some?
    decreases |path|
  {
    if path == [] then x
    else WithChild(v, path[0], Replace(Child(v, path[0]).value, path[1..], x))
  }

  // ---------------------------------------------------------------------------------------------
  // Resolving

  /** The first member of a name at or after position i. */
  function FindFrom(members: seq<Member>, name: string, i: nat): (r: Option<nat>)
    requires i <= |members|
    ensures r.Some? ==> i <= r.value < |members| && members[r.value].name == name
    ensures forall k :: i <= k < (if r.Some? then r.value else |members|) ==> members[k].name != name
    decreases |members| - i
  {
    if i == |members| then None
    else if members[i].name == name then Some(i)
    else FindFrom(members, name, i + 1)
  }

  function FindMember(members: seq<Member>, name: string): (r: Option<nat>) {
    FindFrom(members, name, 0)
  }

  /** One token of `Get`. */
  function Resolve(v: Json, t: Token): (r: Option<Step>)
    ensures r.Some? ==> Child(v, r.value).Some?
  {
    if v.JObject? then
      var m := FindMember(v.members, t.name);
      if m.None? then None else Some(Entry(m.value))
    else if v.JArray? then
      if t.index == INVALID_INDEX || t.index >= |v.items| then None else Some(Item(t.index))
    else None
  }

  function Get(v: Json, tokens: seq<Token>): (r: Option<seq<Step>>)
    ensures r.Some? ==> |r.value| == |tokens| && At(v, r.value).Some?
    decreases |tokens|
  {
    if tokens == [] then Some([])
    else
      var s := Resolve(v, tokens[0]);
      if s.None? then None
      else
        var rest := Get(Child(v, s.value).value, tokens[1..]);
        if rest.None? then None else Some([s.value] + rest.value)
  }

  // ---------------------------------------------------------------------------------------------
  // Creating

  /** A container in which a token has a place: the place, and whether it was there before. */
  datatype Room = Room(v: Json, step: Step, existed: bool)

  predicate IsDash(t: Token) {
    t.name == "-"
  }

  /** The change of type a token asks for. */
  function Coerce(v: Json, t: Token): Json {
    if t.index == INVALID_INDEX then
      if v.JObject? then v else JObject([])
    else
      if !v.JArray? && !v.JObject? then JArray([]) else v
  }

  function Nulls(n: nat): (s: seq<Json>)
    ensures |s| == n && forall i :: 0 <= i < n ==> s[i] == JNull
  {
    seq(n, i => JNull)
  }

  /** One token of `Create`. */
  function MakeRoom(v: Json, t: Token): (r: Room)
    ensures Child(r.v, r.step).Some?
    ensures !r.existed ==> Child(r.v, r.step) == Some(JNull)
  {
    if v.JArray? && IsDash(t) then Room(JArray(v.items + [JNull]), Item(|v.items|), false)
    else
      var u := Coerce(v, t);
      if u.JArray? then
        if t.index < |u.items| then Room(u, Item(t.index), true)
        else Room(JArray(u.items + Nulls(t.index + 1 - |u.items|)), Item(t.index), false)
      else
        var m := FindMember(u.members, t.name);
        if m.None? then Room(JObject(u.members + [Member(t.name, JNull)]), Entry(|u.members|), false)
        else Room(u, Entry(m.value), true)
  }

  /** The tree afterwards, the node, and whether it was there before. */
  datatype Created = Created(root: Json, path: seq<Step>, existed: bool)

  function Create(v: Json, tokens: seq<Token>): Created
    decreases |tokens|
  {
    if tokens == [] then Created(v, [], true)
    else
      var r := MakeRoom(v, tokens[0]);
      var sub := Create(Child(r.v, r.step).value, tokens[1..]);
      Created(WithChild(r.v, r.step, sub.root), [r.step] + sub.path, r.existed && sub.existed)
  }

  /** When a token's place was there before, nothing changes and it is the one the token resolves to. */
  lemma RoomExisted(v: Json, t: Token)
    ensures var r := MakeRoom(v, t); r.existed ==> r.v == v && Resolve(v, t) == Some(r.step)
  {
  }

  lemma NullIsNew(tokens: seq<Token>)
    ensures Create(JNull, tokens).existed <==> tokens == []
  {
  }

  /** The created node: the value that was there, or a null. */
  lemma {:induction false} CreatedNode(v: Json, tokens: seq<Token>)
    ensures var c := Create(v, tokens);
      && |c.path| == |tokens|
      && At(c.root, c.path).Some?
      && At(c.root, c.path) == (if c.existed then At(v, c.path) else Some(JNull))
    decreases |tokens|
  {
    if tokens != [] {
      var r := MakeRoom(v, tokens[0]);
      var child := Child(r.v, r.step).value;
      CreatedNode(child, tokens[1..]);
      var c, sub := Create(v, tokens), Create(child, tokens[1..]);
      assert c.path[0] == r.step && c.path[1..] == sub.path;
      RoomExisted(v, tokens[0]);
      NullIsNew(tokens[1..]);
    }
  }

  /** `Create` and then store a value in the node. */
  function Set(v: Json, tokens: seq<Token>, x: Json): Json {
    CreatedNode(v, tokens);
    Replace(Create(v, tokens).root, Create(v, tokens).path, x)
  }

  // ---------------------------------------------------------------------------------------------
  // Create, then get

  /** While the pointer resolves, it comes to an array with the token "-", which appends. */
  predicate DashMeetsArray(v: Json, tokens: seq<Token>)
    decreases |tokens|
  {
    tokens != [] &&
    if v.JArray? && IsDash(tokens[0]) then true
    else
      var s := Resolve(v, tokens[0]);
      s.Some? && DashMeetsArray(Child(v, s.value).value, tokens[1..])
  }

  /** Which child a token resolves to does not depend on what the children are. */
  lemma ResolveWithChild(v: Json, s: Step, x: Json, t: Token)
    requires Child(v, s).Some?
    ensures Resolve(WithChild(v, s, x), t) == Resolve(v, t)
  {
  }

  lemma RoomResolves(v: Json, t: Token)
    requires t.index == IndexOf(t.name)
    ensures var r := MakeRoom(v, t);
      && (r.existed <==> Resolve(v, t).Some?)
      && (Resolve(r.v, t) == Some(r.step) <==> !(v.JArray? && IsDash(t)))
      && (v.JArray? && IsDash(t) ==> Resolve(r.v, t).None?)
  {
    if IsDash(t) {
      DashHasNoIndex(t);
    }
  }

  /** `alreadyExist` is true exactly when `Get` resolved beforehand, and then nothing has changed. */
  lemma {:induction false} ExistedMeansResolved(v: Json, tokens: seq<Token>)
    requires AsParsed(tokens)
    ensures var c := Create(v, tokens);
      && (c.existed <==> Get(v, tokens).Some?)
      && (c.existed ==> c.root == v && Get(v, tokens) == Some(c.path))
    decreases |tokens|
  {
    if tokens != [] {
      var r := MakeRoom(v, tokens[0]);
      RoomExisted(v, tokens[0]);
      RoomResolves(v, tokens[0]);
      ExistedMeansResolved(Child(r.v, r.step).value, tokens[1..]);
      if r.existed {
        SameChild(v, r.step);
      }
    }
  }

  lemma SameChild(v: Json, s: Step)
    requires Child(v, s).Some?
    ensures WithChild(v, s, Child(v, s).value) == v
  {
  }

  /** After `Create`, `Get` resolves to the created node exactly when no "-" has met an array. */
  lemma {:induction false} GetAfterCreate(v: Json, tokens: seq<Token>)
    requires AsParsed(tokens)
    ensures var c := Create(v, tokens);
      && (Get(c.root, tokens) == Some(c.path) <==> !DashMeetsArray(v, tokens))
      && (DashMeetsArray(v, tokens) ==> Get(c.root, tokens).None?)
    decreases |tokens|
  {
    if tokens != [] {
      var t := tokens[0];
      var r := MakeRoom(v, t);
      var child := Child(r.v, r.step).value;
      var sub := Create(child, tokens[1..]);
      RoomExisted(v, t);
      RoomResolves(v, t);
      ResolveWithChild(r.v, r.step, sub.root, t);
      GetAfterCreate(child, tokens[1..]);
      if !r.existed {
        NoArrayInNull(tokens[1..]);
      }
    }
  }

  /** "-" on an empty array adds an element that the same pointer does not find. */
  lemma DashIsNotFound()
    ensures var tokens := [Token("-", IndexOf("-"))];
      && Create(JArray([]), tokens) == Created(JArray([JNull]), [Item(0)], false)
      && Get(JArray([JNull]), tokens) == None
  {
    var t := Token("-", IndexOf("-"));
    assert [t][1..] == [];
    DashHasNoIndex(t);
  }

  lemma NoArrayInNull(tokens: seq<Token>)
    ensures !DashMeetsArray(JNull, tokens)
  {
  }

  /** Creating twice is creating once. */
  lemma CreateTwice(v: Json, tokens: seq<Token>)
    requires AsParsed(tokens) && !DashMeetsArray(v, tokens)
    ensures var c := Create(v, tokens);
      Create(c.root, tokens) == Created(c.root, c.path, true)
  {
    GetAfterCreate(v, tokens);
    ExistedMeansResolved(Create(v, tokens).root, tokens);
  }

  // ---------------------------------------------------------------------------------------------
  // What stays

  /** While the pointer resolves, it comes to an array with elements and a name: the array is dropped. */
  predicate DropsElements(v: Json, tokens: seq<Token>)
    decreases |tokens|
  {
    tokens != [] &&
    var t := tokens[0];
    if v.JArray? && IsDash(t) then false
    else if v.JArray? && v.items != [] && t.index == INVALID_INDEX then true
    else
      var s := Resolve(v, t);
      s.Some? && DropsElements(Child(v, s.value).value, tokens[1..])
  }

  lemma RoomKeeps(v: Json, t: Token, s: Step, q: Token)
    requires !(v.JArray? && v.items != [] && t.index == INVALID_INDEX && !IsDash(t))
    requires Resolve(v, q) == Some(s)
    ensures var r := MakeRoom(v, t);
      && Child(r.v, s) == Child(v, s)
      && Resolve(r.v, q) == Some(s)
      && (s == r.step ==> r.existed)
  {
  }

  /** A pointer that resolved still resolves to the same place, with the same value unless it is above the new node. */
  lemma {:induction false} OthersStay(v: Json, tokens: seq<Token>, q: seq<Token>)
    requires !DropsElements(v, tokens) && Get(v, q).Some?
    ensures var c, place := Create(v, tokens), Get(v, q).value;
      && Get(c.root, q) == Some(place)
      && (!(place <= c.path) ==> At(c.root, place) == At(v, place))
    decreases |tokens|
  {
    if tokens != [] && q != [] {
      var t, s := tokens[0], Resolve(v, q[0]).value;
      var r := MakeRoom(v, t);
      var child := Child(r.v, r.step).value;
      var c, sub := Create(v, tokens), Create(child, tokens[1..]);
      RoomKeeps(v, t, s, q[0]);
      RoomExisted(v, t);
      ResolveWithChild(r.v, r.step, sub.root, q[0]);
      var place := Get(v, q).value;
      assert place[0] == s && place[1..] == Get(Child(v, s).value, q[1..]).value;
      assert c.path[0] == r.step && c.path[1..] == sub.path;
      if s == r.step {
        OthersStay(child, tokens[1..], q[1..]);
      }
    }
  }

  /** An element that is lost. */
  lemma {:induction false} LostElement(v: Json, tokens: seq<Token>) returns (q: seq<Token>)
    requires AsParsed(tokens) && DropsElements(v, tokens)
    ensures Get(v, q).Some? && Get(Create(v, tokens).root, q).None?
    decreases |tokens|
  {
    var t := tokens[0];
    var r := MakeRoom(v, t);
    var sub := Create(Child(r.v, r.step).value, tokens[1..]);
    ResolveWithChild(r.v, r.step, sub.root, t);
    if v.JArray? && v.items != [] && t.index == INVALID_INDEX {
      var zero := Token("0", 0);
      q := [zero];
      ResolveWithChild(r.v, r.step, sub.root, zero);
      assert Get(v.items[0], q[1..]) == Some([]);
    } else {
      RoomExisted(v, t);
      RoomResolves(v, t);
      var rest := LostElement(Child(v, r.step).value, tokens[1..]);
      q := [t] + rest;
      assert q[1..] == rest;
    }
  }

  /** `Create` leaves every other pointer alone exactly when it drops no elements. */
  lemma CreateKeepsOthers(v: Json, tokens: seq<Token>)
    requires AsParsed(tokens)
    ensures (forall q :: Get(v, q).Some? ==> Get(Create(v, tokens).root, q) == Get(v, q)) <==> !DropsElements(v, tokens)
  {
    if DropsElements(v, tokens) {
      var q := LostElement(v, tokens);
      assert Get(v, q).Some?;
    } else {
      forall q | Get(v, q).Some? ensures Get(Create(v, tokens).root, q) == Get(v, q) {
        OthersStay(v, tokens, q);
      }
    }
  }

  // ---------------------------------------------------------------------------------------------
  // Set, then get

  lemma {:induction false} AtReplaced(v: Json, path: seq<Step>, x: Json)
    requires At(v, path).Some?
    ensures At(Replace(v, path, x), path) == Some(x)
    decreases |path|
  {
    if path != [] {
      AtReplaced(Child(v, path[0]).value, path[1..], x);
    }
  }

  /** Pointers into the replaced node apart, every pointer resolves as before. */
  lemma {:induction false} GetReplaced(v: Json, path: seq<Step>, x: Json, q: seq<Token>)
    requires At(v, path).Some? && Get(v, q).Some? && !(path < Get(v, q).value)
    ensures var w, place := Replace(v, path, x), Get(v, q).value;
      && Get(w, q) == Some(place)
      && (!(place <= path) ==> At(w, place) == At(v, place))
    decreases |path|
  {
    if path != [] && q != [] {
      var s, place := Resolve(v, q[0]).value, Get(v, q).value;
      assert place[0] == s && place[1..] == Get(Child(v, s).value, q[1..]).value;
      var inner := Replace(Child(v, path[0]).value, path[1..], x);
      ResolveWithChild(v, path[0], inner, q[0]);
      if s == path[0] {
        GetReplaced(Child(v, s).value, path[1..], x, q[1..]);
      }
    }
  }

  /** What has been set is what `Get` finds. */
  lemma SetThenGet(v: Json, tokens: seq<Token>, x: Json)
    requires AsParsed(tokens) && !DashMeetsArray(v, tokens)
    ensures var w, path := Set(v, tokens, x), Create(v, tokens).path;
      Get(w, tokens) == Some(path) && At(w, path) == Some(x)
  {
    var c := Create(v, tokens);
    CreatedNode(v, tokens);
    GetAfterCreate(v, tokens);
    AtReplaced(c.root, c.path, x);
    GetReplaced(c.root, c.path, x, tokens);
  }

  /** Pointers neither above nor below the node that is set keep their values. */
  lemma SetKeepsOthers(v: Json, tokens: seq<Token>, x: Json, q: seq<Token>)
    requires !DropsElements(v, tokens) && Get(v, q).Some?
    requires var place, path := Get(v, q).value, Create(v, tokens).path; !(place <= path) && !(path <= place)
    ensures var w, place := Set(v, tokens, x), Get(v, q).value;
      Get(w, q) == Some(place) && At(w, place) == At(v, place)
  {
    var c := Create(v, tokens);
    CreatedNode(v, tokens);
    OthersStay(v, tokens, q);
    GetReplaced(c.root, c.path, x, q);
  }

  // ---------------------------------------------------------------------------------------------
  // The loops

  /** Replacing a node and then a child of it is replacing the node with that child in place. */
  lemma {:induction false} ReplaceTwice(v: Json, path: seq<Step>, u: Json, s: Step, x: Json)
    requires At(v, path).Some? && Child(u, s).Some?
    ensures var w := Replace(v, path, u);
      && At(w, path + [s]) == Child(u, s)
      && Replace(w, path + [s], x) == Replace(v, path, WithChild(u, s, x))
    decreases |path|
  {
    if path == [] {
      assert [s][1..] == [];
    } else {
      ReplaceTwice(Child(v, path[0]).value, path[1..], u, s, x);
      assert (path + [s])[1..] == path[1..] + [s];
      WithChildTwice(v, path[0], Replace(Child(v, path[0]).value, path[1..], u),
                     Replace(Child(v, path[0]).value, path[1..], WithChild(u, s, x)));
    }
  }

  lemma WithChildTwice(v: Json, s: Step, x: Json, y: Json)
    requires Child(v, s).Some?
    ensures WithChild(WithChild(v, s, x), s, y) == WithChild(v, s, y)
  {
  }

  lemma {:induction false} ReplaceItself(v: Json, path: seq<Step>)
    requires At(v, path).Some?
    ensures Replace(v, path, At(v, path).value) == v
    decreases |path|
  {
    if path != [] {
      ReplaceItself(Child(v, path[0]).value, path[1..]);
      SameChild(v, path[0]);
    }
  }

  lemma {:induction false} AtStep(v: Json, path: seq<Step>, s: Step)
    requires At(v, path).Some?
    ensures At(v, path + [s]) == Child(At(v, path).value, s)
    decreases |path|
  {
    if path != [] {
      AtStep(Child(v, path[0]).value, path[1..], s);
      assert (path + [s])[1..] == path[1..] + [s];
    }
  }

  /** Pads an array with nulls until it has an index. */
  method PushNulls(items: seq<Json>, index: nat) returns (padded: seq<Json>)
    requires |items| <= index
    ensures padded == items + Nulls(index + 1 - |items|)
  {
    padded := items;
    while index >= |padded|
      invariant |items| <= |padded| <= index + 1
      invariant padded == items + Nulls(|padded| - |items|)
      decreases index + 1 - |padded|
    {
      padded := padded + [JNull];
    }
  }

  method FindMemberLoop(members: seq<Member>, name: string) returns (r: Option<nat>)
    ensures r == FindMember(members, name)
  {
    var m := 0;
    while m < |members|
      invariant 0 <= m <= |members|
      invariant FindFrom(members, name, 0) == FindFrom(members, name, m)
    {
      if members[m].name == name {
        return Some(m);
      }
      m := m + 1;
    }
    return None;
  }

  /** One round of the loop of `Create`, on the node it has reached. */
  method Enter(v: Json, t: Token) returns (u: Json, s: Step, existed: bool)
    ensures MakeRoom(v, t) == Room(u, s, existed)
  {
    existed := true;
    u := v;
    if u.JArray? && t.name == "-" {
      u := JArray(u.items + [JNull]);
      s := Item(|u.items| - 1);
      existed := false;
    } else {
      if t.index == INVALID_INDEX {
        if !u.JObject? {
          u := JObject([]);
        }
      } else {
        if !u.JArray? && !u.JObject? {
          u := JArray([]);
        }
      }
      if u.JArray? {
        if t.index >= |u.items| {
          var padded := PushNulls(u.items, t.index);
          u := JArray(padded);
          existed := false;
        }
        s := Item(t.index);
      } else {
        var m := FindMemberLoop(u.members, t.name);
        if m.None? {
          u := JObject(u.members + [Member(t.name, JNull)]);
          s := Entry(|u.members| - 1);
          existed := false;
        } else {
          s := Entry(m.value);
        }
      }
    }
  }

  /** A tree whose root is updated in place. */
  class Tree {
    var root: Json

    constructor (root: Json)
      ensures this.root == root
    {
      this.root := root;
    }

    /** Walks down the tokens, making room on the way. */
    method CreateValue(tokens: seq<Token>) returns (path: seq<Step>, alreadyExist: bool)
      modifies this
      ensures Create(old(root), tokens) == Created(root, path, alreadyExist)
    {
      hide MakeRoom;
      hide Replace;
      hide At;
      hide WithChild;
      ghost var goal := Create(root, tokens);
      path, alreadyExist := [], true;
      var k := 0;
      Outset(root, tokens);
      while k < |tokens|
        invariant 0 <= k <= |tokens|
        invariant At(root, path).Some?
        invariant Onward(root, path, alreadyExist, tokens[k..]) == goal
      {
        var u, s, existed := Enter(At(root, path).value, tokens[k]);
        Advance(root, path, alreadyExist, tokens[k..], u, s, existed);
        assert tokens[k..][1..] == tokens[k + 1..];
        root := Replace(root, path, u);
        path := path + [s];
        alreadyExist := alreadyExist && existed;
        k := k + 1;
      }
      Arrival(root, path, alreadyExist);
    }

    /** Follows the tokens; when one does not resolve, says which. */
    method GetValue(tokens: seq<Token>) returns (path: Option<seq<Step>>, unresolvedTokenIndex: nat)
      ensures path == Get(root, tokens)
      ensures path.None? ==>
        && unresolvedTokenIndex < |tokens|
        && Get(root, tokens[..unresolvedTokenIndex]).Some?
        && Get(root, tokens[..unresolvedTokenIndex + 1]).None?
    {
      hide Resolve;
      hide At;
      var v, steps := root, [];
      var k := 0;
      GetNothing(root, tokens);
      while k < |tokens|
        invariant 0 <= k <= |tokens|
        invariant Get(root, tokens[..k]) == Some(steps) && At(root, steps) == Some(v)
      {
        var s := Resolve(v, tokens[k]);
        assert tokens[..k + 1] == tokens[..k] + [tokens[k]];
        GetOneMore(root, tokens[..k], tokens[k]);
        if s.None? {
          GetCutShort(root, tokens, k + 1);
          return None, k;
        }
        AtStep(root, steps, s.value);
        v := Child(v, s.value).value;
        steps := steps + [s.value];
        k := k + 1;
      }
      assert tokens[..|tokens|] == tokens;
      return Some(steps), 0;
    }
  }

  /** What is still to be created below the node reached, put in its place. */
  ghost function Onward(root: Json, path: seq<Step>, existed: bool, tokens: seq<Token>): Created
    requires At(root, path).Some?
  {
    var c := Create(At(root, path).value, tokens);
    Created(Replace(root, path, c.root), path + c.path, existed && c.existed)
  }

  lemma Outset(root: Json, tokens: seq<Token>)
    ensures At(root, []) == Some(root) && Onward(root, [], true, tokens[0..]) == Create(root, tokens)
  {
    assert tokens[0..] == tokens;
    assert [] + Create(root, tokens).path == Create(root, tokens).path;
  }

  lemma Advance(root: Json, path: seq<Step>, existed: bool, tokens: seq<Token>, u: Json, s: Step, there: bool)
    requires At(root, path).Some? && tokens != []
    requires MakeRoom(At(root, path).value, tokens[0]) == Room(u, s, there)
    ensures At(Replace(root, path, u), path + [s]).Some?
    ensures Onward(Replace(root, path, u), path + [s], existed && there, tokens[1..])
      == Onward(root, path, existed, tokens)
  {
    hide MakeRoom;
    hide Replace;
    hide At;
    hide WithChild;
    var below := Create(Child(u, s).value, tokens[1..]);
    ReplaceTwice(root, path, u, s, below.root);
    assert (path + [s]) + below.path == path + ([s] + below.path);
  }

  lemma Arrival(root: Json, path: seq<Step>, existed: bool)
    requires At(root, path).Some?
    ensures Onward(root, path, existed, []) == Created(root, path, existed)
  {
    ReplaceItself(root, path);
  }

  lemma GetNothing(root: Json, tokens: seq<Token>)
    ensures Get(root, tokens[..0]) == Some([]) && At(root, []) == Some(root)
  {
  }

  lemma {:induction false} GetOneMore(v: Json, tokens: seq<Token>, t: Token)
    requires Get(v, tokens).Some?
    ensures var s := Resolve(At(v, Get(v, tokens).value).value, t);
      Get(v, tokens + [t]) == if s.None? then None else Some(Get(v, tokens).value + [s.value])
    decreases |tokens|
  {
    hide Resolve;
    hide Child;
    if tokens == [] {
      assert tokens + [t] == [t] && [t][1..] == [];
      var next := Resolve(v, t);
      if next.Some? {
        assert [next.value] + [] == [] + [next.value];
      }
    } else {
      var s := Resolve(v, tokens[0]).value;
      GetOneMore(Child(v, s).value, tokens[1..], t);
      assert (tokens + [t])[1..] == tokens[1..] + [t];
      var rest := Get(Child(v, s).value, tokens[1..]).value;
      assert Get(v, tokens).value == [s] + rest && ([s] + rest)[1..] == rest;
      var next := Resolve(At(Child(v, s).value, rest).value, t);
      if next.Some? {
        assert [s] + (rest + [next.value]) == ([s] + rest) + [next.value];
      }
    }
  }

  lemma {:induction false} GetCutShort(v: Json, tokens: seq<Token>, k: nat)
    requires k <= |tokens| && Get(v, tokens[..k]).None?
    ensures Get(v, tokens).None?
    decreases |tokens|
  {
    if k > 0 {
      var s := Resolve(v, tokens[0]);
      if s.Some? {
        assert tokens[..k][1..] == tokens[1..][..k - 1];
        GetCutShort(Child(v, s.value).value, tokens[1..], k - 1);
      }
    }
  }
}
