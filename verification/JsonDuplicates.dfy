/**
 Objects with repeated names under the equality of include/rapidjson/document.h: when such an object is
 equal to itself, when it is equal to anything, and that equality is then one-sided.
 */
module JsonDuplicates {
  import opened Basics
  import opened Counting
  import opened JsonDom
  import opened JsonEquality
  import opened JsonPointer
  import opened Wrappers

  // ---------------------------------------------------------------------------------------------
  // Equal to itself

  predicate IsFirst(members: seq<Member>, i: nat)
    requires i < |members|
  {
    FindMember(members, members[i].name) == Some(i)
  }

  /** In every object, a repeated name has a value equal to the first value of that name. */
  predicate RepeatsFollowFirst(v: Json)
    decreases v
  {
    match v
    case JArray(items) => forall i :: 0 <= i < |items| ==> RepeatsFollowFirst(items[i])
    case JObject(members) =>
      forall i :: 0 <= i < |members| ==>
        if IsFirst(members, i) then RepeatsFollowFirst(members[i].value) else HasEqual(members[i], members)
    case _ => true
  }

  /** A value is equal to itself exactly when its repeats follow the first. */
  lemma {:induction false} EqualToItself(v: Json)
    ensures Equal(v, v) <==> RepeatsFollowFirst(v)
    decreases v
  {
    match v
    case JArray(items) =>
      forall i | 0 <= i < |items| ensures Equal(items[i], items[i]) <==> RepeatsFollowFirst(items[i]) {
        EqualToItself(items[i]);
      }
    case JObject(members) =>
      forall i | 0 <= i < |members| && IsFirst(members, i)
        ensures HasEqual(members[i], members) <==> RepeatsFollowFirst(members[i].value)
      {
        EqualToItself(members[i].value);
      }
    case _ =>
  }

  predicate RepeatsAgree(members: seq<Member>) {
    forall i, j :: 0 <= i < j < |members| && members[i].name == members[j].name ==>
      Equal(members[j].value, members[i].value)
  }

  lemma {:induction false} EqualToSame(u: Json, v: Json, w: Json)
    requires NoDuplicates(v) && Equal(u, w) && Equal(v, w)
    ensures Equal(u, v)
  {
    Symmetric(v, w);
    Transitive(u, w, v);
  }

  /**
   Where only the object itself repeats names: it is equal to itself exactly when it is equal to anything,
   which is exactly when the members of one name have equal values.
   */
  lemma RepeatsDecide(members: seq<Member>)
    requires forall i :: 0 <= i < |members| ==> NoDuplicates(members[i].value)
    ensures Equal(JObject(members), JObject(members)) <==> RepeatsAgree(members)
    ensures (exists w :: Equal(JObject(members), w)) <==> RepeatsAgree(members)
  {
    var v := JObject(members);
    if w :| Equal(v, w) {
      forall i, j | 0 <= i < j < |members| && members[i].name == members[j].name
        ensures Equal(members[j].value, members[i].value)
      {
        assert HasEqual(members[i], w.members) && HasEqual(members[j], w.members);
        EqualToSame(members[j].value, members[i].value, w.members[FindMember(w.members, members[i].name).value].value);
      }
    }
    if RepeatsAgree(members) {
      forall i | 0 <= i < |members| ensures HasEqual(members[i], members) {
        Reflexive(members[i].value);
      }
    }
  }

  // ---------------------------------------------------------------------------------------------
  // Equal to anything

  /** All of the values are equal to one. */
  ghost predicate AllEqual(vs: set<Json>, w: Json) {
    forall v :: v in vs ==> Equal(v, w)
  }

  /** Equal as far as one can tell without looking inside. */
  predicate SameShape(v: Json, w: Json) {
    match v
    case JArray(items) => w.JArray? && |items| == |w.items|
    case JObject(members) => w.JObject? && |members| == |w.members|
    case _ => Equal(v, w)
  }

  ghost function Column(vs: set<Json>, i: nat): set<Json> {
    set v | v in vs && v.JArray? && i < |v.items| :: v.items[i]
  }

  ghost function NamesIn(members: seq<Member>): set<string> {
    set i | 0 <= i < |members| :: members[i].name
  }

  ghost function Names(vs: set<Json>): set<string> {
    set v, i | v in vs && v.JObject? && 0 <= i < |v.members| :: v.members[i].name
  }

  ghost function Named(vs: set<Json>, name: string): set<Json> {
    set v, i | v in vs && v.JObject? && 0 <= i < |v.members| && v.members[i].name == name :: v.members[i].value
  }

  /** How deep arrays and objects are nested. */
  function Nesting(v: Json): nat
    decreases v, 0
  {
    match v
    case JArray(items) => 1 + NestingOfItems(items, |items|)
    case JObject(members) => 1 + NestingOfMembers(members, |members|)
    case _ => 0
  }

  function NestingOfItems(items: seq<Json>, k: nat): nat
    requires k <= |items|
    decreases items, k
  {
    if k == 0 then 0 else Larger(Nesting(items[k - 1]), NestingOfItems(items, k - 1))
  }

  function NestingOfMembers(members: seq<Member>, k: nat): nat
    requires k <= |members|
    decreases members, k
  {
    if k == 0 then 0 else Larger(Nesting(members[k - 1].value), NestingOfMembers(members, k - 1))
  }

  /**
   The values do not contradict each other: same shape, and so on for their items at each place and for
   their members of each name, of which there are no more than one object has room for.
   */
  ghost predicate Agree(vs: set<Json>, n: nat)
    decreases n
  {
    && (forall v, w :: v in vs && w in vs ==> SameShape(v, w))
    && (forall v, i: nat :: v in vs && v.JArray? && i < |v.items| ==> n > 0 && Agree(Column(vs, i), n - 1))
    && (forall name :: name in Names(vs) ==> n > 0 && Agree(Named(vs, name), n - 1))
    && (forall v :: v in vs && v.JObject? ==> |Names(vs)| <= |v.members|)
  }

  lemma {:induction false} ItemNesting(items: seq<Json>, k: nat, i: nat)
    requires i < k <= |items|
    ensures Nesting(items[i]) <= NestingOfItems(items, k)
    decreases k
  {
    if i < k - 1 {
      ItemNesting(items, k - 1, i);
    }
  }

  lemma {:induction false} MemberNesting(members: seq<Member>, k: nat, i: nat)
    requires i < k <= |members|
    ensures Nesting(members[i].value) <= NestingOfMembers(members, k)
    decreases k
  {
    if i < k - 1 {
      MemberNesting(members, k - 1, i);
    }
  }

  ghost predicate NestedUpTo(vs: set<Json>, n: nat) {
    forall v :: v in vs ==> Nesting(v) <= n
  }

  lemma ColumnNesting(vs: set<Json>, i: nat, n: nat)
    requires NestedUpTo(vs, n)
    ensures Column(vs, i) == {} || (n > 0 && NestedUpTo(Column(vs, i), n - 1))
  {
    forall x | x in Column(vs, i) ensures n > 0 && Nesting(x) <= n - 1 {
      var v :| v in vs && v.JArray? && i < |v.items| && x == v.items[i];
      ItemNesting(v.items, |v.items|, i);
    }
  }

  lemma NamedNesting(vs: set<Json>, name: string, n: nat)
    requires NestedUpTo(vs, n)
    ensures Named(vs, name) == {} || (n > 0 && NestedUpTo(Named(vs, name), n - 1))
  {
    forall x | x in Named(vs, name) ensures n > 0 && Nesting(x) <= n - 1 {
      var v, i :| v in vs && v.JObject? && 0 <= i < |v.members| && v.members[i].name == name && x == v.members[i].value;
      MemberNesting(v.members, |v.members|, i);
    }
  }

  lemma SameShapeAs(u: Json, v: Json, w: Json)
    requires Equal(u, w) && Equal(v, w)
    ensures SameShape(u, v)
  {
  }

  lemma {:induction false} NamesInSize(members: seq<Member>)
    ensures |NamesIn(members)| <= |members|
  {
    if members != [] {
      var k := |members| - 1;
      NamesInSize(members[..k]);
      assert NamesIn(members) == NamesIn(members[..k]) + {members[k].name};
    } else {
      assert NamesIn(members) == {};
    }
  }

  lemma NamesAreFound(vs: set<Json>, others: seq<Member>, name: string)
    requires AllEqual(vs, JObject(others)) && name in Names(vs)
    ensures FindMember(others, name).Some? && AllEqual(Named(vs, name), others[FindMember(others, name).value].value)
  {
    var u, k :| u in vs && u.JObject? && 0 <= k < |u.members| && u.members[k].name == name;
    assert Equal(u, JObject(others)) && HasEqual(u.members[k], others);
    forall x | x in Named(vs, name) ensures Equal(x, others[FindMember(others, name).value].value) {
      var v, i :| v in vs && v.JObject? && 0 <= i < |v.members| && v.members[i].name == name && x == v.members[i].value;
      assert Equal(v, JObject(others)) && HasEqual(v.members[i], others);
    }
  }

  lemma NamesFit(vs: set<Json>, others: seq<Member>)
    requires AllEqual(vs, JObject(others))
    ensures |Names(vs)| <= |others|
  {
    forall name | name in Names(vs) ensures name in NamesIn(others) {
      NamesAreFound(vs, others, name);
    }
    NamesInSize(others);
    SubsetSize(Names(vs), NamesIn(others));
  }

  lemma {:induction false} EqualsAgree(vs: set<Json>, w: Json, n: nat)
    requires AllEqual(vs, w) && NestedUpTo(vs, n)
    ensures Agree(vs, n)
    decreases n
  {
    forall u, v | u in vs && v in vs ensures SameShape(u, v) {
      SameShapeAs(u, v, w);
    }
    forall v, i: nat | v in vs && v.JArray? && i < |v.items| ensures n > 0 && Agree(Column(vs, i), n - 1) {
      assert v.items[i] in Column(vs, i);
      ColumnNesting(vs, i, n);
      forall x | x in Column(vs, i) ensures w.JArray? && i < |w.items| && Equal(x, w.items[i]) {
        var u :| u in vs && u.JArray? && i < |u.items| && x == u.items[i];
        assert Equal(u, w);
      }
      EqualsAgree(Column(vs, i), w.items[i], n - 1);
    }
    forall name | name in Names(vs) ensures n > 0 && Agree(Named(vs, name), n - 1) {
      var v, i :| v in vs && v.JObject? && 0 <= i < |v.members| && v.members[i].name == name;
      assert v.members[i].value in Named(vs, name);
      NamedNesting(vs, name, n);
      NamesAreFound(vs, w.members, name);
      EqualsAgree(Named(vs, name), w.members[FindMember(w.members, name).value].value, n - 1);
    }
    forall v | v in vs && v.JObject? ensures |Names(vs)| <= |v.members| {
      assert Equal(v, w);
      NamesFit(vs, w.members);
    }
  }

  // ---------------------------------------------------------------------------------------------
  // Making the common equal

  /** A common equal, storable if the values are. */
  ghost predicate Joins(vs: set<Json>, w: Json) {
    AllEqual(vs, w) && ((forall v :: v in vs ==> Valid(v)) ==> Valid(w))
  }

  ghost predicate CanJoin(vs: set<Json>) {
    exists w :: Joins(vs, w)
  }

  function Longer(names: seq<string>): (s: string)
    ensures |s| > 0 && forall name :: name in names ==> |name| < |s|
  {
    if names == [] then [' ']
    else
      var s := Longer(names[1..]);
      var t := s + names[0];
      assert forall name :: name in names ==> name == names[0] || name in names[1..];
      t
  }

  lemma FreshName(members: seq<Member>) returns (unused: string)
    ensures forall i :: 0 <= i < |members| ==> members[i].name != unused
  {
    var names := seq(|members|, i requires 0 <= i < |members| => members[i].name);
    unused := Longer(names);
    forall i | 0 <= i < |members| ensures members[i].name != unused {
      assert names[i] in names;
    }
  }

  /** One member for each name. */
  lemma {:induction false} JoinNamed(vs: set<Json>, names: set<string>) returns (ms: seq<Member>)
    requires forall name :: name in names ==> CanJoin(Named(vs, name))
    ensures |ms| == |names| && forall k :: 0 <= k < |ms| ==> Joins(Named(vs, ms[k].name), ms[k].value)
    ensures forall name :: name in names ==> exists k :: 0 <= k < |ms| && ms[k].name == name
    decreases |names|
  {
    if names == {} {
      ms := [];
    } else {
      var name :| name in names;
      var x :| Joins(Named(vs, name), x);
      var rest := JoinNamed(vs, names - {name});
      ms := [Member(name, x)] + rest;
      forall other | other in names ensures exists k :: 0 <= k < |ms| && ms[k].name == other {
        if other == name {
          assert ms[0].name == other;
        } else {
          assert other in names - {name};
          var k :| 0 <= k < |rest| && rest[k].name == other;
          assert ms[k + 1].name == other;
        }
      }
    }
  }

  lemma JoinObjects(vs: set<Json>, size: nat) returns (w: Json)
    requires vs != {} && forall v :: v in vs ==> v.JObject? && |v.members| == size
    requires |Names(vs)| <= size && forall name :: name in Names(vs) ==> CanJoin(Named(vs, name))
    ensures Joins(vs, w)
  {
    var ms := JoinNamed(vs, Names(vs));
    var unused := FreshName(ms);
    var fill := seq(size - |ms|, i => Member(unused, JNull));
    w := JObject(ms + fill);
    forall v | v in vs ensures Equal(v, w) {
      forall i | 0 <= i < |v.members| ensures HasEqual(v.members[i], w.members) {
        var name := v.members[i].name;
        assert name in Names(vs);
        var k :| 0 <= k < |ms| && ms[k].name == name;
        assert w.members[k].name == name;
        var f := FindMember(w.members, name).value;
        assert f <= k && w.members[f] == ms[f];
        assert v.members[i].value in Named(vs, name);
      }
    }
    if forall v :: v in vs ==> Valid(v) {
      JoinedIsValid(vs, size, ms, w);
    }
  }

  lemma JoinedIsValid(vs: set<Json>, size: nat, ms: seq<Member>, w: Json)
    requires vs != {} && forall v :: v in vs ==> Valid(v) && v.JObject? && |v.members| == size
    requires forall k :: 0 <= k < |ms| ==> Joins(Named(vs, ms[k].name), ms[k].value)
    requires w.JObject? && |w.members| == size && ms <= w.members
    requires forall k :: |ms| <= k < size ==> w.members[k].value == JNull
    ensures Valid(w)
  {
    var v :| v in vs;
    forall k | 0 <= k < size ensures Valid(w.members[k].value) {
      if k < |ms| {
        forall x | x in Named(vs, ms[k].name) ensures Valid(x) {
          var u, i :| u in vs && u.JObject? && 0 <= i < |u.members| && x == u.members[i].value;
        }
      }
    }
  }

  /** An item for each place. */
  lemma {:induction false} JoinColumns(vs: set<Json>, size: nat) returns (items: seq<Json>)
    requires forall i: nat :: i < size ==> CanJoin(Column(vs, i))
    ensures |items| == size && forall i :: 0 <= i < size ==> Joins(Column(vs, i), items[i])
  {
    if size == 0 {
      items := [];
    } else {
      items := JoinColumns(vs, size - 1);
      var last: nat := size - 1;
      var x :| Joins(Column(vs, last), x);
      items := items + [x];
    }
  }

  lemma JoinArrays(vs: set<Json>, size: nat) returns (w: Json)
    requires vs != {} && forall v :: v in vs ==> v.JArray? && |v.items| == size
    requires forall i: nat :: i < size ==> CanJoin(Column(vs, i))
    ensures Joins(vs, w)
  {
    var items := JoinColumns(vs, size);
    w := JArray(items);
    forall v | v in vs ensures Equal(v, w) {
      forall i | 0 <= i < size ensures Equal(v.items[i], items[i]) {
        assert v.items[i] in Column(vs, i);
      }
    }
    if forall v :: v in vs ==> Valid(v) {
      var v :| v in vs;
      forall i | 0 <= i < size ensures Valid(items[i]) {
        forall x | x in Column(vs, i) ensures Valid(x) {
          var u :| u in vs && u.JArray? && i < |u.items| && x == u.items[i];
        }
      }
    }
  }

  lemma LeavesJoin(vs: set<Json>, v: Json)
    requires v in vs && !v.JArray? && !v.JObject? && forall u :: u in vs ==> SameShape(u, v)
    ensures Joins(vs, v)
  {
    forall u | u in vs ensures Equal(u, v) {
      assert SameShape(u, v);
    }
  }

  lemma {:induction false} AgreeingHaveEqual(vs: set<Json>, n: nat) returns (w: Json)
    requires Agree(vs, n)
    ensures Joins(vs, w)
    decreases n
  {
    if vs == {} {
      w := JNull;
    } else {
      hide Joins;
      hide Nesting;
      var v :| v in vs;
      match v
      case JArray(items) =>
        forall i: nat | i < |items| ensures CanJoin(Column(vs, i)) {
          var x := AgreeingHaveEqual(Column(vs, i), n - 1);
        }
        assert forall u :: u in vs ==> SameShape(v, u);
        w := JoinArrays(vs, |items|);
      case JObject(members) =>
        forall name | name in Names(vs) ensures CanJoin(Named(vs, name)) {
          var x := AgreeingHaveEqual(Named(vs, name), n - 1);
        }
        assert forall u :: u in vs ==> SameShape(v, u);
        w := JoinObjects(vs, |members|);
      case _ =>
        w := v;
        LeavesJoin(vs, v);
    }
  }

  /** Values have a common equal, and a storable one if they are storable, exactly when they agree. */
  lemma CommonEqual(vs: set<Json>, n: nat)
    requires NestedUpTo(vs, n)
    ensures (exists w :: AllEqual(vs, w)) <==> Agree(vs, n)
    ensures (exists w :: AllEqual(vs, w)) <==> CanJoin(vs)
  {
    if w :| AllEqual(vs, w) {
      EqualsAgree(vs, w, n);
      var joined := AgreeingHaveEqual(vs, n);
    }
    if Agree(vs, n) {
      var joined := AgreeingHaveEqual(vs, n);
    }
  }

  /** A value is equal to anything at all exactly when its repeated names agree, all the way down. */
  lemma EqualToSomething(v: Json)
    ensures (exists w :: Equal(v, w)) <==> Agree({v}, Nesting(v))
    ensures Valid(v) && Agree({v}, Nesting(v)) ==> exists w :: Valid(w) && Equal(v, w)
  {
    CommonEqual({v}, Nesting(v));
    if w :| Equal(v, w) {
      assert AllEqual({v}, w);
    }
    if CanJoin({v}) {
      var w :| Joins({v}, w);
      assert v in {v};
      assert Equal(v, w);
    }
  }

  // ---------------------------------------------------------------------------------------------
  // One-sided

  lemma FindIs(members: seq<Member>, name: string, k: nat)
    requires k < |members| && members[k].name == name && forall i :: 0 <= i < k ==> members[i].name != name
    ensures FindMember(members, name) == Some(k)
  {
    assert FindMember(members, name).Some?;
  }

  /** Changing a member that is not found by a name, to one of another name, does not change what is found. */
  lemma FindAfterChange(members: seq<Member>, f: nat, m: Member, name: string)
    requires f < |members| && FindMember(members, name).Some?
    requires if FindMember(members, name) == Some(f) then m.name == name else m.name != name
    ensures FindMember(members[f := m], name) == FindMember(members, name)
  {
    FindIs(members[f := m], name, FindMember(members, name).value);
  }

  /** A list of n numbers with a repetition leaves out some number below n. */
  lemma LeftOut(places: seq<int>, i: nat, j: nat) returns (f: nat)
    requires i < j < |places| && places[i] == places[j]
    ensures f < |places| && f !in places
  {
    var without := places[..j] + places[j + 1..];
    var found := set p: int | p in without;
    SeqSize(without);
    if Interval(0, |places|) <= found {
      SubsetSize(Interval(0, |places|), found);
    }
    var g :| g in Interval(0, |places|) && g !in found;
    f := g;
    forall k | 0 <= k < |places| ensures places[k] != f {
      var l := if k == j then i else k;
      assert places[l] == without[if l < j then l else l - 1];
    }
  }

  /** With a name repeated there is a place where no name is found. */
  lemma SparePlace(members: seq<Member>, others: seq<Member>) returns (f: nat)
    requires !DistinctNames(members) && |members| == |others|
    requires forall i :: 0 <= i < |members| ==> FindMember(others, members[i].name).Some?
    ensures f < |others| && forall i :: 0 <= i < |members| ==> FindMember(others, members[i].name) != Some(f)
  {
    hide FindMember;
    var places := Places(members, others);
    var i: nat, j: nat :| i < j < |members| && members[i].name == members[j].name;
    f := LeftOut(places, i, j);
    forall k | 0 <= k < |members| ensures FindMember(others, members[k].name) != Some(f) {
      assert places[k] in places;
    }
  }

  lemma {:induction false} SeqSize(s: seq<int>)
    ensures |(set x | x in s)| <= |s|
  {
    if s != [] {
      var k := |s| - 1;
      SeqSize(s[..k]);
      assert (set x | x in s) == (set x | x in s[..k]) + {s[k]};
    } else {
      assert (set x | x in s) == {};
    }
  }

  /** Whatever repeats a name somewhere and is equal to something is equal to something that is not equal to it. */
  lemma {:induction false} OneSided(v: Json, other: Json) returns (w: Json)
    requires Equal(v, other) && !NoDuplicates(v)
    ensures Equal(v, w) && !Equal(w, v) && (Valid(other) ==> Valid(w))
    decreases v
  {
    match v
    case JArray(items) =>
      var i :| 0 <= i < |items| && !NoDuplicates(items[i]);
      var x := OneSided(items[i], other.items[i]);
      w := JArray(other.items[i := x]);
      OneSidedItem(items, other.items, i, x);
    case JObject(members) =>
      hide FindMember;
      hide DistinctNames;
      hide Equal;
      hide Valid;
      MembersFound(members, other.members);
      ValidMembers(other.members);
      if DistinctNames(members) {
        var i :| 0 <= i < |members| && !NoDuplicates(members[i].value);
        var f := FindMember(other.members, members[i].name).value;
        var x := OneSided(members[i].value, other.members[f].value);
        w := OneSidedInside(members, other.members, i, x);
      } else {
        w := OneSidedHere(members, other.members);
      }
    case _ =>
  }

  lemma MembersFound(members: seq<Member>, others: seq<Member>)
    requires Equal(JObject(members), JObject(others))
    ensures forall i :: 0 <= i < |members| ==>
      var f := FindMember(others, members[i].name);
      f.Some? && Equal(members[i].value, others[f.value].value)
    ensures |members| == |others|
  {
    forall i | 0 <= i < |members| ensures HasEqual(members[i], others) {
    }
  }

  lemma ValidMembers(members: seq<Member>)
    ensures Valid(JObject(members)) ==> forall i :: 0 <= i < |members| ==> Valid(members[i].value)
  {
  }

  lemma OneSidedItem(items: seq<Json>, others: seq<Json>, i: nat, x: Json)
    requires i < |items| && Equal(JArray(items), JArray(others))
    requires Equal(items[i], x) && !Equal(x, items[i])
    ensures var w := JArray(others[i := x]);
      Equal(JArray(items), w) && !Equal(w, JArray(items)) && (Valid(JArray(others)) && Valid(x) ==> Valid(w))
  {
    assert !Equal(others[i := x][i], items[i]);
  }

  lemma OneSidedInside(members: seq<Member>, others: seq<Member>, i: nat, x: Json) returns (w: Json)
    requires DistinctNames(members) && i < |members| && Equal(JObject(members), JObject(others))
    requires Equal(members[i].value, x) && !Equal(x, members[i].value)
    ensures Equal(JObject(members), w) && !Equal(w, JObject(members))
    ensures Valid(JObject(others)) && Valid(x) ==> Valid(w)
  {
    var name := members[i].name;
    assert HasEqual(members[i], others);
    var f := FindMember(others, name).value;
    var changed := others[f := Member(name, x)];
    w := JObject(changed);
    forall k | 0 <= k < |members| ensures HasEqual(members[k], changed) {
      assert HasEqual(members[k], others);
      FindAfterChange(others, f, Member(name, x), members[k].name);
      if members[k].name == name {
        assert k == i;
      }
    }
    FindsItself(members, i);
    assert !HasEqual(changed[f], members);
  }

  lemma OneSidedHere(members: seq<Member>, others: seq<Member>) returns (w: Json)
    requires !DistinctNames(members) && Equal(JObject(members), JObject(others))
    requires forall i :: 0 <= i < |members| ==> FindMember(others, members[i].name).Some?
    ensures Equal(JObject(members), w) && !Equal(w, JObject(members)) && (Valid(JObject(others)) ==> Valid(w))
  {
    var f := SparePlace(members, others);
    var unused := FreshName(members);
    var changed := others[f := Member(unused, JNull)];
    w := JObject(changed);
    forall k | 0 <= k < |members| ensures HasEqual(members[k], changed) {
      assert HasEqual(members[k], others);
      FindAfterChange(others, f, Member(unused, JNull), members[k].name);
    }
    assert !HasEqual(changed[f], members);
  }

  /** Equality is symmetric at a value exactly when no object in it repeats a name, or nothing is equal to it. */
  lemma SymmetricExactly(v: Json)
    ensures (forall w :: Equal(v, w) ==> Equal(w, v)) <==> NoDuplicates(v) || !exists w :: Equal(v, w)
  {
    if NoDuplicates(v) {
      forall w | Equal(v, w) ensures Equal(w, v) {
        Symmetric(v, w);
      }
    } else if other :| Equal(v, other) {
      var w := OneSided(v, other);
    }
  }
}
