/**
 Equality of values as include/rapidjson/document.h decides it: members are looked up by name, so their
 order does not matter, and integers are compared by their 64 bits.
 */
module JsonEquality {
  import opened Counting
  import opened JsonDom
  import opened JsonPointer
  import opened Word
  import opened Wrappers

  predicate Equal(v: Json, w: Json)
    decreases v
  {
    match v
    case JNull => w.JNull?
    case JBool(b) => w == v
    case JNumber(x) => w.JNumber? && x.n % TWO_TO_THE_64 == w.number.n % TWO_TO_THE_64
    case JString(s) => w == v
    case JArray(items) =>
      w.JArray? && |items| == |w.items| && forall i :: 0 <= i < |items| ==> Equal(items[i], w.items[i])
    case JObject(members) =>
      w.JObject? && |members| == |w.members| && forall i :: 0 <= i < |members| ==> HasEqual(members[i], w.members)
  }

  /** The first member of that name has an equal value. */
  predicate HasEqual(m: Member, others: seq<Member>)
    decreases m
  {
    var found := FindMember(others, m.name);
    found.Some? && Equal(m.value, others[found.value].value)
  }

  predicate DistinctNames(members: seq<Member>) {
    forall i, j :: 0 <= i < j < |members| ==> members[i].name != members[j].name
  }

  /** No object anywhere has two members of one name. */
  predicate NoDuplicates(v: Json) {
    match v
    case JArray(items) => forall i :: 0 <= i < |items| ==> NoDuplicates(items[i])
    case JObject(members) =>
      DistinctNames(members) && forall i :: 0 <= i < |members| ==> NoDuplicates(members[i].value)
    case _ => true
  }

  lemma FindsItself(members: seq<Member>, i: nat)
    requires DistinctNames(members) && i < |members|
    ensures FindMember(members, members[i].name) == Some(i)
  {
  }

  lemma {:induction false} Reflexive(v: Json)
    requires NoDuplicates(v)
    ensures Equal(v, v)
    decreases v
  {
    match v
    case JArray(items) =>
      forall i | 0 <= i < |items| ensures Equal(items[i], items[i]) {
        Reflexive(items[i]);
      }
    case JObject(members) =>
      forall i | 0 <= i < |members| ensures HasEqual(members[i], members) {
        FindsItself(members, i);
        Reflexive(members[i].value);
      }
    case _ =>
  }

  /** Transitive even where names repeat. */
  lemma {:induction false} Transitive(u: Json, v: Json, w: Json)
    requires Equal(u, v) && Equal(v, w)
    ensures Equal(u, w)
    decreases u
  {
    match u
    case JArray(items) =>
      forall i | 0 <= i < |items| ensures Equal(items[i], w.items[i]) {
        Transitive(items[i], v.items[i], w.items[i]);
      }
    case JObject(members) =>
      forall i | 0 <= i < |members| ensures HasEqual(members[i], w.members) {
        assert HasEqual(members[i], v.members);
        var j := FindMember(v.members, members[i].name).value;
        assert HasEqual(v.members[j], w.members);
        Transitive(members[i].value, v.members[j].value, w.members[FindMember(w.members, members[i].name).value].value);
      }
    case _ =>
  }

  // ---------------------------------------------------------------------------------------------
  // Symmetry

  /** An injection of a finite set into itself reaches everything. */
  lemma Reaches(f: seq<nat>, j: nat) returns (i: nat)
    requires forall k :: 0 <= k < |f| ==> f[k] < |f|
    requires forall k, l :: 0 <= k < l < |f| ==> f[k] != f[l]
    requires j < |f|
    ensures i < |f| && f[i] == j
  {
    DistinctElements(f);
    var reached := set x | x in f;
    SubsetSize(reached, Interval(0, |f|));
    assert j in reached;
    i :| 0 <= i < |f| && f[i] == j;
  }

  /** Where the members of one object are found in another. */
  function Places(members: seq<Member>, others: seq<Member>): (f: seq<nat>)
    requires forall i :: 0 <= i < |members| ==> FindMember(others, members[i].name).Some?
    ensures |f| == |members| && forall i :: 0 <= i < |f| ==> FindMember(others, members[i].name) == Some(f[i])
  {
    seq(|members|, i requires 0 <= i < |members| => FindMember(others, members[i].name).value)
  }

  /** Every member of the other object is where one of the first is found, and is found there. */
  lemma Matched(members: seq<Member>, others: seq<Member>, j: nat) returns (i: nat)
    requires DistinctNames(members) && |members| == |others| && j < |others|
    requires forall k :: 0 <= k < |members| ==> FindMember(others, members[k].name).Some?
    ensures i < |members| && FindMember(others, members[i].name) == Some(j)
      && FindMember(members, others[j].name) == Some(i)
  {
    var f := Places(members, others);
    forall k, l | 0 <= k < l < |f| ensures f[k] != f[l] {
      assert members[k].name != members[l].name;
    }
    i := Reaches(f, j);
    FindsItself(members, i);
  }

  /** If the left value has no repeated names, equality is symmetric, and the right value has none, either. */
  lemma {:induction false} Symmetric(v: Json, w: Json)
    requires NoDuplicates(v) && Equal(v, w)
    ensures Equal(w, v) && NoDuplicates(w)
    decreases v
  {
    match v
    case JArray(items) =>
      forall i | 0 <= i < |items| ensures Equal(w.items[i], items[i]) && NoDuplicates(w.items[i]) {
        Symmetric(items[i], w.items[i]);
      }
    case JObject(members) =>
      var others := w.members;
      forall k | 0 <= k < |members| ensures FindMember(others, members[k].name).Some? {
        assert HasEqual(members[k], others);
      }
      forall j | 0 <= j < |others| ensures HasEqual(others[j], members) && NoDuplicates(others[j].value) {
        var i := Matched(members, others, j);
        assert HasEqual(members[i], others);
        Symmetric(members[i].value, others[j].value);
      }
      forall j, k | 0 <= j < k < |others| ensures others[j].name != others[k].name {
        var a := Matched(members, others, j);
        var b := Matched(members, others, k);
      }
    case _ =>
  }

  // ---------------------------------------------------------------------------------------------
  // Where the comments of the source promise more

  /** Repeated names do not make an object unequal to every other, and they make equality one-sided. */
  lemma DuplicatesCanBeEqual()
    ensures var twice := JObject([Member("a", JNull), Member("a", JNull)]);
      var once := JObject([Member("a", JNull), Member("b", JNull)]);
      Equal(twice, twice) && Equal(twice, once) && !Equal(once, twice)
  {
    var a, b := Member("a", JNull), Member("b", JNull);
    assert FindMember([a, a], "a") == Some(0) && FindMember([a, b], "a") == Some(0);
    assert HasEqual(a, [a, a]) && HasEqual(a, [a, b]);
    assert FindMember([a, a], "b") == None;
    assert !HasEqual([a, b][1], [a, a]);
  }

  /** Stored integers are equal if their values are, or are 2^64 apart, as -1 and 2^64 - 1 are. */
  lemma EqualIntegers(x: Number, y: Number)
    requires Valid(JNumber(x)) && Valid(JNumber(y))
    ensures Equal(JNumber(x), JNumber(y)) <==> x.n == y.n || x.n == y.n + TWO_TO_THE_64 || y.n == x.n + TWO_TO_THE_64
  {
    if x.n < 0 {
      assert x.n % TWO_TO_THE_64 == x.n + TWO_TO_THE_64;
    }
    if y.n < 0 {
      assert y.n % TWO_TO_THE_64 == y.n + TWO_TO_THE_64;
    }
  }

  /** Numbers 2^64 apart are equal, and the numeric values are not. */
  lemma MinusOneEqualsLargest()
    ensures Valid(JNumber(Integer(-1))) && Valid(JNumber(Integer(TWO_TO_THE_64 - 1)))
    ensures Equal(JNumber(Integer(-1)), JNumber(Integer(TWO_TO_THE_64 - 1)))
  {
    EqualIntegers(Integer(-1), Integer(TWO_TO_THE_64 - 1));
  }
}
