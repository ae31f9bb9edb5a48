/**
 A list standing at a position of a longer list.
 */
module TextAt {
  predicate At<T(==)>(t: seq<T>, pos: nat, s: seq<T>) {
    pos + |s| <= |t| && t[pos..pos + |s|] == s
  }

  lemma AtChar<T>(t: seq<T>, pos: nat, s: seq<T>, i: nat)
    requires At(t, pos, s) && i < |s|
    ensures t[pos + i] == s[i]
  {
    assert t[pos..pos + |s|][i] == t[pos + i];
  }

  lemma AtSplit<T>(t: seq<T>, pos: nat, a: seq<T>, b: seq<T>)
    requires At(t, pos, a + b)
    ensures At(t, pos, a) && At(t, pos + |a|, b)
  {
    var both := t[pos..pos + |a + b|];
    assert both[..|a|] == a && both[|a|..] == b;
    assert both[..|a|] == t[pos..pos + |a|] && both[|a|..] == t[pos + |a|..pos + |a| + |b|];
  }

  lemma AtJoin<T>(t: seq<T>, pos: nat, a: seq<T>, b: seq<T>)
    requires At(t, pos, a) && At(t, pos + |a|, b)
    ensures At(t, pos, a + b)
  {
    assert t[pos..pos + |a + b|] == t[pos..pos + |a|] + t[pos + |a|..pos + |a| + |b|];
  }
}
