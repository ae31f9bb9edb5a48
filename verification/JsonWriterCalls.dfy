/**
 Which calls the writer of include/rapidjson/writer.h takes: its assertions hold, and its text is complete,
 exactly for the calls that make up one value.
 */
module JsonWriterCalls {
  import opened JsonGrammar
  import opened JsonWriter
  import opened Wrappers

  /** The calls for one value: a single one, or a container's with its own between the first and the last. */
  datatype Calls = One(e: Event) | Inner(inArray: bool, entries: seq<Calls>, count: nat)

  /** A call for a value that is no container; a name will do. */
  predicate IsPlain(e: Event) {
    e.Null? || e.Bool? || e.Int? || e.Uint? || e.Int64? || e.Uint64? || e.String? || e.Key?
  }

  predicate IsName(c: Calls) {
    c.One? && (c.e.String? || c.e.Key?)
  }

  /** In an object, names and values take turns. */
  predicate TakeTurns(entries: seq<Calls>) {
    forall i :: 0 <= i < |entries| && i % 2 == 0 ==> IsName(entries[i])
  }

  ghost predicate WellFormed(c: Calls) {
    match c
    case One(e) => IsPlain(e)
    case Inner(inArray, entries, _) =>
      && (forall i :: 0 <= i < |entries| ==> WellFormed(entries[i]))
      && (!inArray ==> |entries| % 2 == 0 && TakeTurns(entries))
  }

  function First(inArray: bool): Event {
    if inArray then StartArray else StartObject
  }

  function Last(inArray: bool, count: nat): Event {
    if inArray then EndArray(count) else EndObject(count)
  }

  function Flat(c: Calls): seq<Event>
    decreases c, 0
  {
    match c
    case One(e) => [e]
    case Inner(inArray, entries, count) => [First(inArray)] + FlatAll(entries) + [Last(inArray, count)]
  }

  function FlatAll(cs: seq<Calls>): seq<Event>
    decreases cs, 1
  {
    if cs == [] then [] else FlatAll(cs[..|cs| - 1]) + Flat(cs[|cs| - 1])
  }

  // ---------------------------------------------------------------------------------------------
  // What is well formed is taken

  /** The writer stands where these calls may come. */
  predicate Fits(w: Writing, c: Calls) {
    if w.levels == [] then !w.hasRoot
    else Inside(w).inArray || Inside(w).valueCount % 2 == 1 || IsName(c)
  }

  /** The state after one more value, but for the text. */
  predicate OneMore(w: Writing, v: Writing) {
    && v.hasRoot
    && if w.levels == [] then v.levels == []
       else
         && w.hasRoot && |v.levels| == |w.levels| && v.levels[..|w.levels| - 1] == w.levels[..|w.levels| - 1]
         && Inside(v) == Inside(w).(valueCount := Inside(w).valueCount + 1)
  }

  predicate Started(w: Writing) {
    w.levels != [] ==> w.hasRoot
  }

  lemma PlainIsTaken(w: Writing, e: Event)
    requires IsPlain(e) && Started(w)
    ensures Write(w, e).Some? <==> Fits(w, One(e))
    ensures Write(w, e).Some? ==> OneMore(w, Write(w, e).value)
  {
  }

  lemma FirstIsTaken(w: Writing, inArray: bool)
    requires Started(w)
    ensures Write(w, First(inArray)).Some? <==> Fits(w, Inner(inArray, [], 0))
    ensures Write(w, First(inArray)).Some? ==>
      var v := Write(w, First(inArray)).value;
      v.levels != [] && OneMore(w, v.(levels := v.levels[..|v.levels| - 1])) && Inside(v) == Level(0, inArray)
  {
  }

  lemma LastIsTaken(w: Writing, inArray: bool, count: nat)
    ensures Write(w, Last(inArray, count)).Some?
      <==> w.levels != [] && Inside(w).inArray == inArray && (!inArray ==> Inside(w).valueCount % 2 == 0)
    ensures Write(w, Last(inArray, count)).Some? ==>
      var v := Write(w, Last(inArray, count)).value;
      v.levels == w.levels[..|w.levels| - 1] && v.hasRoot == w.hasRoot
  {
  }

  /** Inside a container that holds n values so far, with the same containers around it. */
  predicate Holding(w: Writing, outer: seq<Level>, inArray: bool, n: nat) {
    w.hasRoot && w.levels == outer + [Level(n, inArray)]
  }

  lemma {:induction false} CallsAreTaken(w: Writing, c: Calls)
    requires WellFormed(c) && Started(w) && Fits(w, c)
    ensures WriteAll(w, Flat(c)).Some? && OneMore(w, WriteAll(w, Flat(c)).value)
    decreases c, 0
  {
    match c
    case One(e) =>
      hide WriteAll;
      hide Write;
      WriteOne(w, e);
      PlainIsTaken(w, e);
    case Inner(inArray, entries, count) =>
      hide WriteAll;
      hide Write;
      hide FlatAll;
      hide OneMore;
      hide Holding;
      FirstIsTaken(w, inArray);
      var first, last := First(inArray), Last(inArray, count);
      var w1 := Write(w, first).value;
      var outer := w1.levels[..|w1.levels| - 1];
      StartsHolding(w, w1, inArray);
      EntriesAreTaken(w1, outer, inArray, entries);
      var w2 := WriteAll(w1, FlatAll(entries)).value;
      EndsHolding(w2, outer, inArray, |entries|, count);
      WriteOne(w, first);
      WriteOne(w2, last);
      WriteAllSplit(w, [first] + FlatAll(entries), [last]);
      WriteAllSplit(w, [first], FlatAll(entries));
      SameLevels(w, w1.(levels := outer), Write(w2, last).value);
  }

  lemma StartsHolding(w: Writing, v: Writing, inArray: bool)
    requires v.levels != [] && OneMore(w, v.(levels := v.levels[..|v.levels| - 1])) && Inside(v) == Level(0, inArray)
    ensures Holding(v, v.levels[..|v.levels| - 1], inArray, 0)
  {
  }

  lemma EndsHolding(w: Writing, outer: seq<Level>, inArray: bool, n: nat, count: nat)
    requires Holding(w, outer, inArray, n) && (!inArray ==> n % 2 == 0)
    ensures var r := Write(w, Last(inArray, count));
      r.Some? && r.value.levels == outer && r.value.hasRoot
  {
    LastIsTaken(w, inArray, count);
    assert w.levels[..|w.levels| - 1] == outer;
  }

  lemma SameLevels(w: Writing, a: Writing, b: Writing)
    requires OneMore(w, a) && a.levels == b.levels && a.hasRoot == b.hasRoot
    ensures OneMore(w, b)
  {
  }

  lemma {:induction false} EntriesAreTaken(w: Writing, outer: seq<Level>, inArray: bool, cs: seq<Calls>)
    requires Holding(w, outer, inArray, 0)
    requires (forall i :: 0 <= i < |cs| ==> WellFormed(cs[i])) && (!inArray ==> TakeTurns(cs))
    ensures var r := WriteAll(w, FlatAll(cs));
      r.Some? && Holding(r.value, outer, inArray, |cs|)
    decreases cs, 1
  {
    hide WellFormed;
    hide Flat;
    if cs != [] {
      hide WriteAll;
      var front, last := cs[..|cs| - 1], cs[|cs| - 1];
      EntriesAreTaken(w, outer, inArray, front);
      var v := WriteAll(w, FlatAll(front)).value;
      CallsAreTaken(v, last);
      WriteAllSplit(w, FlatAll(front), Flat(last));
      OneMoreHeld(v, WriteAll(v, Flat(last)).value, outer, inArray, |front|);
    }
  }

  lemma OneMoreHeld(w: Writing, v: Writing, outer: seq<Level>, inArray: bool, n: nat)
    requires Holding(w, outer, inArray, n) && OneMore(w, v)
    ensures Holding(v, outer, inArray, n + 1)
  {
    assert w.levels[..|w.levels| - 1] == outer;
    assert v.levels == v.levels[..|v.levels| - 1] + [Inside(v)];
  }

  // ---------------------------------------------------------------------------------------------
  // What is taken is well formed

  /** An open container and what it holds so far. */
  datatype Frame = Frame(inArray: bool, entries: seq<Calls>)

  /** A container that another one is open in has been promised one more value. */
  function Counted(f: Frame, inner: bool): Level {
    Level(|f.entries| + (if inner then 1 else 0), f.inArray)
  }

  ghost predicate FrameOk(f: Frame, inner: bool) {
    && (forall i :: 0 <= i < |f.entries| ==> WellFormed(f.entries[i]))
    && (!f.inArray ==> TakeTurns(f.entries) && (inner ==> |f.entries| % 2 == 1))
  }

  function FlatFrames(frames: seq<Frame>): seq<Event> {
    if frames == [] then []
    else
      var last := frames[|frames| - 1];
      FlatFrames(frames[..|frames| - 1]) + [First(last.inArray)] + FlatAll(last.entries)
  }

  /** The writer's levels are those of the open containers. */
  ghost predicate Levelled(levels: seq<Level>, frames: seq<Frame>, inner: bool)
    decreases |frames|
  {
    if levels == [] || frames == [] then levels == [] && frames == []
    else
      var n, k := |levels| - 1, |frames| - 1;
      levels[n] == Counted(frames[k], inner) && FrameOk(frames[k], inner) && Levelled(levels[..n], frames[..k], true)
  }

  /** The calls so far: nothing or a whole value, or open containers one in the other. */
  ghost predicate Stands(w: Writing, root: seq<Calls>, frames: seq<Frame>, events: seq<Event>) {
    && Levelled(w.levels, frames, false)
    && if frames == [] then |root| <= 1 && w.hasRoot == (root != []) && events == FlatAll(root) && AllWellFormed(root)
       else root == [] && w.hasRoot && events == FlatFrames(frames)
  }

  ghost predicate AllWellFormed(cs: seq<Calls>) {
    forall i :: 0 <= i < |cs| ==> WellFormed(cs[i])
  }

  function Longer(frames: seq<Frame>, c: Calls): seq<Frame>
    requires frames != []
  {
    var last := |frames| - 1;
    frames[..last] + [Frame(frames[last].inArray, frames[last].entries + [c])]
  }

  lemma FlatLonger(frames: seq<Frame>, c: Calls)
    requires frames != []
    ensures FlatFrames(Longer(frames, c)) == FlatFrames(frames) + Flat(c)
  {
    hide Flat;
    var last := |frames| - 1;
    var longer := Longer(frames, c);
    assert longer[..last] == frames[..last];
    assert longer[last].entries[..|frames[last].entries|] == frames[last].entries;
  }

  lemma EntryOk(f: Frame, inner: bool, c: Calls)
    requires FrameOk(f, inner) && WellFormed(c) && (!f.inArray && |f.entries| % 2 == 0 ==> IsName(c))
    ensures FrameOk(Frame(f.inArray, f.entries + [c]), false)
  {
    hide WellFormed;
  }

  /** One more entry in the innermost container, whether it has been promised or not. */
  lemma LevelledLonger(levels: seq<Level>, more: seq<Level>, frames: seq<Frame>, inner: bool, c: Calls)
    requires Levelled(levels, frames, inner) && frames != [] && |more| == |levels|
    requires more[..|more| - 1] == levels[..|levels| - 1]
    requires WellFormed(c) && var f := frames[|frames| - 1];
      && more[|more| - 1] == Level(|f.entries| + 1, f.inArray)
      && (!f.inArray && |f.entries| % 2 == 0 ==> IsName(c))
    ensures Levelled(more, Longer(frames, c), false)
  {
    hide WellFormed;
    var last := |frames| - 1;
    EntryOk(frames[last], inner, c);
    hide FrameOk;
    assert Longer(frames, c)[..last] == frames[..last];
  }

  /** A whole value more. */
  lemma PlainStands(w: Writing, root: seq<Calls>, frames: seq<Frame>, events: seq<Event>, e: Event)
    returns (newRoot: seq<Calls>, newFrames: seq<Frame>)
    requires Stands(w, root, frames, events) && IsPlain(e) && Write(w, e).Some?
    ensures Stands(Write(w, e).value, newRoot, newFrames, events + [e])
  {
    PlainIsTaken(w, e);
    hide Write;
    var v := Write(w, e).value;
    if frames == [] {
      newRoot, newFrames := [One(e)], [];
      FlatOne(One(e));
      assert [] + [e] == [e];
    } else {
      newRoot, newFrames := [], Longer(frames, One(e));
      LevelledLonger(w.levels, v.levels, frames, false, One(e));
      FlatLonger(frames, One(e));
    }
  }

  lemma FlatOne(c: Calls)
    ensures FlatAll([c]) == Flat(c) && FlatAll([]) == []
  {
    hide Flat;
    assert [c][..0] == [];
  }

  /** A container is opened. */
  lemma FirstStands(w: Writing, root: seq<Calls>, frames: seq<Frame>, events: seq<Event>, inArray: bool)
    requires Stands(w, root, frames, events) && Write(w, First(inArray)).Some?
    ensures Stands(Write(w, First(inArray)).value, [], frames + [Frame(inArray, [])], events + [First(inArray)])
  {
    FirstIsTaken(w, inArray);
    hide Write;
    var v := Write(w, First(inArray)).value;
    var outer, more := v.levels[..|v.levels| - 1], frames + [Frame(inArray, [])];
    assert more[..|frames|] == frames && v.levels == outer + [Level(0, inArray)];
    if frames == [] {
      NoFlat();
      assert root == [] && events == [] && outer == [];
      assert FlatFrames(more) == [] + [First(inArray)] + [];
      assert events + [First(inArray)] == [First(inArray)];
      assert Levelled(outer, frames, true);
    } else {
      Promised(w.levels, outer, frames);
      assert events + [First(inArray)] + [] == events + [First(inArray)];
    }
  }

  lemma NoFlat()
    ensures FlatAll([]) == [] && FlatFrames([]) == []
  {
  }

  /** One more value is promised to the innermost container. */
  lemma Promised(levels: seq<Level>, more: seq<Level>, frames: seq<Frame>)
    requires Levelled(levels, frames, false) && frames != [] && |more| == |levels|
    requires more[..|more| - 1] == levels[..|levels| - 1]
    requires var f := frames[|frames| - 1];
      more[|more| - 1] == Level(|f.entries| + 1, f.inArray) && (f.inArray || |f.entries| % 2 == 1)
    ensures Levelled(more, frames, true)
  {
    hide WellFormed;
  }

  /** A container is closed, and becomes an entry of the one around it. */
  lemma LastStands(w: Writing, root: seq<Calls>, frames: seq<Frame>, events: seq<Event>, inArray: bool, count: nat)
    returns (newRoot: seq<Calls>, newFrames: seq<Frame>)
    requires Stands(w, root, frames, events) && Write(w, Last(inArray, count)).Some?
    ensures Stands(Write(w, Last(inArray, count)).value, newRoot, newFrames, events + [Last(inArray, count)])
  {
    LastIsTaken(w, inArray, count);
    hide Write;
    var v := Write(w, Last(inArray, count)).value;
    var last := |frames| - 1;
    var f, outer := frames[last], frames[..last];
    var c := Inner(inArray, f.entries, count);
    ClosedIsWellFormed(f, count);
    FlatClosed(frames, count);
    hide WellFormed;
    assert Levelled(v.levels, outer, true);
    if outer == [] {
      newRoot, newFrames := [c], [];
      FlatOne(c);
      NoFlat();
      assert [] + Flat(c) == Flat(c);
    } else {
      newRoot, newFrames := [], Longer(outer, c);
      LevelledLonger(v.levels, v.levels, outer, true, c);
      FlatLonger(outer, c);
    }
  }

  lemma ClosedIsWellFormed(f: Frame, count: nat)
    requires FrameOk(f, false) && (!f.inArray ==> |f.entries| % 2 == 0)
    ensures WellFormed(Inner(f.inArray, f.entries, count))
  {
  }

  lemma FlatClosed(frames: seq<Frame>, count: nat)
    requires frames != []
    ensures var f := frames[|frames| - 1];
      FlatFrames(frames) + [Last(f.inArray, count)]
        == FlatFrames(frames[..|frames| - 1]) + Flat(Inner(f.inArray, f.entries, count))
  {
    hide FlatAll;
    var f := frames[|frames| - 1];
    Regroup(FlatFrames(frames[..|frames| - 1]), [First(f.inArray)], FlatAll(f.entries), [Last(f.inArray, count)]);
  }

  lemma Regroup(a: seq<Event>, b: seq<Event>, c: seq<Event>, d: seq<Event>)
    ensures a + b + c + d == a + (b + c + d)
  {
  }

  lemma CallStands(w: Writing, root: seq<Calls>, frames: seq<Frame>, events: seq<Event>, e: Event)
    returns (newRoot: seq<Calls>, newFrames: seq<Frame>)
    requires Stands(w, root, frames, events) && Write(w, e).Some?
    ensures Stands(Write(w, e).value, newRoot, newFrames, events + [e])
  {
    assert !e.Double?;
    hide Write;
    hide Stands;
    match e
    case StartObject =>
      newRoot, newFrames := [], frames + [Frame(false, [])];
      FirstStands(w, root, frames, events, false);
    case StartArray =>
      newRoot, newFrames := [], frames + [Frame(true, [])];
      FirstStands(w, root, frames, events, true);
    case EndObject(count) => newRoot, newFrames := LastStands(w, root, frames, events, false, count);
    case EndArray(count) => newRoot, newFrames := LastStands(w, root, frames, events, true, count);
    case _ => newRoot, newFrames := PlainStands(w, root, frames, events, e);
  }

  lemma {:induction false} CallsStand(w: Writing, root: seq<Calls>, frames: seq<Frame>, events: seq<Event>,
                                      more: seq<Event>)
    returns (newRoot: seq<Calls>, newFrames: seq<Frame>)
    requires Stands(w, root, frames, events) && WriteAll(w, more).Some?
    ensures Stands(WriteAll(w, more).value, newRoot, newFrames, events + more)
    decreases |more|
  {
    hide Write;
    hide Stands;
    if more == [] {
      newRoot, newFrames := root, frames;
      assert events + more == events;
    } else {
      var root1, frames1 := CallStands(w, root, frames, events, more[0]);
      newRoot, newFrames := CallsStand(Write(w, more[0]).value, root1, frames1, events + [more[0]], more[1..]);
      assert events + [more[0]] + more[1..] == events + more;
    }
  }

  lemma NothingStands()
    ensures Stands(EMPTY, [], [], [])
  {
    NoFlat();
  }

  lemma CompleteIsOne(w: Writing, root: seq<Calls>, frames: seq<Frame>, events: seq<Event>)
    requires Stands(w, root, frames, events) && w.levels == [] && w.hasRoot
    ensures |root| == 1 && WellFormed(root[0]) && Flat(root[0]) == events
  {
    hide Flat;
    assert root == [root[0]];
    FlatOne(root[0]);
  }

  /** The writer has taken all calls and has written one complete value. */
  predicate Complete(events: seq<Event>) {
    var r := WriteAll(EMPTY, events);
    r.Some? && r.value.levels == [] && r.value.hasRoot
  }

  /** Its assertions hold, and the text is complete, exactly for the calls of one value. */
  lemma WriterTakesValues(events: seq<Event>)
    ensures Complete(events) <==> exists c :: WellFormed(c) && Flat(c) == events
  {
    hide WriteAll;
    hide WellFormed;
    hide Flat;
    if Complete(events) {
      NothingStands();
      var root, frames := CallsStand(EMPTY, [], [], [], events);
      assert [] + events == events;
      hide Stands;
      CompleteIsOne(WriteAll(EMPTY, events).value, root, frames, events);
    }
    forall c | WellFormed(c) && Flat(c) == events
      ensures Complete(events)
    {
      CallsAreTaken(EMPTY, c);
    }
  }
}
