/**
 A handler may end the parse by returning false: it then has got the events up to the first one that it
 refused, and no others.
 */
module JsonStops {
  import opened JsonGrammar
  import JsonMachine

  /** The same parse with a handler that refuses nothing. */
  function Free(st: Settings): Settings {
    st.(goesOn := events => true)
  }

  /** An outcome as it is when the handler refuses one of the events after the first k. */
  function Cut(st: Settings, k: nat, o: Outcome): (r: Outcome)
    requires k <= |o.events|
    decreases |o.events| - k
  {
    if k == |o.events| then o
    else if !st.goesOn(o.events[..k + 1]) then Error(o.events[..k + 1])
    else Cut(st, k + 1, o)
  }

  /** The handler takes each of these, one after the other. */
  predicate TakesAll(st: Settings, events: seq<Event>) {
    forall j :: 0 < j <= |events| ==> st.goesOn(events[..j])
  }

  lemma {:induction false} CutMeaning(st: Settings, k: nat, o: Outcome)
    requires k <= |o.events| && forall j :: 0 < j <= k ==> st.goesOn(o.events[..j])
    ensures var r := Cut(st, k, o);
      if TakesAll(st, o.events) then r == o
      else
        && r.Error? && 0 < |r.events| <= |o.events| && r.events == o.events[..|r.events|]
        && !st.goesOn(r.events) && forall j :: 0 < j < |r.events| ==> st.goesOn(o.events[..j])
    decreases |o.events| - k
  {
    if k < |o.events| && st.goesOn(o.events[..k + 1]) {
      CutMeaning(st, k + 1, o);
    }
  }

  /** What is cut off early is cut off whatever comes later. */
  lemma {:induction false} CutThrough(st: Settings, k: nat, o: Outcome, p: Outcome)
    requires o.Done? && o.events <= p.events && k <= |o.events|
    ensures Cut(st, k, p) == if Cut(st, k, o).Error? then Cut(st, k, o) else Cut(st, |o.events|, p)
    ensures Cut(st, k, o).Done? ==> Cut(st, k, o) == o
    decreases |o.events| - k
  {
    if k < |o.events| {
      assert p.events[..k + 1] == o.events[..k + 1];
      CutThrough(st, k + 1, o, p);
    }
  }

  lemma CutSend(st: Settings, pos: nat, events: seq<Event>, e: Event)
    ensures events <= Send(Free(st), pos, events, e).events
    ensures Cut(st, |events|, Send(Free(st), pos, events, e)) == Send(st, pos, events, e)
  {
    var more := events + [e];
    assert more[..|events| + 1] == more;
  }

  lemma CutNothing(st: Settings, events: seq<Event>)
    ensures Cut(st, |events|, Error(events)) == Error(events)
  {
  }

  /** Scalars do not depend on the handler. */
  lemma SameScalar(t: string, st: Settings, pos: nat)
    ensures Scalar(t, Free(st), pos) == Scalar(t, st, pos)
  {
  }

  /** A step with one event, and then the rest of the parse. */
  lemma AfterSend(st: Settings, pos: nat, events: seq<Event>, e: Event, rest: Outcome, cut: Outcome)
    requires var sent := events + [e];
      sent <= rest.events && (st.goesOn(sent) ==> cut == Cut(st, |sent|, rest))
    ensures events <= rest.events
    ensures Cut(st, |events|, rest) == if Send(st, pos, events, e).Error? then Send(st, pos, events, e) else cut
  {
    assert rest.events[..|events| + 1] == events + [e];
  }

  lemma {:induction false} ValueIsCut(t: string, st: Settings, pos: nat, events: seq<Event>)
    ensures events <= Value(t, Free(st), pos, events).events
    ensures Cut(st, |events|, Value(t, Free(st), pos, events)) == Value(t, st, pos, events)
    decreases |t| - pos, 5
  {
    hide Cut;
    hide Scalar;
    hide ObjectBody;
    hide ArrayBody;
    if Peek(t, pos) == '{' {
      var sent := events + [StartObject];
      ObjectBodyIsCut(t, st, Skip(t, pos + 1), sent);
      AfterSend(st, pos + 1, events, StartObject, ObjectBody(t, Free(st), Skip(t, pos + 1), sent),
                ObjectBody(t, st, Skip(t, pos + 1), sent));
    } else if Peek(t, pos) == '[' {
      var sent := events + [StartArray];
      ArrayBodyIsCut(t, st, Skip(t, pos + 1), sent);
      AfterSend(st, pos + 1, events, StartArray, ArrayBody(t, Free(st), Skip(t, pos + 1), sent),
                ArrayBody(t, st, Skip(t, pos + 1), sent));
    } else {
      ScalarIsCut(t, st, pos, events);
    }
  }

  lemma ScalarIsCut(t: string, st: Settings, pos: nat, events: seq<Event>)
    ensures events <= ScalarOutcome(t, Free(st), pos, events).events
    ensures Cut(st, |events|, ScalarOutcome(t, Free(st), pos, events)) == ScalarOutcome(t, st, pos, events)
  {
    hide Scalar;
    hide Send;
    hide Cut;
    SameScalar(t, st, pos);
    var s := Scalar(t, st, pos);
    CutNothing(st, events);
    if s.Token? {
      CutSend(st, s.pos, events, s.value);
    }
  }

  lemma {:induction false} ObjectBodyIsCut(t: string, st: Settings, pos: nat, events: seq<Event>)
    ensures events <= ObjectBody(t, Free(st), pos, events).events
    ensures Cut(st, |events|, ObjectBody(t, Free(st), pos, events)) == ObjectBody(t, st, pos, events)
    decreases |t| - pos, 4
  {
    hide Cut;
    hide Send;
    hide Members;
    if Peek(t, pos) == '}' {
      CutSend(st, pos + 1, events, EndObject(0));
    } else {
      MembersAreCut(t, st, pos, events, 0);
    }
  }

  lemma {:induction false} MembersAreCut(t: string, st: Settings, pos: nat, events: seq<Event>, count: nat)
    ensures events <= Members(t, Free(st), pos, events, count).events
    ensures Cut(st, |events|, Members(t, Free(st), pos, events, count)) == Members(t, st, pos, events, count)
    decreases |t| - pos, 3
  {
    hide Cut;
    hide StringBody;
    hide MemberColon;
    CutNothing(st, events);
    var name := StringBody(t, pos + 1);
    if Peek(t, pos) == '"' && name.Token? {
      var sent := events + [Key(name.value)];
      var next := Skip(t, name.pos);
      MemberColonIsCut(t, st, next, sent, count);
      AfterSend(st, name.pos, events, Key(name.value), MemberColon(t, Free(st), next, sent, count),
                MemberColon(t, st, next, sent, count));
    }
  }

  lemma {:induction false} MemberColonIsCut(t: string, st: Settings, pos: nat, events: seq<Event>, count: nat)
    ensures events <= MemberColon(t, Free(st), pos, events, count).events
    ensures Cut(st, |events|, MemberColon(t, Free(st), pos, events, count)) == MemberColon(t, st, pos, events, count)
    decreases |t| - pos, 2
  {
    hide Cut;
    hide MemberValue;
    CutNothing(st, events);
    if Peek(t, pos) == ':' {
      MemberValueIsCut(t, st, Skip(t, pos + 1), events, count);
    }
  }

  lemma {:induction false} MemberValueIsCut(t: string, st: Settings, pos: nat, events: seq<Event>, count: nat)
    ensures events <= MemberValue(t, Free(st), pos, events, count).events
    ensures Cut(st, |events|, MemberValue(t, Free(st), pos, events, count)) == MemberValue(t, st, pos, events, count)
    decreases |t| - pos, 6
  {
    hide Cut;
    hide Value;
    hide MemberEnd;
    ValueIsCut(t, st, pos, events);
    var v := Value(t, Free(st), pos, events);
    if v.Done? {
      MemberEndIsCut(t, st, Skip(t, v.pos), v.events, count);
      CutThrough(st, |events|, v, MemberEnd(t, Free(st), Skip(t, v.pos), v.events, count));
    } else {
      CutError(st, |events|, v);
    }
  }

  lemma {:induction false} CutError(st: Settings, k: nat, o: Outcome)
    requires k <= |o.events| && o.Error?
    ensures Cut(st, k, o).Error?
    decreases |o.events| - k
  {
    if k < |o.events| {
      CutError(st, k + 1, o);
    }
  }

  lemma {:induction false} MemberEndIsCut(t: string, st: Settings, pos: nat, events: seq<Event>, count: nat)
    ensures events <= MemberEnd(t, Free(st), pos, events, count).events
    ensures Cut(st, |events|, MemberEnd(t, Free(st), pos, events, count)) == MemberEnd(t, st, pos, events, count)
    decreases |t| - pos, 1
  {
    hide Cut;
    hide Send;
    hide NextMember;
    CutNothing(st, events);
    if Peek(t, pos) == ',' {
      NextMemberIsCut(t, st, Skip(t, pos + 1), events, Increment(count));
    } else if Peek(t, pos) == '}' {
      CutSend(st, pos + 1, events, EndObject(Increment(count)));
    }
  }

  lemma {:induction false} NextMemberIsCut(t: string, st: Settings, pos: nat, events: seq<Event>, count: nat)
    ensures events <= NextMember(t, Free(st), pos, events, count).events
    ensures Cut(st, |events|, NextMember(t, Free(st), pos, events, count)) == NextMember(t, st, pos, events, count)
    decreases |t| - pos, 4
  {
    hide Cut;
    hide Send;
    hide Members;
    if st.trailingCommas && Peek(t, pos) == '}' {
      CutSend(st, pos + 1, events, EndObject(count));
    } else {
      MembersAreCut(t, st, pos, events, count);
    }
  }

  lemma {:induction false} ArrayBodyIsCut(t: string, st: Settings, pos: nat, events: seq<Event>)
    ensures events <= ArrayBody(t, Free(st), pos, events).events
    ensures Cut(st, |events|, ArrayBody(t, Free(st), pos, events)) == ArrayBody(t, st, pos, events)
    decreases |t| - pos, 7
  {
    hide Cut;
    hide Send;
    hide Elements;
    if Peek(t, pos) == ']' {
      CutSend(st, pos + 1, events, EndArray(0));
    } else {
      ElementsAreCut(t, st, pos, events, 0);
    }
  }

  lemma {:induction false} ElementsAreCut(t: string, st: Settings, pos: nat, events: seq<Event>, count: nat)
    ensures events <= Elements(t, Free(st), pos, events, count).events
    ensures Cut(st, |events|, Elements(t, Free(st), pos, events, count)) == Elements(t, st, pos, events, count)
    decreases |t| - pos, 6
  {
    hide Cut;
    hide Value;
    hide ElementEnd;
    ValueIsCut(t, st, pos, events);
    var v := Value(t, Free(st), pos, events);
    if v.Done? {
      ElementEndIsCut(t, st, Skip(t, v.pos), v.events, count);
      CutThrough(st, |events|, v, ElementEnd(t, Free(st), Skip(t, v.pos), v.events, count));
    } else {
      CutError(st, |events|, v);
    }
  }

  lemma {:induction false} ElementEndIsCut(t: string, st: Settings, pos: nat, events: seq<Event>, count: nat)
    ensures events <= ElementEnd(t, Free(st), pos, events, count).events
    ensures Cut(st, |events|, ElementEnd(t, Free(st), pos, events, count)) == ElementEnd(t, st, pos, events, count)
    decreases |t| - pos, 1
  {
    hide Cut;
    hide Send;
    hide NextElement;
    CutNothing(st, events);
    if Peek(t, pos) == ',' {
      NextElementIsCut(t, st, Skip(t, pos + 1), events, Increment(count));
    } else if Peek(t, pos) == ']' {
      CutSend(st, pos + 1, events, EndArray(Increment(count)));
    }
  }

  lemma {:induction false} NextElementIsCut(t: string, st: Settings, pos: nat, events: seq<Event>, count: nat)
    ensures events <= NextElement(t, Free(st), pos, events, count).events
    ensures Cut(st, |events|, NextElement(t, Free(st), pos, events, count)) == NextElement(t, st, pos, events, count)
    decreases |t| - pos, 7
  {
    hide Cut;
    hide Send;
    hide Elements;
    if st.trailingCommas && Peek(t, pos) == ']' {
      CutSend(st, pos + 1, events, EndArray(count));
    } else {
      ElementsAreCut(t, st, pos, events, count);
    }
  }

  lemma ParseIsCut(t: string, st: Settings)
    ensures Parse(t, st) == Cut(st, 0, Parse(t, Free(st)))
  {
    hide Cut;
    hide Value;
    var pos := Skip(t, 0);
    CutNothing(st, []);
    ValueIsCut(t, st, pos, []);
    var v := Value(t, Free(st), pos, []);
    if v.Done? {
      var end := if st.stopWhenDone then v.pos else Skip(t, v.pos);
      CutThrough(st, 0, v, AfterRoot(t, Free(st), end, v.events));
      CutAtEnd(st, v);
      CutAtEnd(st, AfterRoot(t, Free(st), end, v.events));
    } else {
      CutError(st, 0, v);
    }
  }

  lemma CutAtEnd(st: Settings, o: Outcome)
    ensures Cut(st, |o.events|, o) == o
  {
  }

  /**
   Either parser, with any handler: if it takes everything an indulgent handler would be sent, all is as for that
   one; if not, the parse fails just after the first event that it refuses.
   */
  lemma HandlerStops(t: string, st: Settings)
    ensures var all, r := Parse(t, Free(st)), Parse(t, st);
      if TakesAll(st, all.events) then r == all
      else
        && r.Error? && 0 < |r.events| <= |all.events| && r.events == all.events[..|r.events|]
        && !st.goesOn(r.events) && forall j :: 0 < j < |r.events| ==> st.goesOn(all.events[..j])
    ensures JsonMachine.IterativeParse(t, st) == Parse(t, st)
  {
    hide Cut;
    hide Parse;
    ParseIsCut(t, st);
    CutMeaning(st, 0, Parse(t, Free(st)));
    JsonMachine.ParsersAgree(t, st);
  }
}
