/**
 The iterative parser of include/rapidjson/reader.h: a state table, one lookahead token and an
 explicit stack.  It is shown to be the same function of the text as the recursive parser.
 */
module JsonMachine {
  import opened JsonGrammar

  datatype State =
    | FinishState | ErrorState | StartState
    | ObjectInitialState | MemberKeyState | MemberValueState | ObjectFinishState
    | ArrayInitialState | ElementState | ArrayFinishState
    | ValueState
    | ElementDelimiterState | MemberDelimiterState | KeyValueDelimiterState

  datatype TokenKind =
    | LeftBracket | RightBracket | LeftCurlyBracket | RightCurlyBracket | Comma | Colon
    | StringToken | FalseToken | TrueToken | NullToken | NumberToken

  function Tokenize(c: char): TokenKind {
    if c == '[' then LeftBracket
    else if c == ']' then RightBracket
    else if c == '{' then LeftCurlyBracket
    else if c == '}' then RightCurlyBracket
    else if c == ',' then Comma
    else if c == ':' then Colon
    else if c == '"' then StringToken
    else if c == 'f' then FalseToken
    else if c == 't' then TrueToken
    else if c == 'n' then NullToken
    else NumberToken
  }

  /** The row shared by the states that expect a value: `value` is where a scalar leads. */
  function ExpectValue(token: TokenKind, close: State, value: State): State {
    match token
    case LeftBracket => ArrayInitialState
    case RightBracket => close
    case LeftCurlyBracket => ObjectInitialState
    case RightCurlyBracket => ErrorState
    case Comma => ErrorState
    case Colon => ErrorState
    case _ => value
  }

  /** Current state and lookahead token give the candidate state. */
  function Predict(state: State, token: TokenKind): State {
    match state
    case StartState => ExpectValue(token, ErrorState, ValueState)
    case ArrayInitialState => ExpectValue(token, ArrayFinishState, ElementState)
    case ElementDelimiterState => ExpectValue(token, ArrayFinishState, ElementState)
    case KeyValueDelimiterState => ExpectValue(token, ErrorState, MemberValueState)
    case ObjectInitialState =>
      if token == RightCurlyBracket then ObjectFinishState else if token == StringToken then MemberKeyState
      else ErrorState
    case MemberDelimiterState =>
      if token == RightCurlyBracket then ObjectFinishState else if token == StringToken then MemberKeyState
      else ErrorState
    case MemberKeyState =>
      if token == Colon then KeyValueDelimiterState else ErrorState
    case MemberValueState =>
      if token == RightCurlyBracket then ObjectFinishState else if token == Comma then MemberDelimiterState
      else ErrorState
    case ElementState =>
      if token == RightBracket then ArrayFinishState else if token == Comma then ElementDelimiterState else ErrorState
    case _ => ErrorState
  }

  /** Two stack cells pushed together: the state to resume and the count of the open container. */
  datatype Frame = Frame(resume: State, count: nat)

  /** A machine configuration. */
  datatype Machine = Machine(state: State, stack: seq<Frame>, pos: nat, events: seq<Event>)

  function Pushed(state: State): State {
    if state == ArrayInitialState || state == ElementDelimiterState then ElementState
    else if state == KeyValueDelimiterState then MemberValueState
    else state
  }

  function Failed(m: Machine, events: seq<Event>): Machine {
    m.(state := ErrorState, events := events)
  }

  /** Adopts an outcome in a new state. */
  function Adopt(m: Machine, r: Outcome, state: State): Machine {
    if r.Error? then Failed(m, r.events) else m.(state := state, pos := r.pos, events := r.events)
  }

  function Open(m: Machine, st: Settings, dst: State, e: Event): Machine {
    var n := m.(stack := m.stack + [Frame(Pushed(m.state), 0)]);
    Adopt(n, Send(st, m.pos + 1, m.events, e), dst)
  }

  function Top(m: Machine): Frame
    requires m.stack != []
  {
    m.stack[|m.stack| - 1]
  }

  function Rest(m: Machine): seq<Frame>
    requires m.stack != []
  {
    m.stack[..|m.stack| - 1]
  }

  function Counted(m: Machine): seq<Frame>
    requires m.stack != []
  {
    Rest(m) + [Frame(Top(m).resume, Increment(Top(m).count))]
  }

  /** Closes the innermost container; `last` is the state in which a last entry is not yet counted. */
  function Close(m: Machine, st: Settings, delimiter: State, last: State, isObject: bool): Machine
    requires m.stack != []
  {
    if !st.trailingCommas && m.state == delimiter then Failed(m, m.events)
    else
      var count := if m.state == last then Increment(Top(m).count) else Top(m).count;
      var resume := if Top(m).resume == StartState then FinishState else Top(m).resume;
      Adopt(m.(stack := Rest(m)), Send(st, m.pos + 1, m.events, if isObject then EndObject(count) else EndArray(count)),
        resume)
  }

  /** Every state except the ones at the root is inside an open container. */
  predicate NeedsStack(state: State) {
    state != StartState && state != FinishState && state != ErrorState
  }

  function Transit(t: string, st: Settings, m: Machine, dst: State): (r: Machine)
    requires dst == Predict(m.state, Tokenize(Peek(t, m.pos)))
    requires NeedsStack(m.state) ==> m.stack != []
  {
    match dst
    case ErrorState => Failed(m, m.events)
    case ObjectInitialState => Open(m, st, dst, StartObject)
    case ArrayInitialState => Open(m, st, dst, StartArray)
    case MemberKeyState =>
      var name := StringBody(t, m.pos + 1);
      if name.Bad? then Failed(m, m.events) else Adopt(m, Send(st, name.pos, m.events, Key(name.value)), dst)
    case KeyValueDelimiterState => m.(state := dst, pos := m.pos + 1)
    case MemberValueState => Adopt(m, ScalarOutcome(t, st, m.pos, m.events), dst)
    case ElementState => Adopt(m, ScalarOutcome(t, st, m.pos, m.events), dst)
    case MemberDelimiterState => m.(state := dst, stack := Counted(m), pos := m.pos + 1)
    case ElementDelimiterState => m.(state := dst, stack := Counted(m), pos := m.pos + 1)
    case ObjectFinishState => Close(m, st, MemberDelimiterState, MemberValueState, true)
    case ArrayFinishState => Close(m, st, ElementDelimiterState, ElementState, false)
    case _ => Adopt(m, ScalarOutcome(t, st, m.pos, m.events), FinishState)
  }

  /** Frames lead back to an enclosing array or object, the bottom one to the end. */
  predicate WellFormed(m: Machine) {
    && (m.state.StartState? || m.state.FinishState? ==> m.stack == [])
    && (NeedsStack(m.state) ==> m.stack != [])
    && !m.state.ErrorState? && !m.state.ValueState? && !m.state.ObjectFinishState? && !m.state.ArrayFinishState?
    && (m.state.ObjectInitialState? || m.state.ArrayInitialState? ==> Top(m).count == 0)
    && (m.stack != [] ==> m.stack[0].resume == StartState)
    && (forall i :: 0 < i < |m.stack| ==>
          m.stack[i].resume == ElementState || m.stack[i].resume == MemberValueState)
  }

  /** One turn of the main loop. */
  function StepOf(t: string, st: Settings, m: Machine): Machine
    requires WellFormed(m)
  {
    Transit(t, st, m, Predict(m.state, Tokenize(Peek(t, m.pos))))
  }

  predicate ExpectsValue(state: State) {
    state == StartState || state == ArrayInitialState || state == ElementDelimiterState
      || state == KeyValueDelimiterState
  }

  lemma OpenProgress(st: Settings, m: Machine, dst: State, e: Event)
    requires WellFormed(m) && ExpectsValue(m.state)
    requires dst == ObjectInitialState || dst == ArrayInitialState
    ensures var r := Open(m, st, dst, e);
      r.state != ErrorState ==> WellFormed(r) && r.pos == m.pos + 1
  {
  }

  lemma CloseProgress(st: Settings, m: Machine, delimiter: State, last: State, isObject: bool)
    requires WellFormed(m) && m.stack != []
    ensures var r := Close(m, st, delimiter, last, isObject);
      r.state != ErrorState ==> WellFormed(r) && r.pos == m.pos + 1
  {
  }

  lemma CountedProgress(m: Machine, dst: State)
    requires WellFormed(m) && m.stack != []
    requires dst == MemberDelimiterState || dst == ElementDelimiterState
    ensures WellFormed(m.(state := dst, stack := Counted(m), pos := m.pos + 1))
  {
  }

  lemma SameStackProgress(m: Machine, r: Outcome, dst: State)
    requires WellFormed(m)
    requires if m.state == StartState then dst == FinishState else
      m.stack != [] && (dst == MemberKeyState || dst == KeyValueDelimiterState || dst == MemberValueState
        || dst == ElementState)
    ensures r.Done? ==> WellFormed(Adopt(m, r, dst))
  {
  }

  /** A step that does not fail reads something. */
  lemma TransitProgress(t: string, st: Settings, m: Machine)
    requires WellFormed(m) && Peek(t, m.pos) != NUL
    ensures var r := StepOf(t, st, m);
      r.state != ErrorState ==> WellFormed(r) && m.pos < r.pos <= |t|
  {
    hide ScalarOutcome;
    hide StringBody;
    hide Tokenize;
    hide Open;
    hide Close;
    hide Counted;
    match Predict(m.state, Tokenize(Peek(t, m.pos)))
    case ErrorState =>
    case ObjectInitialState => OpenProgress(st, m, ObjectInitialState, StartObject);
    case ArrayInitialState => OpenProgress(st, m, ArrayInitialState, StartArray);
    case MemberKeyState =>
      var name := StringBody(t, m.pos + 1);
      if name.Token? {
        SameStackProgress(m, Send(st, name.pos, m.events, Key(name.value)), MemberKeyState);
      }
    case KeyValueDelimiterState => SameStackProgress(m, Done(m.pos + 1, m.events), KeyValueDelimiterState);
    case MemberValueState => SameStackProgress(m, ScalarOutcome(t, st, m.pos, m.events), MemberValueState);
    case ElementState => SameStackProgress(m, ScalarOutcome(t, st, m.pos, m.events), ElementState);
    case MemberDelimiterState => CountedProgress(m, MemberDelimiterState);
    case ElementDelimiterState => CountedProgress(m, ElementDelimiterState);
    case ObjectFinishState => CloseProgress(st, m, MemberDelimiterState, MemberValueState, true);
    case ArrayFinishState => CloseProgress(st, m, ElementDelimiterState, ElementState, false);
    case _ => SameStackProgress(m, ScalarOutcome(t, st, m.pos, m.events), FinishState);
  }

  /** The main loop. */
  function Run(t: string, st: Settings, m: Machine): Outcome
    requires WellFormed(m)
    decreases |t| - m.pos
  {
    if Peek(t, m.pos) == NUL then
      if m.state == FinishState then Done(m.pos, m.events) else Error(m.events)
    else
      TransitProgress(t, st, m);
      var n := StepOf(t, st, m);
      if n.state == ErrorState then Error(n.events)
      else if st.stopWhenDone && n.state == FinishState then Done(n.pos, n.events)
      else Run(t, st, n.(pos := Skip(t, n.pos)))
  }

  function IterativeParse(t: string, st: Settings): Outcome {
    Run(t, st, Machine(StartState, [], Skip(t, 0), []))
  }

  // ---------------------------------------------------------------------------------------------
  // The recursive parser, interrupted

  /** What the recursive parser still has to do for the innermost open container (or for the root). */
  function Inner(t: string, st: Settings, m: Machine): Outcome
    requires WellFormed(m)
  {
    match m.state
    case StartState => Value(t, st, m.pos, m.events)
    case ObjectInitialState => ObjectBody(t, st, m.pos, m.events)
    case MemberKeyState => MemberColon(t, st, m.pos, m.events, Top(m).count)
    case KeyValueDelimiterState => MemberValue(t, st, m.pos, m.events, Top(m).count)
    case MemberValueState => MemberEnd(t, st, m.pos, m.events, Top(m).count)
    case MemberDelimiterState => NextMember(t, st, m.pos, m.events, Top(m).count)
    case ArrayInitialState => ArrayBody(t, st, m.pos, m.events)
    case ElementState => ElementEnd(t, st, m.pos, m.events, Top(m).count)
    case ElementDelimiterState => NextElement(t, st, m.pos, m.events, Top(m).count)
    case _ => Done(m.pos, m.events)
  }

  /** What happens after the innermost container (or the root) has ended. */
  function Outer(t: string, st: Settings, stack: seq<Frame>, r: Outcome): Outcome
    decreases |stack|, 1
  {
    if r.Error? then r
    else if stack == [] || stack[|stack| - 1].resume == StartState then
      AfterRoot(t, st, if st.stopWhenDone then r.pos else Skip(t, r.pos), r.events)
    else
      var top, rest := stack[|stack| - 1], stack[..|stack| - 1];
      if rest == [] then Error(r.events)
      else
        var count := rest[|rest| - 1].count;
        var v :=
          if top.resume == ElementState then ElementEnd(t, st, Skip(t, r.pos), r.events, count)
          else MemberEnd(t, st, Skip(t, r.pos), r.events, count);
        Outer(t, st, rest, v)
  }

  /** The whole rest of the recursive parser's work. */
  function Resume(t: string, st: Settings, m: Machine): Outcome
    requires WellFormed(m)
  {
    if m.state == FinishState then AfterRoot(t, st, m.pos, m.events)
    else Outer(t, st, m.stack, Inner(t, st, m))
  }

  /** The recursive parser's value functions, seen from the first character. */
  lemma ValueByToken(t: string, st: Settings, pos: nat, events: seq<Event>)
    requires Peek(t, pos) != NUL
    ensures match Tokenize(Peek(t, pos))
      case LeftBracket =>
        var s := Send(st, pos + 1, events, StartArray);
        Value(t, st, pos, events) == if s.Error? then s else ArrayBody(t, st, Skip(t, s.pos), s.events)
      case LeftCurlyBracket =>
        var s := Send(st, pos + 1, events, StartObject);
        Value(t, st, pos, events) == if s.Error? then s else ObjectBody(t, st, Skip(t, s.pos), s.events)
      case RightBracket => Value(t, st, pos, events) == Error(events)
      case RightCurlyBracket => Value(t, st, pos, events) == Error(events)
      case Comma => Value(t, st, pos, events) == Error(events)
      case Colon => Value(t, st, pos, events) == Error(events)
      case _ => Value(t, st, pos, events) == ScalarOutcome(t, st, pos, events)
  {
  }

  /** Entering a container nested in another one. */
  lemma OuterOfNested(t: string, st: Settings, stack: seq<Frame>, resume: State, r: Outcome)
    requires stack != [] && (resume == ElementState || resume == MemberValueState)
    ensures Outer(t, st, stack + [Frame(resume, 0)], r) ==
      if r.Error? then r
      else Outer(t, st, stack,
        if resume == ElementState then ElementEnd(t, st, Skip(t, r.pos), r.events, stack[|stack| - 1].count)
        else MemberEnd(t, st, Skip(t, r.pos), r.events, stack[|stack| - 1].count))
  {
    var all := stack + [Frame(resume, 0)];
    assert all[|all| - 1] == Frame(resume, 0) && all[..|all| - 1] == stack;
  }

  /** What one step has to establish: the recursive parser's remaining work is the same after it. */
  ghost predicate Keeps(t: string, st: Settings, m: Machine, n: Machine)
    requires WellFormed(m)
  {
    if n.state == ErrorState then Resume(t, st, m) == Error(n.events)
    else
      && WellFormed(n)
      && Resume(t, st, m) ==
        if st.stopWhenDone && n.state == FinishState then Done(n.pos, n.events)
        else Resume(t, st, n.(pos := Skip(t, n.pos)))
  }

  lemma RootStep(t: string, st: Settings, m: Machine)
    requires WellFormed(m) && Peek(t, m.pos) != NUL
    requires m.state == StartState || (m.state == FinishState && !st.stopWhenDone)
    ensures Keeps(t, st, m, StepOf(t, st, m))
  {
    hide Value;
    hide ObjectBody;
    hide Members;
    hide MemberColon;
    hide MemberValue;
    hide MemberEnd;
    hide NextMember;
    hide ArrayBody;
    hide Elements;
    hide ElementEnd;
    hide NextElement;
    hide ScalarOutcome;
    hide StringBody;
    hide Close;
    hide Counted;
    hide Outer;
    TransitProgress(t, st, m);
    ValueByToken(t, st, m.pos, m.events);
    if m.state == StartState {
      var v := Value(t, st, m.pos, m.events);
      OuterAtRoot(t, st, v);
      assert m.stack + [Frame(StartState, 0)] == [Frame(StartState, 0)];
    }
  }

  lemma OuterAtRoot(t: string, st: Settings, r: Outcome)
    ensures var after := if r.Error? then r
      else AfterRoot(t, st, if st.stopWhenDone then r.pos else Skip(t, r.pos), r.events);
      Outer(t, st, [], r) == after && Outer(t, st, [Frame(StartState, 0)], r) == after
  {
  }

  /** What remains after a value inside a container. */
  function AfterValue(t: string, st: Settings, m: Machine, v: Outcome): Outcome
    requires WellFormed(m) && ExpectsValue(m.state) && m.state != StartState
  {
    if v.Error? then v
    else if m.state == KeyValueDelimiterState then MemberEnd(t, st, Skip(t, v.pos), v.events, Top(m).count)
    else ElementEnd(t, st, Skip(t, v.pos), v.events, Top(m).count)
  }

  lemma InnerIsAfterValue(t: string, st: Settings, m: Machine)
    requires WellFormed(m) && ExpectsValue(m.state) && m.state != StartState
    requires m.state == KeyValueDelimiterState || Peek(t, m.pos) != ']'
    ensures Inner(t, st, m) == AfterValue(t, st, m, Value(t, st, m.pos, m.events))
  {
    if m.state != KeyValueDelimiterState {
      assert Inner(t, st, m) == Elements(t, st, m.pos, m.events, Top(m).count);
    }
  }

  /** Entering an object or an array: the machine's new state and frame stand for the same work. */
  lemma ResumeAfterOpen(t: string, st: Settings, m: Machine, dst: State, pos: nat, events: seq<Event>)
    requires WellFormed(m) && ExpectsValue(m.state) && m.state != StartState
    requires dst == ObjectInitialState || dst == ArrayInitialState
    ensures var n := Machine(dst, m.stack + [Frame(Pushed(m.state), 0)], pos, events);
      && WellFormed(n)
      && Resume(t, st, n) == Outer(t, st, m.stack, AfterValue(t, st, m,
           if dst == ObjectInitialState then ObjectBody(t, st, pos, events) else ArrayBody(t, st, pos, events)))
  {
    hide Value;
    hide ObjectBody;
    hide Members;
    hide MemberColon;
    hide MemberValue;
    hide MemberEnd;
    hide NextMember;
    hide ArrayBody;
    hide Elements;
    hide ElementEnd;
    hide NextElement;
    hide Outer;
    var v := if dst == ObjectInitialState then ObjectBody(t, st, pos, events) else ArrayBody(t, st, pos, events);
    OuterOfNested(t, st, m.stack, Pushed(m.state), v);
    OuterOfError(t, st, m.stack, v);
  }

  lemma OpenObject(t: string, st: Settings, m: Machine)
    requires WellFormed(m) && ExpectsValue(m.state) && m.state != StartState
    requires Peek(t, m.pos) == '{'
    ensures Keeps(t, st, m, StepOf(t, st, m))
  {
    hide Value;
    hide ObjectBody;
    hide Members;
    hide MemberColon;
    hide MemberValue;
    hide MemberEnd;
    hide NextMember;
    hide ArrayBody;
    hide Elements;
    hide ElementEnd;
    hide NextElement;
    hide ScalarOutcome;
    hide StringBody;
    hide Close;
    hide Counted;
    hide Inner;
    hide Outer;
    TransitProgress(t, st, m);
    ValueByToken(t, st, m.pos, m.events);
    InnerIsAfterValue(t, st, m);
    var v := Value(t, st, m.pos, m.events);
    OuterOfError(t, st, m.stack, v);
    var n := StepOf(t, st, m);
    if n.state != ErrorState {
      ResumeAfterOpen(t, st, m, n.state, Skip(t, n.pos), n.events);
    }
  }

  lemma OpenArray(t: string, st: Settings, m: Machine)
    requires WellFormed(m) && ExpectsValue(m.state) && m.state != StartState
    requires Peek(t, m.pos) == '['
    ensures Keeps(t, st, m, StepOf(t, st, m))
  {
    hide Value;
    hide ObjectBody;
    hide Members;
    hide MemberColon;
    hide MemberValue;
    hide MemberEnd;
    hide NextMember;
    hide ArrayBody;
    hide Elements;
    hide ElementEnd;
    hide NextElement;
    hide ScalarOutcome;
    hide StringBody;
    hide Close;
    hide Counted;
    hide Inner;
    hide Outer;
    TransitProgress(t, st, m);
    ValueByToken(t, st, m.pos, m.events);
    InnerIsAfterValue(t, st, m);
    var v := Value(t, st, m.pos, m.events);
    OuterOfError(t, st, m.stack, v);
    var n := StepOf(t, st, m);
    if n.state != ErrorState {
      ResumeAfterOpen(t, st, m, n.state, Skip(t, n.pos), n.events);
    }
  }

  /** The three states inside a container that expect a value, when it is an object or an array. */
  lemma OpenStep(t: string, st: Settings, m: Machine)
    requires WellFormed(m) && ExpectsValue(m.state) && m.state != StartState
    requires Peek(t, m.pos) == '{' || Peek(t, m.pos) == '['
    ensures Keeps(t, st, m, StepOf(t, st, m))
  {
    hide Keeps;
    hide StepOf;
    hide WellFormed;
    if Peek(t, m.pos) == '{' {
      OpenObject(t, st, m);
    } else {
      OpenArray(t, st, m);
    }
  }

  lemma OuterOfError(t: string, st: Settings, stack: seq<Frame>, r: Outcome)
    ensures r.Error? ==> Outer(t, st, stack, r) == r
  {
  }

  /** The same states on any other first character. */
  lemma ScalarStep(t: string, st: Settings, m: Machine)
    requires WellFormed(m) && ExpectsValue(m.state) && m.state != StartState && Peek(t, m.pos) != NUL
    requires Peek(t, m.pos) != '{' && Peek(t, m.pos) != '['
    requires m.state == KeyValueDelimiterState || Peek(t, m.pos) != ']'
    ensures Keeps(t, st, m, StepOf(t, st, m))
  {
    hide Value;
    hide ObjectBody;
    hide Members;
    hide MemberColon;
    hide MemberValue;
    hide MemberEnd;
    hide NextMember;
    hide ArrayBody;
    hide Elements;
    hide ElementEnd;
    hide NextElement;
    hide ScalarOutcome;
    hide StringBody;
    hide Close;
    hide Counted;
    hide Open;
    TransitProgress(t, st, m);
    ValueByToken(t, st, m.pos, m.events);
    InnerIsAfterValue(t, st, m);
    OuterOfError(t, st, m.stack, Value(t, st, m.pos, m.events));
  }

  /** A closing bracket ends the innermost container. */
  lemma OuterOfClosed(t: string, st: Settings, m: Machine, r: Outcome)
    requires WellFormed(m) && m.stack != [] && NeedsStack(m.state) && r.Done?
    ensures var resume := if Top(m).resume == StartState then FinishState else Top(m).resume;
      var n := Machine(resume, Rest(m), r.pos, r.events);
      && WellFormed(n)
      && Outer(t, st, m.stack, r) ==
        if st.stopWhenDone && resume == FinishState then Done(n.pos, n.events)
        else Resume(t, st, n.(pos := Skip(t, n.pos)))
  {
    hide ElementEnd;
    hide MemberEnd;
    hide Predict;
    if |m.stack| == 1 {
      assert Rest(m) == [];
    } else {
      assert Top(m) == m.stack[|m.stack| - 1];
    }
  }

  /** A closing bracket of the open container's own kind. */
  predicate AtOwnBracket(t: string, m: Machine) {
    || (Peek(t, m.pos) == ']'
      && (m.state == ArrayInitialState || m.state == ElementState || m.state == ElementDelimiterState))
    || (Peek(t, m.pos) == '}'
      && (m.state == ObjectInitialState || m.state == MemberValueState || m.state == MemberDelimiterState))
  }

  /** The recursive parser counts a last entry that no comma follows, and may refuse one that a comma precedes. */
  lemma InnerAtBracket(t: string, st: Settings, m: Machine)
    requires WellFormed(m) && AtOwnBracket(t, m)
    ensures var last := m.state == ElementState || m.state == MemberValueState;
      var count := if last then Increment(Top(m).count) else Top(m).count;
      Inner(t, st, m) ==
        if !st.trailingCommas && (m.state == ElementDelimiterState || m.state == MemberDelimiterState)
        then Error(m.events)
        else Send(st, m.pos + 1, m.events, if Peek(t, m.pos) == '}' then EndObject(count) else EndArray(count))
  {
    ValueByToken(t, st, m.pos, m.events);
    if m.state == ElementDelimiterState && !st.trailingCommas {
      assert Elements(t, st, m.pos, m.events, Top(m).count) == Error(m.events);
    }
    if m.state == MemberDelimiterState && !st.trailingCommas {
      assert Members(t, st, m.pos, m.events, Top(m).count) == Error(m.events);
    }
  }

  lemma CloseStep(t: string, st: Settings, m: Machine)
    requires WellFormed(m) && AtOwnBracket(t, m)
    ensures Keeps(t, st, m, StepOf(t, st, m))
  {
    hide Inner;
    hide Outer;
    hide Open;
    hide Counted;
    hide ScalarOutcome;
    hide StringBody;
    TransitProgress(t, st, m);
    InnerAtBracket(t, st, m);
    var r := Inner(t, st, m);
    OuterOfError(t, st, m.stack, r);
    if r.Done? {
      OuterOfClosed(t, st, m, r);
    }
  }

  /** The count of the innermost container plays no part once that container has ended. */
  lemma OuterIgnoresTopCount(t: string, st: Settings, m: Machine)
    requires WellFormed(m) && m.stack != []
    ensures forall r :: Outer(t, st, Counted(m), r) == Outer(t, st, m.stack, r)
  {
    assert Counted(m)[..|m.stack| - 1] == Rest(m);
  }

  /** A member's name. */
  lemma NameStep(t: string, st: Settings, m: Machine)
    requires WellFormed(m) && Peek(t, m.pos) != NUL && Peek(t, m.pos) != '}'
    requires m.state == ObjectInitialState || m.state == MemberDelimiterState
    ensures Keeps(t, st, m, StepOf(t, st, m))
  {
    hide Value;
    hide MemberColon;
    hide MemberValue;
    hide MemberEnd;
    hide ArrayBody;
    hide Elements;
    hide ElementEnd;
    hide NextElement;
    hide ScalarOutcome;
    hide StringBody;
    hide Close;
    hide Counted;
    hide Open;
    hide Outer;
    TransitProgress(t, st, m);
    OuterOfError(t, st, m.stack, Inner(t, st, m));
    assert Inner(t, st, m) == Members(t, st, m.pos, m.events, Top(m).count);
  }

  /** A colon, or a comma after a complete value. */
  lemma PunctuationStep(t: string, st: Settings, m: Machine)
    requires WellFormed(m) && Peek(t, m.pos) != NUL
    requires
      || m.state == MemberKeyState
      || (m.state == ElementState && Peek(t, m.pos) != ']')
      || (m.state == MemberValueState && Peek(t, m.pos) != '}')
    ensures Keeps(t, st, m, StepOf(t, st, m))
  {
    hide Value;
    hide ObjectBody;
    hide Members;
    hide MemberValue;
    hide NextMember;
    hide ArrayBody;
    hide Elements;
    hide NextElement;
    hide ScalarOutcome;
    hide StringBody;
    hide Close;
    hide Open;
    hide Outer;
    TransitProgress(t, st, m);
    OuterOfError(t, st, m.stack, Inner(t, st, m));
    OuterIgnoresTopCount(t, st, m);
    assert Counted(m)[|m.stack| - 1] == Frame(Top(m).resume, Increment(Top(m).count));
  }

  /** A step of the machine is a step of what the recursive parser has left to do. */
  lemma StepKeepsResume(t: string, st: Settings, m: Machine)
    requires WellFormed(m) && Peek(t, m.pos) != NUL
    requires !(st.stopWhenDone && m.state == FinishState)
    ensures Keeps(t, st, m, StepOf(t, st, m))
  {
    hide Keeps;
    hide StepOf;
    var c := Peek(t, m.pos);
    if m.state == StartState || m.state == FinishState {
      RootStep(t, st, m);
    } else if AtOwnBracket(t, m) {
      CloseStep(t, st, m);
    } else if ExpectsValue(m.state) {
      if c == '{' || c == '[' {
        OpenStep(t, st, m);
      } else {
        ScalarStep(t, st, m);
      }
    } else if m.state == ObjectInitialState || m.state == MemberDelimiterState {
      NameStep(t, st, m);
    } else {
      PunctuationStep(t, st, m);
    }
  }

  /** At the end of the text both parsers fail unless the root is complete. */
  lemma EndOfText(t: string, st: Settings, m: Machine)
    requires WellFormed(m) && Peek(t, m.pos) == NUL
    ensures Resume(t, st, m) == if m.state == FinishState then Done(m.pos, m.events) else Error(m.events)
  {
    assert Value(t, st, m.pos, m.events) == Error(m.events);
    if m.stack != [] {
      assert Elements(t, st, m.pos, m.events, Top(m).count) == Error(m.events);
      assert Members(t, st, m.pos, m.events, Top(m).count) == Error(m.events);
      assert MemberValue(t, st, m.pos, m.events, Top(m).count) == Error(m.events);
    }
  }

  lemma {:induction false} RunIsResume(t: string, st: Settings, m: Machine)
    requires WellFormed(m) && !(st.stopWhenDone && m.state == FinishState)
    ensures Run(t, st, m) == Resume(t, st, m)
    decreases |t| - m.pos
  {
    if Peek(t, m.pos) == NUL {
      EndOfText(t, st, m);
    } else {
      StepKeepsResume(t, st, m);
      TransitProgress(t, st, m);
      var n := StepOf(t, st, m);
      if n.state != ErrorState && !(st.stopWhenDone && n.state == FinishState) {
        RunIsResume(t, st, n.(pos := Skip(t, n.pos)));
      }
    }
  }

  /**
   The two parsers agree: on every text, with every setting and every handler, they accept or reject
   together, stop at the same position and send the same events, counts included.
   */
  lemma ParsersAgree(t: string, st: Settings)
    ensures IterativeParse(t, st) == Parse(t, st)
  {
    var m := Machine(StartState, [], Skip(t, 0), []);
    RunIsResume(t, st, m);
    if Peek(t, m.pos) == NUL {
      EndOfText(t, st, m);
    }
  }
}
