/**
 The hand-over of console lines from the reader thread to the main thread: src/InputLine.cpp with the
 wake-up signal of src/WakupThread.cpp.  A step is one access to shared memory by one of the threads;
 a run is any interleaving of such steps.
 */
module Handoff {

  /** Where the reader thread is: each value names what it does next. */
  datatype Reader =
    | TestExit
    | TestData
    | ClearBuffer
    | CallFgets
    | Filling(rest: string)
    | LockPending
    | SetPending
    | UnlockPending
    | Notify
    | Publish
    | Nap
    | Stopped

  /** Where the main thread is, inside `getInputLine` or `goToSleep` or neither. */
  datatype Main =
    | Idle
    // getInputLine
    | TestLine
    | LockResult
    | Copying(k: nat)
    | Strip
    | ClearFlag
    | UnlockResult
    | ReturnLine
    // goToSleep
    | LockSleep
    | TestPending(timedOut: bool)
    | Waiting
    | Relock(timeout: bool)
    | Take
    | Woke(pendingWork: bool)

  datatype Owner = Free | ReaderOwns | MainOwns

  /**
   The shared variables, the two threads, and the history: what `fgets` will still deliver, what it has
   delivered, what `getInputLine` has returned.  A string stands for the characters before the NUL, so a
   delivered line can be empty.
   */
  datatype State = State(
    reader: Reader,
    main: Main,
    buffer: string,
    result: string,
    haveNewData: bool,
    pendingWork: bool,
    owner: Owner,
    exiting: bool,
    unread: seq<string>,
    delivered: seq<string>,
    returned: seq<string>)

  function Init(input: seq<string>): State {
    State(TestExit, Idle, [], [], false, true, Free, false, input, [], [])
  }

  /** A trailing line feed is dropped. */
  function Chomp(s: string): string {
    if s != [] && s[|s| - 1] == '\n' then s[..|s| - 1] else s
  }

  // ---------------------------------------------------------------------------------------------
  // Steps

  predicate ReaderStep(s: State, t: State) {
    match s.reader
    case TestExit => t == s.(reader := if s.exiting then Stopped else TestData)
    case TestData => t == s.(reader := if s.haveNewData then Nap else ClearBuffer)
    case Nap => t == s.(reader := TestExit)
    case ClearBuffer => t == s.(buffer := [], reader := CallFgets)
    case CallFgets =>
      if s.unread == [] then t == s.(reader := Stopped)
      else t == s.(unread := s.unread[1..], reader := Filling(s.unread[0]))
    case Filling(rest) =>
      if rest != [] then t == s.(buffer := s.buffer + [rest[0]], reader := Filling(rest[1..]))
      else t == s.(delivered := s.delivered + [s.buffer], reader := if s.buffer == [] then TestExit else LockPending)
    case LockPending => s.owner == Free && t == s.(owner := ReaderOwns, reader := SetPending)
    case SetPending => t == s.(pendingWork := true, reader := UnlockPending)
    case UnlockPending => t == s.(owner := Free, reader := Notify)
    case Notify =>
      || t == s.(reader := Publish)
      || (s.main == Waiting && t == s.(reader := Publish, main := Relock(false)))
    case Publish => t == s.(haveNewData := true, reader := TestExit)
    case Stopped => false
  }

  /** A step of `getInputLine`. */
  predicate LineStep(s: State, t: State) {
    match s.main
    case TestLine => t == s.(main := if s.haveNewData then LockResult else Idle)
    case LockResult => t == s.(result := [], main := Copying(0))
    case Copying(k) =>
      if k < |s.buffer| then t == s.(result := s.result + [s.buffer[k]], main := Copying(k + 1))
      else t == s.(main := Strip)
    case Strip => t == s.(result := Chomp(s.result), main := ClearFlag)
    case ClearFlag => t == s.(haveNewData := false, main := UnlockResult)
    case UnlockResult => t == s.(main := ReturnLine)
    case ReturnLine => t == s.(returned := s.returned + [s.result], main := Idle)
    case _ => false
  }

  /** A step of `goToSleep`; a wait may end by a signal, without one, or by its timeout. */
  predicate SleepStep(s: State, t: State) {
    match s.main
    case LockSleep => s.owner == Free && t == s.(owner := MainOwns, main := TestPending(false))
    case TestPending(timedOut) =>
      if s.pendingWork || timedOut then t == s.(main := Take) else t == s.(owner := Free, main := Waiting)
    case Waiting => t == s.(main := Relock(false)) || t == s.(main := Relock(true))
    case Relock(timeout) => s.owner == Free && t == s.(owner := MainOwns, main := TestPending(timeout))
    case Take => t == s.(pendingWork := false, owner := Free, main := Woke(s.pendingWork))
    case Woke(_) => t == s.(main := Idle)
    case _ => false
  }

  /** Between calls the main thread may begin either call, or tell the reader to stop. */
  predicate IdleStep(s: State, t: State) {
    s.main == Idle && (t == s.(main := TestLine) || t == s.(main := LockSleep) || t == s.(exiting := true))
  }

  predicate MainStep(s: State, t: State) {
    LineStep(s, t) || SleepStep(s, t) || IdleStep(s, t)
  }

  predicate Step(s: State, t: State) {
    ReaderStep(s, t) || MainStep(s, t)
  }

  predicate Run(input: seq<string>, states: seq<State>) {
    && states != [] && states[0] == Init(input)
    && forall i :: 0 <= i < |states| - 1 ==> Step(states[i], states[i + 1])
  }

  // ---------------------------------------------------------------------------------------------
  // What every step keeps

  /** The reader may touch the input buffer, or has filled it and not yet announced it. */
  predicate Busy(r: Reader) {
    !(r.TestExit? || r.TestData? || r.Nap? || r.Stopped?)
  }

  /** The reader has a line that it has not announced. */
  predicate Holds(r: Reader) {
    r.LockPending? || r.SetPending? || r.UnlockPending? || r.Notify? || r.Publish?
  }

  /** The main thread relies on the input buffer. */
  predicate Reading(m: Main) {
    m.LockResult? || m.Copying? || m.Strip? || m.ClearFlag?
  }

  /** Of a list of delivered lines, those that are announced, as they are returned. */
  function Lines(delivered: seq<string>): seq<string> {
    if delivered == [] then []
    else
      var last := delivered[|delivered| - 1];
      Lines(delivered[..|delivered| - 1]) + (if last == [] then [] else [Chomp(last)])
  }

  /** The line that has been copied and is about to be returned. */
  function Returning(s: State): seq<string> {
    if s.main.UnlockResult? || s.main.ReturnLine? then [s.result] else []
  }

  /** The line in the input buffer that nobody has taken yet. */
  function Waits(s: State): seq<string> {
    if s.haveNewData || Holds(s.reader) then [Chomp(s.buffer)] else []
  }

  /** Lines on their way to the caller, oldest first. */
  function InFlight(s: State): seq<string> {
    Returning(s) + Waits(s)
  }

  predicate Copied(s: State) {
    match s.main
    case Copying(k) => k <= |s.buffer| && s.result == s.buffer[..k]
    case Strip => s.result == s.buffer
    case ClearFlag => s.result == Chomp(s.buffer)
    case _ => true
  }

  /** Who may touch what. */
  predicate Control(s: State) {
    && (s.haveNewData ==> !Busy(s.reader) && s.buffer != [])
    && (Reading(s.main) ==> s.haveNewData)
    && (Holds(s.reader) ==> s.buffer != [])
    && Copied(s)
    && (s.owner == ReaderOwns <==> s.reader.SetPending? || s.reader.UnlockPending?)
    && (s.owner == MainOwns <==> s.main.TestPending? || s.main.Take?)
    && (s.reader.UnlockPending? ==> s.pendingWork)
  }

  predicate Inv(s: State) {
    Control(s) && Lines(s.delivered) == s.returned + InFlight(s)
  }

  lemma InvInit(input: seq<string>)
    ensures Inv(Init(input))
  {
  }

  lemma FillingControl(s: State, t: State)
    requires Control(s) && ReaderStep(s, t) && !Holds(s.reader)
    ensures Control(t)
  {
    hide Chomp;
  }

  lemma SignalControl(s: State, t: State)
    requires Control(s) && ReaderStep(s, t) && Holds(s.reader)
    ensures Control(t)
  {
    hide Chomp;
  }

  lemma ReaderControl(s: State, t: State)
    requires Control(s) && ReaderStep(s, t)
    ensures Control(t)
  {
    hide Control;
    hide ReaderStep;
    if Holds(s.reader) {
      SignalControl(s, t);
    } else {
      FillingControl(s, t);
    }
  }

  lemma LineControl(s: State, t: State)
    requires Control(s) && LineStep(s, t)
    ensures Control(t)
  {
    hide Chomp;
    if s.main.Copying? && s.main.k == |s.buffer| {
      assert s.buffer[..|s.buffer|] == s.buffer;
    }
  }

  lemma IdleControl(s: State, t: State)
    requires Control(s) && IdleStep(s, t)
    ensures Control(t)
  {
    hide Chomp;
  }

  lemma SleepControl(s: State, t: State)
    requires Control(s) && SleepStep(s, t)
    ensures Control(t)
  {
    hide Chomp;
    hide Busy;
    hide Holds;
  }

  lemma FilledInFlight(s: State, t: State)
    requires Control(s) && ReaderStep(s, t) && s.reader.Filling? && s.reader.rest == []
    ensures t.returned == s.returned && Returning(t) == Returning(s) && t.delivered == s.delivered + [s.buffer]
    ensures Waits(s) == [] && Waits(t) == if s.buffer == [] then [] else [Chomp(s.buffer)]
  {
    hide Chomp;
    hide Copied;
  }

  lemma HeldInFlight(s: State, t: State)
    requires Control(s) && ReaderStep(s, t) && !(s.reader.Filling? && s.reader.rest == [])
    ensures t.returned == s.returned && Returning(t) == Returning(s) && t.delivered == s.delivered
      && Waits(t) == Waits(s)
  {
    hide Chomp;
    hide Copied;
    if s.reader.Filling? || s.reader.ClearBuffer? {
      assert !s.haveNewData;
    }
  }

  /** Only the end of `fgets` and a change of hands concern the lines. */
  lemma ReaderInFlight(s: State, t: State)
    requires Control(s) && ReaderStep(s, t)
    ensures t.returned == s.returned && Returning(t) == Returning(s)
    ensures if s.reader.Filling? && s.reader.rest == []
      then t.delivered == s.delivered + [s.buffer] && Waits(s) == []
        && Waits(t) == if s.buffer == [] then [] else [Chomp(s.buffer)]
      else t.delivered == s.delivered && Waits(t) == Waits(s)
  {
    hide Control;
    hide ReaderStep;
    hide Returning;
    hide Waits;
    if s.reader.Filling? && s.reader.rest == [] {
      FilledInFlight(s, t);
    } else {
      HeldInFlight(s, t);
    }
  }

  lemma LineInFlight(s: State, t: State)
    requires Control(s) && LineStep(s, t)
    ensures t.delivered == s.delivered
    ensures t.returned + Returning(t) + Waits(t) == s.returned + Returning(s) + Waits(s)
  {
    hide Chomp;
  }

  lemma SleepInFlight(s: State, t: State)
    requires SleepStep(s, t) || IdleStep(s, t)
    ensures t.delivered == s.delivered && t.returned == s.returned
    ensures Returning(t) == Returning(s) && Waits(t) == Waits(s)
  {
    hide Chomp;
  }

  lemma InvMainStep(s: State, t: State)
    requires Inv(s) && MainStep(s, t)
    ensures Inv(t)
  {
    hide LineStep;
    hide SleepStep;
    hide IdleStep;
    hide Control;
    hide Returning;
    hide Waits;
    assert s.returned + InFlight(s) == s.returned + Returning(s) + Waits(s);
    assert t.returned + InFlight(t) == t.returned + Returning(t) + Waits(t);
    if LineStep(s, t) {
      LineControl(s, t);
      LineInFlight(s, t);
    } else if SleepStep(s, t) {
      SleepControl(s, t);
      SleepInFlight(s, t);
    } else {
      IdleControl(s, t);
      SleepInFlight(s, t);
    }
  }

  lemma InvStep(s: State, t: State)
    requires Inv(s) && Step(s, t)
    ensures Inv(t)
  {
    hide ReaderStep;
    hide MainStep;
    hide Control;
    hide Returning;
    hide Waits;
    if ReaderStep(s, t) {
      ReaderControl(s, t);
      ReaderInFlight(s, t);
      assert (s.delivered + [s.buffer])[..|s.delivered|] == s.delivered;
    } else {
      InvMainStep(s, t);
    }
  }

  /** The invariant holds throughout every run. */
  lemma {:induction false} InvAlways(input: seq<string>, states: seq<State>, i: nat)
    requires Run(input, states) && i < |states|
    ensures Inv(states[i])
    decreases i
  {
    if i == 0 {
      InvInit(input);
    } else {
      InvAlways(input, states, i - 1);
      InvStep(states[i - 1], states[i]);
    }
  }

  // ---------------------------------------------------------------------------------------------
  // What callers rely on

  /** While the main thread copies the input buffer, the reader neither writes it nor is about to. */
  lemma NeverWrittenWhileCopied(input: seq<string>, states: seq<State>, i: nat)
    requires Run(input, states) && i + 1 < |states| && Reading(states[i].main)
    ensures !Busy(states[i].reader)
    ensures states[i + 1].buffer == states[i].buffer
  {
    InvAlways(input, states, i);
    assert Step(states[i], states[i + 1]);
  }

  /** Non-empty lines come out once each and in order, at most one of them waiting for `getInputLine`. */
  lemma LinesInOrder(input: seq<string>, states: seq<State>, i: nat)
    requires Run(input, states) && i < |states|
    ensures var s := states[i];
      && Lines(s.delivered) == s.returned + InFlight(s)
      && |InFlight(s)| <= 2 && (s.main == Idle ==> |InFlight(s)| <= 1)
      && s.delivered <= input
  {
    InvAlways(input, states, i);
    DeliveredInOrder(input, states, i);
  }

  /** The line `fgets` is just storing. */
  function BeingRead(s: State): seq<string> {
    if s.reader.Filling? then [s.buffer + s.reader.rest] else []
  }

  /** What has been delivered, what is being read and what is still to come make up the input. */
  predicate InOrder(input: seq<string>, s: State) {
    && input == s.delivered + BeingRead(s) + s.unread
    && (s.reader.CallFgets? ==> s.buffer == [])
  }

  lemma InOrderStep(input: seq<string>, s: State, t: State)
    requires InOrder(input, s) && Step(s, t)
    ensures InOrder(input, t)
  {
    hide ReaderStep;
    hide MainStep;
    if ReaderStep(s, t) {
      OrderOfReader(input, s, t);
    } else {
      MainReadsNothing(s, t);
    }
  }

  /** The main thread leaves alone what the reader works on. */
  predicate SameReading(s: State, t: State) {
    t.buffer == s.buffer && t.reader == s.reader && t.unread == s.unread && t.delivered == s.delivered
  }

  lemma LineReadsNothing(s: State, t: State)
    requires LineStep(s, t)
    ensures SameReading(s, t)
  {
    hide Chomp;
  }

  lemma SleepReadsNothing(s: State, t: State)
    requires SleepStep(s, t) || IdleStep(s, t)
    ensures SameReading(s, t)
  {
  }

  lemma MainReadsNothing(s: State, t: State)
    requires MainStep(s, t)
    ensures SameReading(s, t)
  {
    hide LineStep;
    hide SleepStep;
    hide IdleStep;
    if LineStep(s, t) {
      LineReadsNothing(s, t);
    } else {
      SleepReadsNothing(s, t);
    }
  }

  lemma OrderOfReader(input: seq<string>, s: State, t: State)
    requires InOrder(input, s) && ReaderStep(s, t)
    ensures InOrder(input, t)
  {
    if s.reader.CallFgets? && s.unread != [] {
      assert t.buffer + t.reader.rest == s.unread[0];
      assert s.delivered + [] + s.unread == s.delivered + [s.unread[0]] + s.unread[1..];
    } else if s.reader.Filling? {
      if s.reader.rest == [] {
        assert s.buffer + [] == s.buffer;
        assert s.delivered + [s.buffer] + s.unread == s.delivered + [s.buffer] + [] + s.unread;
      } else {
        assert t.buffer + t.reader.rest == s.buffer + s.reader.rest;
      }
    }
  }

  lemma {:induction false} DeliveredInOrder(input: seq<string>, states: seq<State>, i: nat)
    requires Run(input, states) && i < |states|
    ensures InOrder(input, states[i]) && states[i].delivered <= input
    decreases i
  {
    if i > 0 {
      hide Step;
      hide InOrder;
      DeliveredInOrder(input, states, i - 1);
      InOrderStep(input, states[i - 1], states[i]);
      IsPrefix(input, states[i]);
    }
  }

  lemma IsPrefix(input: seq<string>, s: State)
    requires InOrder(input, s)
    ensures s.delivered <= input
  {
    assert input == s.delivered + (BeingRead(s) + s.unread);
  }

  /** The step from i to i + 1 is `goToSleep` taking the signal. */
  predicate Takes(states: seq<State>, i: nat)
    requires i + 1 < |states|
  {
    states[i].main.Take? && states[i + 1].main.Woke?
  }

  /** Once `wakeup` has completed, the next `goToSleep` to finish returns true. */
  lemma {:induction false} WakeupIsNotLost(input: seq<string>, states: seq<State>, i: nat, j: nat)
    requires Run(input, states) && i < j && j + 1 < |states|
    requires states[i].reader.UnlockPending? && states[i + 1].reader.Notify?
    requires Takes(states, j) && forall k :: i < k < j ==> !Takes(states, k)
    ensures states[j + 1].main == Woke(true)
  {
    SignalStays(input, states, i, j);
    assert Step(states[j], states[j + 1]);
    InvAlways(input, states, j);
  }

  lemma {:induction false} SignalStays(input: seq<string>, states: seq<State>, i: nat, j: nat)
    requires Run(input, states) && i < j < |states|
    requires states[i].reader.UnlockPending? && states[i + 1].reader.Notify?
    requires forall k :: i < k < j ==> !Takes(states, k)
    ensures states[j].pendingWork
    decreases j
  {
    hide Step;
    if j == i + 1 {
      InvAlways(input, states, i);
      SignalStep(states[i], states[j]);
    } else {
      SignalStays(input, states, i, j - 1);
      assert !Takes(states, j - 1);
      SignalStep(states[j - 1], states[j]);
    }
  }

  /** Only the end of `goToSleep` clears the signal. */
  lemma SignalStep(s: State, t: State)
    requires Step(s, t) && s.pendingWork && !(s.main.Take? && t.main.Woke?)
    ensures t.pendingWork
  {
    hide Chomp;
  }

  // ---------------------------------------------------------------------------------------------
  // The signal comes before the line

  ghost predicate Reachable(input: seq<string>, s: State) {
    exists states :: Run(input, states) && states[|states| - 1] == s
  }

  lemma StartReachable(input: seq<string>)
    ensures Reachable(input, Init(input))
  {
    var states := [Init(input)];
    assert Run(input, states) && states[|states| - 1] == Init(input);
  }

  lemma ThenReachable(input: seq<string>, s: State, t: State)
    requires Reachable(input, s) && Step(s, t)
    ensures Reachable(input, t)
  {
    hide Step;
    var states :| Run(input, states) && states[|states| - 1] == s;
    var longer := states + [t];
    assert Run(input, longer) && longer[|longer| - 1] == t;
  }

  /** A line waits, the main thread sleeps, and no signal is pending or coming. */
  predicate Overslept(s: State) {
    s.main == Waiting && s.haveNewData && !s.pendingWork && !Busy(s.reader)
  }

  /** From there only the end of the wait itself, in practice its timeout, helps. */
  lemma OversleptStays(s: State, t: State)
    requires Overslept(s) && Step(s, t)
    ensures Overslept(t) || (t.main.Relock? && t == s.(main := t.main))
  {
  }

  /** The reader has given the signal for a line and not yet announced the line. */
  predicate Announcing(r: Reader) {
    r.Notify? || r.Publish?
  }

  /** The signal was last taken too early for the line that was delivered last. */
  predicate TakenEarly(states: seq<State>, j: nat)
    requires j < |states|
    decreases j
  {
    if j == 0 then false
    else if Takes(states, j - 1) then Announcing(states[j - 1].reader)
    else TakenEarly(states, j - 1) && states[j].delivered == states[j - 1].delivered
  }

  /** `getInputLine` finds no line, or takes one away. */
  predicate Looks(s: State, t: State) {
    (s.main.TestLine? && t.main.Idle?) || (s.main.ClearFlag? && t.main.UnlockResult?)
  }

  /** This has happened since the signal was last taken, or the signal was never taken. */
  predicate HasLooked(states: seq<State>, j: nat)
    requires j < |states|
    decreases j
  {
    j == 0 || (!Takes(states, j - 1) && (HasLooked(states, j - 1) || Looks(states[j - 1], states[j])))
  }

  /** Where a line has lost its signal, the signal was taken too early or nobody has looked since. */
  predicate Explained(s: State, early: bool, looked: bool) {
    && (Announcing(s.reader) && !s.pendingWork ==> early)
    && (s.haveNewData && !s.pendingWork && looked ==> early)
  }

  lemma ExplainedReader(s: State, t: State, early: bool, looked: bool)
    requires Control(s) && ReaderStep(s, t) && Explained(s, early, looked)
    ensures Explained(t, early && t.delivered == s.delivered, looked) && !Looks(s, t) && !(s.main.Take? && t.main.Woke?)
  {
    hide Chomp;
    hide Copied;
  }

  lemma ExplainedLine(s: State, t: State, early: bool, looked: bool)
    requires LineStep(s, t) && Explained(s, early, looked)
    ensures t.delivered == s.delivered && Explained(t, early, looked || Looks(s, t))
  {
    hide Chomp;
  }

  lemma ExplainedSleep(s: State, t: State, early: bool, looked: bool)
    requires (SleepStep(s, t) || IdleStep(s, t)) && Explained(s, early, looked)
    ensures t.delivered == s.delivered && !Looks(s, t)
    ensures if s.main.Take? && t.main.Woke? then Explained(t, Announcing(s.reader), false)
      else Explained(t, early, looked)
  {
  }

  lemma {:induction false} ExplainedAlways(input: seq<string>, states: seq<State>, j: nat)
    requires Run(input, states) && j < |states|
    ensures Explained(states[j], TakenEarly(states, j), HasLooked(states, j))
    decreases j
  {
    if j > 0 {
      hide ReaderStep;
      hide LineStep;
      hide SleepStep;
      hide IdleStep;
      hide Control;
      hide Explained;
      hide Looks;
      hide Announcing;
      var s, t := states[j - 1], states[j];
      ExplainedAlways(input, states, j - 1);
      InvAlways(input, states, j - 1);
      assert Step(s, t);
      var early, looked := TakenEarly(states, j - 1), HasLooked(states, j - 1);
      if ReaderStep(s, t) {
        ExplainedReader(s, t, early, looked);
      } else if LineStep(s, t) {
        LineTakesNothing(s, t);
        ExplainedLine(s, t, early, looked);
      } else {
        ExplainedSleep(s, t, early, looked);
      }
    } else {
      assert states[0] == Init(input);
    }
  }

  lemma LineTakesNothing(s: State, t: State)
    requires LineStep(s, t)
    ensures !s.main.Take?
  {
  }

  /** In any run: a main thread that oversleeps took the signal too early, or has not looked since it took it. */
  lemma OversleptCause(input: seq<string>, states: seq<State>, j: nat)
    requires Run(input, states) && j < |states| && Overslept(states[j])
    ensures TakenEarly(states, j) || !HasLooked(states, j)
  {
    ExplainedAlways(input, states, j);
  }

  /** The caller looks for a line each time between waking up and going to sleep again. */
  ghost predicate LooksBetweenSleeps(states: seq<State>) {
    forall a, b :: 0 <= a < b < |states| && Takes(states, a) && states[b].main.LockSleep? ==> LooksWithin(states, a, b)
  }

  ghost predicate LooksWithin(states: seq<State>, a: nat, b: nat)
    requires b <= |states|
  {
    exists c :: a < c < b && states[c].main.TestLine?
  }

  predicate Sleeping(m: Main) {
    m.LockSleep? || m.TestPending? || m.Waiting? || m.Relock? || m.Take?
  }

  /** How the main thread gets to sleep, and that it leaves `getInputLine` only after a look. */
  predicate OnPath(s: State, t: State) {
    && (Sleeping(t.main) && !t.main.LockSleep? ==> Sleeping(s.main))
    && (t.main.LockSleep? ==> s.main.LockSleep? || s.main.Idle?)
    && (Fetching(s.main) ==> Fetching(t.main) || Looks(s, t))
  }

  predicate Fetching(m: Main) {
    m.TestLine? || Reading(m)
  }

  lemma PathOfReader(s: State, t: State)
    requires ReaderStep(s, t)
    ensures OnPath(s, t)
  {
    hide Looks;
  }

  lemma PathOfLine(s: State, t: State)
    requires LineStep(s, t)
    ensures OnPath(s, t)
  {
    hide Chomp;
  }

  lemma PathOfSleep(s: State, t: State)
    requires SleepStep(s, t) || IdleStep(s, t)
    ensures OnPath(s, t)
  {
  }

  lemma MainPath(s: State, t: State)
    requires Step(s, t)
    ensures OnPath(s, t)
  {
    hide ReaderStep;
    hide LineStep;
    hide SleepStep;
    hide IdleStep;
    hide OnPath;
    if ReaderStep(s, t) {
      PathOfReader(s, t);
    } else if LineStep(s, t) {
      PathOfLine(s, t);
    } else {
      PathOfSleep(s, t);
    }
  }

  lemma StepOfRun(input: seq<string>, states: seq<State>, j: nat)
    requires Run(input, states) && 0 < j < |states|
    ensures Step(states[j - 1], states[j])
  {
    hide Step;
    assert Step(states[j - 1], states[j - 1 + 1]);
  }

  /** As long as nobody has looked since the signal was last taken, `getInputLine` has not been called or is at work. */
  lemma {:induction false} NotLooked(input: seq<string>, states: seq<State>, j: nat) returns (a: nat)
    requires Run(input, states) && j < |states| && !HasLooked(states, j)
    ensures a < j && Takes(states, a)
    ensures LooksWithin(states, a, j + 1) ==> Fetching(states[j].main)
    decreases j
  {
    if Takes(states, j - 1) {
      a := j - 1;
    } else {
      a := NotLooked(input, states, j - 1);
      hide Step;
      hide Looks;
      hide Reading;
      hide Run;
      StepOfRun(input, states, j);
      MainPath(states[j - 1], states[j]);
      assert LooksWithin(states, a, j + 1) ==> states[j].main.TestLine? || LooksWithin(states, a, j);
    }
  }

  lemma LooksBefore(states: seq<State>, a: nat, b: nat)
    requires LooksBetweenSleeps(states) && a < b < |states| && Takes(states, a) && states[b].main.LockSleep?
    ensures LooksWithin(states, a, b)
  {
  }

  /** Going to sleep from outside `getInputLine` is going to sleep after a look. */
  lemma SleepsAfterCall(input: seq<string>, states: seq<State>, j: nat)
    requires Run(input, states) && LooksBetweenSleeps(states) && 0 < j < |states|
    requires states[j].main.LockSleep? && !Fetching(states[j - 1].main)
    ensures HasLooked(states, j - 1)
  {
    hide Run;
    hide LooksBetweenSleeps;
    hide HasLooked;
    hide Fetching;
    hide Takes;
    if !HasLooked(states, j - 1) {
      var a := NotLooked(input, states, j - 1);
      LooksBefore(states, a, j);
    }
  }

  lemma NothingTaken(states: seq<State>)
    requires states != []
    ensures HasLooked(states, 0)
  {
  }

  lemma StillLooked(states: seq<State>, j: nat)
    requires 0 < j < |states| && HasLooked(states, j - 1) && !states[j].main.Woke?
    ensures HasLooked(states, j)
  {
    hide Looks;
  }

  lemma {:induction false} SleepsAfterLooking(input: seq<string>, states: seq<State>, j: nat)
    requires Run(input, states) && LooksBetweenSleeps(states) && j < |states| && Sleeping(states[j].main)
    ensures HasLooked(states, j)
    decreases j
  {
    hide Step;
    hide Run;
    hide LooksBetweenSleeps;
    hide HasLooked;
    hide Looks;
    if j == 0 {
      NothingTaken(states);
    } else {
      StepOfRun(input, states, j);
      MainPath(states[j - 1], states[j]);
      if Sleeping(states[j - 1].main) {
        SleepsAfterLooking(input, states, j - 1);
      } else {
        SleepsAfterCall(input, states, j);
      }
      StillLooked(states, j);
    }
  }

  lemma {:induction false} EarlyTake(states: seq<State>, j: nat) returns (i: nat)
    requires j < |states| && TakenEarly(states, j)
    ensures i < j && Takes(states, i) && forall k :: i < k < j ==> !Takes(states, k)
    ensures Announcing(states[i].reader) && states[i + 1].delivered == states[j].delivered
    decreases j
  {
    if Takes(states, j - 1) {
      i := j - 1;
    } else {
      i := EarlyTake(states, j - 1);
    }
  }

  /**
   When the caller looks between sleeps, a main thread that oversleeps took the signal while the reader stood
   between the signal and the announcement of the very line that waits.
   */
  lemma OversleptWasEarly(input: seq<string>, states: seq<State>, j: nat) returns (i: nat)
    requires Run(input, states) && LooksBetweenSleeps(states) && j < |states| && Overslept(states[j])
    ensures i < j && Takes(states, i) && forall k :: i < k < j ==> !Takes(states, k)
    ensures Announcing(states[i].reader) && states[i + 1].delivered == states[j].delivered
  {
    hide Step;
    OversleptCause(input, states, j);
    SleepsAfterLooking(input, states, j);
    i := EarlyTake(states, j);
  }

  /**
   From the end of `goToSleep`, on to looking in vain and sleeping again, and then the announcement.  If the
   reader has not notified yet, it does so first.
   */
  function Oversleeping(s: State): seq<State> {
    var woke := s.(pendingWork := false, owner := Free, main := Woke(s.pendingWork));
    var idle := woke.(reader := Publish, main := Idle);
    var waiting := idle.(main := Waiting);
    [woke] + (if s.reader.Notify? then [woke.(reader := Publish)] else [])
    + [idle, idle.(main := TestLine), idle, idle.(main := LockSleep),
       idle.(owner := MainOwns, main := TestPending(false)), waiting, waiting.(haveNewData := true, reader := TestExit)]
  }

  lemma OversleepingSteps(s: State, k: nat)
    requires Control(s) && s.main.Take? && Announcing(s.reader) && k < |Oversleeping(s)|
    ensures Step(if k == 0 then s else Oversleeping(s)[k - 1], Oversleeping(s)[k])
  {
    hide Chomp;
    hide Copied;
  }

  /** The run goes on by taking the signal, without taking another, to where the main thread oversleeps. */
  ghost predicate GoesOnToOversleep(input: seq<string>, states: seq<State>, more: seq<State>)
    requires states != []
  {
    var all := states + more;
    && Run(input, all) && LooksBetweenSleeps(all) && more != [] && Overslept(all[|all| - 1])
    && Takes(all, |states| - 1) && forall k :: |states| <= k < |all| - 1 ==> !Takes(all, k)
  }

  lemma OversleepingIsRun(input: seq<string>, states: seq<State>)
    requires Run(input, states) && states[|states| - 1].main.Take? && Announcing(states[|states| - 1].reader)
    ensures Run(input, states + Oversleeping(states[|states| - 1]))
  {
    var n, s := |states|, states[|states| - 1];
    var more := Oversleeping(s);
    var all := states + more;
    InvAlways(input, states, n - 1);
    hide Step;
    hide Oversleeping;
    forall i | 0 <= i < |all| - 1 ensures Step(all[i], all[i + 1]) {
      if i < n - 1 {
        assert Step(states[i], states[i + 1]);
      } else {
        OversleepingSteps(s, i + 1 - n);
      }
    }
  }

  /** What the main thread does meanwhile. */
  lemma OversleepingMain(s: State)
    requires s.main.Take? && Announcing(s.reader)
    ensures var more := Oversleeping(s);
      && more != [] && more[0].main.Woke? && Overslept(more[|more| - 1])
      && (forall k :: 0 <= k < |more| ==> !more[k].main.Take?)
      && (exists c :: 0 <= c < |more| && more[c].main.TestLine? && forall k :: 0 <= k <= c ==> !more[k].main.LockSleep?)
  {
    var c := if s.reader.Notify? then 3 else 2;
    assert Oversleeping(s)[c].main.TestLine?;
  }

  lemma EarlyTakeOversleeps(input: seq<string>, states: seq<State>)
    requires Run(input, states) && LooksBetweenSleeps(states)
    requires states[|states| - 1].main.Take? && Announcing(states[|states| - 1].reader)
    ensures GoesOnToOversleep(input, states, Oversleeping(states[|states| - 1]))
  {
    var n, s := |states|, states[|states| - 1];
    var more := Oversleeping(s);
    var all := states + more;
    OversleepingIsRun(input, states);
    OversleepingMain(s);
    hide *;
    hide Oversleeping;
    hide Run;
    forall a, b | 0 <= a < b < |all| && Takes(all, a) && all[b].main.LockSleep? ensures LooksWithin(all, a, b) {
      if b < n {
        assert Takes(states, a);
        LooksLonger(states, more, a, b);
      } else {
        assert a < n;
        var c :| 0 <= c < |more| && more[c].main.TestLine? && forall k :: 0 <= k <= c ==> !more[k].main.LockSleep?;
        assert all[n + c].main.TestLine?;
      }
    }
  }

  lemma LooksLonger(states: seq<State>, more: seq<State>, a: nat, b: nat)
    requires b <= |states| && LooksWithin(states, a, b)
    ensures LooksWithin(states + more, a, b)
  {
    var c :| a < c < b && states[c].main.TestLine?;
    assert (states + more)[c].main.TestLine?;
  }

  /**
   Exactly when a run whose caller looks between sleeps can go wrong: when `goToSleep` takes the signal while
   the reader stands between the signal and the announcement.
   */
  lemma OversleepsExactlyIfEarly(input: seq<string>, states: seq<State>)
    requires Run(input, states) && LooksBetweenSleeps(states) && states[|states| - 1].main.Take?
    ensures Announcing(states[|states| - 1].reader) <==> exists more :: GoesOnToOversleep(input, states, more)
  {
    if Announcing(states[|states| - 1].reader) {
      EarlyTakeOversleeps(input, states);
    }
    if more :| GoesOnToOversleep(input, states, more) {
      var all := states + more;
      var i := OversleptWasEarly(input, all, |all| - 1);
      assert i == |states| - 1;
    }
  }

  /** `wakeup` is called before the flag is set, so the main thread can look too early and go back to sleep. */
  lemma OversleptIsReachable(line: string) returns (s: State)
    requires line != []
    ensures Reachable([line], s) && Overslept(s)
  {
    var input := [line];
    StartReachable(input);
    s := Init(input);
    s := ReadLine(line, s);
    s := SignalLine(input, s);
    s := LookAndSleep(input, s);
    var t := s.(haveNewData := true, reader := TestExit);
    ThenReachable(input, s, t);
    s := t;
  }

  lemma ReadLine(line: string, s0: State) returns (s: State)
    requires line != [] && Reachable([line], s0) && s0 == Init([line])
    ensures Reachable([line], s)
    ensures s == State(LockPending, Idle, line, [], false, true, Free, false, [], [line], [])
  {
    var input := [line];
    s := Then(input, s0, s0.(reader := TestData));
    s := Then(input, s, s.(reader := ClearBuffer));
    s := Then(input, s, s.(buffer := [], reader := CallFgets));
    s := Then(input, s, s.(unread := [], reader := Filling(line)));
    s := FillBuffer(input, s);
    assert [] + line == line;
    s := Then(input, s, s.(delivered := [] + [line], reader := LockPending));
  }

  lemma {:induction false} FillBuffer(input: seq<string>, s0: State) returns (s: State)
    requires Reachable(input, s0) && s0.reader.Filling?
    ensures Reachable(input, s) && s == s0.(buffer := s0.buffer + s0.reader.rest, reader := Filling([]))
    decreases |s0.reader.rest|
  {
    var rest := s0.reader.rest;
    if rest == [] {
      assert s0.buffer + [] == s0.buffer;
      s := s0;
    } else {
      s := Then(input, s0, s0.(buffer := s0.buffer + [rest[0]], reader := Filling(rest[1..])));
      s := FillBuffer(input, s);
      assert s0.buffer + [rest[0]] + rest[1..] == s0.buffer + rest;
    }
  }

  /** One step, for chaining. */
  lemma Then(input: seq<string>, s: State, next: State) returns (t: State)
    requires Reachable(input, s) && Step(s, next)
    ensures t == next && Reachable(input, t)
  {
    ThenReachable(input, s, next);
    t := next;
  }

  lemma SignalLine(input: seq<string>, s0: State) returns (s: State)
    requires Reachable(input, s0) && s0.reader == LockPending && s0.owner == Free && s0.main == Idle
    ensures Reachable(input, s) && s == s0.(pendingWork := true, reader := Publish)
  {
    s := Then(input, s0, s0.(owner := ReaderOwns, reader := SetPending));
    s := Then(input, s, s.(pendingWork := true, reader := UnlockPending));
    s := Then(input, s, s.(owner := Free, reader := Notify));
    s := Then(input, s, s.(reader := Publish));
  }

  lemma LookAndSleep(input: seq<string>, s0: State) returns (s: State)
    requires Reachable(input, s0) && s0.main == Idle && s0.owner == Free && s0.pendingWork && !s0.haveNewData
    ensures Reachable(input, s) && s == s0.(main := Waiting, pendingWork := false)
  {
    s := Then(input, s0, s0.(main := LockSleep));
    s := Then(input, s, s.(owner := MainOwns, main := TestPending(false)));
    s := Then(input, s, s.(main := Take));
    s := Then(input, s, s.(pendingWork := false, owner := Free, main := Woke(true)));
    s := Then(input, s, s.(main := Idle));
    s := Then(input, s, s.(main := TestLine));
    s := Then(input, s, s.(main := Idle));
    s := Then(input, s, s.(main := LockSleep));
    s := Then(input, s, s.(owner := MainOwns, main := TestPending(false)));
    s := Then(input, s, s.(owner := Free, main := Waiting));
  }
}
