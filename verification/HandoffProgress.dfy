/**
 The hand-over of console lines never gets stuck: whatever the two threads have done so far, they can go on to
 where every line has been returned.
 */
module HandoffProgress {
  import opened Handoff

  /** Nothing is left to do: the reader has stopped, and the main thread has come back with the last line. */
  predicate Finished(s: State) {
    s.main == Idle && s.reader == Stopped && !s.haveNewData
  }

  function ReaderNext(s: State): State {
    match s.reader
    case TestExit => s.(reader := if s.exiting then Stopped else TestData)
    case TestData => s.(reader := if s.haveNewData then Nap else ClearBuffer)
    case Nap => s.(reader := TestExit)
    case ClearBuffer => s.(buffer := [], reader := CallFgets)
    case CallFgets =>
      if s.unread == [] then s.(reader := Stopped) else s.(unread := s.unread[1..], reader := Filling(s.unread[0]))
    case Filling(rest) =>
      if rest != [] then s.(buffer := s.buffer + [rest[0]], reader := Filling(rest[1..]))
      else s.(delivered := s.delivered + [s.buffer], reader := if s.buffer == [] then TestExit else LockPending)
    case LockPending => s.(owner := ReaderOwns, reader := SetPending)
    case SetPending => s.(pendingWork := true, reader := UnlockPending)
    case UnlockPending => s.(owner := Free, reader := Notify)
    case Notify => s.(reader := Publish)
    case Publish => s.(haveNewData := true, reader := TestExit)
    case Stopped => s
  }

  /** A wait is left to its timeout. */
  function MainNext(s: State): State {
    match s.main
    case Idle => s.(main := TestLine)
    case TestLine => s.(main := if s.haveNewData then LockResult else Idle)
    case LockResult => s.(result := [], main := Copying(0))
    case Copying(k) =>
      if k < |s.buffer| then s.(result := s.result + [s.buffer[k]], main := Copying(k + 1)) else s.(main := Strip)
    case Strip => s.(result := Chomp(s.result), main := ClearFlag)
    case ClearFlag => s.(haveNewData := false, main := UnlockResult)
    case UnlockResult => s.(main := ReturnLine)
    case ReturnLine => s.(returned := s.returned + [s.result], main := Idle)
    case LockSleep => s.(owner := MainOwns, main := TestPending(false))
    case TestPending(timedOut) =>
      if s.pendingWork || timedOut then s.(main := Take) else s.(owner := Free, main := Waiting)
    case Waiting => s.(main := Relock(true))
    case Relock(timeout) => s.(owner := MainOwns, main := TestPending(timeout))
    case Take => s.(pendingWork := false, owner := Free, main := Woke(s.pendingWork))
    case Woke(_) => s.(main := Idle)
  }

  /** One way to go on: who holds the lock first, then the main thread, and the reader while that one is idle. */
  function Next(s: State): State {
    if s.owner == ReaderOwns || (s.main == Idle && !s.haveNewData) then ReaderNext(s) else MainNext(s)
  }

  // ---------------------------------------------------------------------------------------------
  // It comes to an end

  function ReaderRank(r: Reader): nat {
    match r
    case Filling(rest) => 12 + |rest|
    case LockPending => 11
    case SetPending => 10
    case UnlockPending => 9
    case Notify => 8
    case Publish => 7
    case Nap => 6
    case TestExit => 5
    case TestData => 4
    case ClearBuffer => 3
    case CallFgets => 2
    case Stopped => 1
  }

  function Flag(s: State): nat {
    if s.haveNewData then 1 else 0
  }

  function MainRank(s: State): nat {
    var n := |s.buffer|;
    match s.main
    case ClearFlag => 0
    case Strip => 1
    case Copying(k) => if k <= n then 2 + n - k else 0
    case LockResult => n + 3
    case TestLine => if s.haveNewData then n + 4 else n + 6
    case Idle => n + 5
    case ReturnLine => n + 6
    case UnlockResult => n + 7
    case Woke(_) => n + 6
    case Take => n + 7
    case TestPending(timedOut) => if timedOut then n + 8 else n + 11
    case Relock(timeout) => if timeout then n + 9 else n + 12
    case Waiting => n + 10
    case LockSleep => n + 12
  }

  /** Less is left to read, or the reader is nearer to it, or the waiting line is taken, or nearer to that. */
  predicate Less(t: State, s: State) {
    || |t.unread| < |s.unread|
    || (|t.unread| == |s.unread|
        && (|| ReaderRank(t.reader) < ReaderRank(s.reader)
            || (ReaderRank(t.reader) == ReaderRank(s.reader)
                && (Flag(t) < Flag(s) || (Flag(t) == Flag(s) && MainRank(t) < MainRank(s))))))
  }

  lemma ReaderGoesOn(s: State)
    requires Control(s) && !Finished(s) && (s.owner == ReaderOwns || (s.main == Idle && !s.haveNewData))
    ensures ReaderStep(s, ReaderNext(s)) && Less(ReaderNext(s), s) && ReaderNext(s).exiting == s.exiting
  {
  }

  /** In `goToSleep`. */
  predicate Sleeps(m: Main) {
    m.LockSleep? || m.TestPending? || m.Waiting? || m.Relock? || m.Take? || m.Woke?
  }

  lemma SleepGoesOn(s: State)
    requires Control(s) && s.owner != ReaderOwns && Sleeps(s.main)
    ensures SleepStep(s, MainNext(s)) && Less(MainNext(s), s) && MainNext(s).exiting == s.exiting
  {
    hide Copied;
  }

  lemma LineGoesOn(s: State)
    requires Control(s) && !Sleeps(s.main) && (s.main != Idle || s.haveNewData)
    ensures LineStep(s, MainNext(s)) || IdleStep(s, MainNext(s))
    ensures Less(MainNext(s), s) && MainNext(s).exiting == s.exiting
  {
    hide Chomp;
  }

  lemma MainGoesOn(s: State)
    requires Control(s) && s.owner != ReaderOwns && (s.main != Idle || s.haveNewData)
    ensures MainStep(s, MainNext(s)) && Less(MainNext(s), s) && MainNext(s).exiting == s.exiting
  {
    hide Control;
    hide Less;
    hide MainNext;
    hide LineStep;
    hide SleepStep;
    hide IdleStep;
    if Sleeps(s.main) {
      SleepGoesOn(s);
    } else {
      LineGoesOn(s);
    }
  }

  lemma NextGoesOn(s: State)
    requires Control(s) && !Finished(s)
    ensures Step(s, Next(s)) && Less(Next(s), s) && Next(s).exiting == s.exiting
  {
    hide Control;
    hide Less;
    hide ReaderStep;
    hide MainStep;
    hide ReaderNext;
    hide MainNext;
    if s.owner == ReaderOwns || (s.main == Idle && !s.haveNewData) {
      ReaderGoesOn(s);
    } else {
      MainGoesOn(s);
    }
  }

  lemma {:induction false} CanFinish(input: seq<string>, states: seq<State>) returns (more: seq<State>)
    requires Run(input, states)
    ensures Run(input, states + more)
    ensures var last := (states + more)[|states + more| - 1];
      Finished(last) && last.exiting == states[|states| - 1].exiting
    decreases |states[|states| - 1].unread|, ReaderRank(states[|states| - 1].reader),
      Flag(states[|states| - 1]), MainRank(states[|states| - 1])
  {
    hide Step;
    hide Inv;
    hide Control;
    hide Finished;
    hide Next;
    hide ReaderRank;
    hide MainRank;
    var s := states[|states| - 1];
    if Finished(s) {
      more := [];
      assert states + more == states;
    } else {
      InvAlways(input, states, |states| - 1);
      ControlOf(s);
      NextGoesOn(s);
      var longer := states + [Next(s)];
      var rest := CanFinish(input, longer);
      more := [Next(s)] + rest;
      assert longer + rest == states + more;
    }
  }

  lemma ControlOf(s: State)
    requires Inv(s)
    ensures Control(s)
  {
  }

  // ---------------------------------------------------------------------------------------------
  // What is reached

  /** The reader only stops at the end of the input or when it is told to. */
  predicate StopsInTime(s: State) {
    s.reader == Stopped ==> s.exiting || s.unread == []
  }

  lemma StopsInTimeReader(s: State, t: State)
    requires StopsInTime(s) && ReaderStep(s, t)
    ensures StopsInTime(t)
  {
  }

  lemma StaysTold(s: State, t: State)
    requires MainStep(s, t)
    ensures s.exiting ==> t.exiting
  {
    hide Chomp;
    if SleepStep(s, t) {
      SleepStaysTold(s, t);
    }
  }

  lemma SleepStaysTold(s: State, t: State)
    requires SleepStep(s, t)
    ensures t.exiting == s.exiting
  {
  }

  lemma StopsInTimeStep(s: State, t: State)
    requires StopsInTime(s) && Step(s, t)
    ensures StopsInTime(t)
  {
    hide ReaderStep;
    hide MainStep;
    if ReaderStep(s, t) {
      StopsInTimeReader(s, t);
    } else {
      MainReadsNothing(s, t);
      StaysTold(s, t);
    }
  }

  lemma {:induction false} StopsInTimeAlways(input: seq<string>, states: seq<State>, i: nat)
    requires Run(input, states) && i < |states|
    ensures StopsInTime(states[i])
    decreases i
  {
    if i > 0 {
      hide Step;
      hide StopsInTime;
      StopsInTimeAlways(input, states, i - 1);
      StopsInTimeStep(states[i - 1], states[i]);
    }
  }

  lemma FinishedIsReturned(input: seq<string>, s: State)
    requires Finished(s) && Inv(s) && StopsInTime(s) && InOrder(input, s)
    ensures s.returned == Lines(s.delivered) && (!s.exiting ==> s.returned == Lines(input))
  {
    assert InFlight(s) == [] && BeingRead(s) == [];
    if !s.exiting {
      assert s.delivered + [] + [] == s.delivered;
    }
  }

  /**
   Every run can go on until all delivered lines have been returned, each of them once and in order; and unless
   it has been told to stop, these are all the lines of the input.
   */
  lemma EverythingCanBeReturned(input: seq<string>, states: seq<State>) returns (more: seq<State>)
    requires Run(input, states)
    ensures Run(input, states + more)
    ensures var last := (states + more)[|states + more| - 1];
      && last.returned == Lines(last.delivered)
      && (!states[|states| - 1].exiting ==> last.returned == Lines(input))
  {
    hide Inv;
    hide InOrder;
    hide Finished;
    hide StopsInTime;
    more := CanFinish(input, states);
    var all := states + more;
    assert all != [];
    hide Run;
    InvAlways(input, all, |all| - 1);
    StopsInTimeAlways(input, all, |all| - 1);
    DeliveredInOrder(input, all, |all| - 1);
    FinishedIsReturned(input, all[|all| - 1]);
  }
}
