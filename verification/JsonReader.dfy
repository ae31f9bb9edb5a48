/**
 The parsers of include/rapidjson/reader.h as they run: a cursor, a parse result and a stack that
 change step by step.  Each method is proved against the corresponding function of the text.
 */
module JsonReader {
  import opened JsonGrammar
  import opened JsonMachine

  newtype uint32 = x: int | 0 <= x < 0x1_0000_0000
  newtype uint64 = x: int | 0 <= x < 0x1_0000_0000_0000_0000

  class Reader {
    const text: string
    const st: Settings
    var pos: nat
    var events: seq<Event>
    var failed: bool
    var stack: seq<Frame>

    constructor (text: string, st: Settings)
      ensures this.text == text && this.st == st
      ensures pos == 0 && events == [] && !failed && stack == []
    {
      this.text := text;
      this.st := st;
      pos := 0;
      events := [];
      failed := false;
      stack := [];
    }

    /** The state of the run as the outcome of a parser. */
    function Now(): Outcome
      reads this
    {
      if failed then Error(events) else Done(pos, events)
    }

    function Look(): char
      reads this
    {
      Peek(text, pos)
    }

    method Consume(c: char) returns (matched: bool)
      modifies this`pos
      ensures matched <==> old(Look()) == c
      ensures pos == if matched then old(pos) + 1 else old(pos)
    {
      if Look() == c {
        pos := pos + 1;
        return true;
      }
      return false;
    }

    method SkipWhitespace()
      modifies this`pos
      ensures pos == Skip(text, old(pos))
    {
      while Look() == ' ' || Look() == '\n' || Look() == '\r' || Look() == '\t'
        invariant Skip(text, pos) == Skip(text, old(pos))
        decreases |text| - pos
      {
        pos := pos + 1;
      }
    }

    /** One handler call; a handler that declines ends the parse. */
    method Emit(e: Event)
      requires !failed
      modifies this`events, this`failed
      ensures Now() == Send(st, pos, old(events), e)
    {
      events := events + [e];
      if !st.goesOn(events) {
        failed := true;
      }
    }

    // -------------------------------------------------------------------------------------------
    // Strings

    method ParseHex4() returns (ok: bool, codepoint: nat)
      modifies this`pos
      ensures ok <==> Hex4(text, old(pos)).Token?
      ensures ok ==> Token(pos, codepoint) == Hex4(text, old(pos))
    {
      ghost var start := pos;
      codepoint := 0;
      ok := true;
      var i := 0;
      while i < 4
        invariant 0 <= i <= 4 && pos == start + i
        invariant i == 0 ==> codepoint == 0
        invariant i == 1 ==> HexPrefix(text, start, 1) && codepoint == HexDigit(Peek(text, start))
        invariant i == 2 ==> HexPrefix(text, start, 2) && codepoint == Hex2(text, start)
        invariant i == 3 ==>
          HexPrefix(text, start, 3) && codepoint == Hex2(text, start) * 16 + HexDigit(Peek(text, start + 2))
        invariant i == 4 ==> Hex4(text, start) == Token(pos, codepoint)
      {
        var c := Look();
        if HexDigit(c) < 0 {
          return false, 0;
        }
        codepoint := codepoint * 16 + HexDigit(c);
        pos := pos + 1;
        i := i + 1;
      }
    }

    /** Decodes the escape after a backslash and the letter u, or fails. */
    method ParseUnicodeEscape() returns (ok: bool, piece: string)
      modifies this`pos
      ensures ok <==> UnicodeEscape(text, old(pos)).Token?
      ensures ok ==> Token(pos, piece) == UnicodeEscape(text, old(pos))
    {
      piece := [];
      var codepoint, codepoint2;
      ok, codepoint := ParseHex4();
      if !ok {
        return;
      }
      if 0xD800 <= codepoint <= 0xDBFF {
        var backslash := Consume('\\');
        if !backslash {
          return false, [];
        }
        var u := Consume('u');
        if !u {
          return false, [];
        }
        ok, codepoint2 := ParseHex4();
        if !ok || codepoint2 < 0xDC00 || codepoint2 > 0xDFFF {
          return false, [];
        }
        codepoint := (codepoint - 0xD800) * 1024 + (codepoint2 - 0xDC00) + 0x10000;
      }
      piece := Utf8(codepoint);
    }

    /** One escape, or one plain code unit. */
    method ParsePiece() returns (ok: bool, piece: string)
      requires Look() != '"'
      modifies this`pos
      ensures ok <==> StringPiece(text, old(pos)).Token?
      ensures ok ==> Token(pos, piece) == StringPiece(text, old(pos))
    {
      hide UnicodeEscape;
      piece := [];
      var c := Look();
      if c == '\\' {
        pos := pos + 1;
        var e := Look();
        if Unescape(e) != NUL {
          pos := pos + 1;
          return true, [Unescape(e)];
        } else if e == 'u' {
          pos := pos + 1;
          ok, piece := ParseUnicodeEscape();
        } else {
          ok := false;
        }
      } else if c < ' ' {
        ok := false;
      } else {
        pos := pos + 1;
        return true, [c];
      }
    }

    /** After the opening quote: copies the string up to the closing one, undoing the escapes. */
    method ParseStringToStream() returns (s: string)
      requires !failed
      modifies this`pos, this`failed
      ensures failed <==> StringBody(text, old(pos)).Bad?
      ensures !failed ==> Token(pos, s) == StringBody(text, old(pos))
    {
      hide StringPiece;
      s := [];
      ghost var whole := StringBody(text, pos);
      PrependNothing(whole);
      while Look() != '"'
        invariant !failed
        invariant whole == Prepend(s, StringBody(text, pos))
        decreases |text| - pos
      {
        StringStep(text, pos, s);
        var ok, piece := ParsePiece();
        if !ok {
          failed := true;
          return;
        }
        s := s + piece;
      }
      pos := pos + 1;
      assert s + [] == s;
    }

    // -------------------------------------------------------------------------------------------
    // Numbers

    method SkipDigits()
      modifies this`pos
      ensures pos == DigitsEnd(text, old(pos))
    {
      while IsDigit(Look())
        invariant DigitsEnd(text, pos) == DigitsEnd(text, old(pos))
        decreases |text| - pos
      {
        pos := pos + 1;
      }
    }

    /**
     The 32-bit loop.  It stops early exactly when one more digit would take the number past the
     largest magnitude of its type, and never overflows.
     */
    method ParseSmall(minus: bool, ghost start: nat) returns (i: uint32, use64bit: bool)
      requires '1' <= Look() <= '9' && start == pos
      modifies this`pos
      ensures start < pos <= DigitsEnd(text, start) <= |text|
      ensures i as nat == Decimal(text[start..pos])
      ensures i as nat <= SmallLimit(minus)
      ensures use64bit ==> IsDigit(Look()) && pos < |text| && i as nat * 10 + DigitValue(Look()) > SmallLimit(minus)
      ensures !use64bit ==> pos == DigitsEnd(text, start)
    {
      hide Decimal;
      hide SmallLimit;
      hide DigitsEnd;
      SmallLimitIsSmall(minus);
      SingleDigit(text, pos);
      i := DigitValue(Look()) as uint32;
      use64bit := false;
      pos := pos + 1;
      while IsDigit(Look())
        invariant start < pos <= DigitsEnd(text, start) == DigitsEnd(text, pos) <= |text|
        invariant i as nat == Decimal(text[start..pos]) && i as nat <= SmallLimit(minus)
        decreases |text| - pos
      {
        AtDigit(text, pos);
        SmallBound(minus, i as nat, Look());
        if minus {
          if i >= 214748364 {
            if i != 214748364 || Look() > '8' {
              use64bit := true;
              break;
            }
          }
        } else if i >= 429496729 {
          if i != 429496729 || Look() > '5' {
            use64bit := true;
            break;
          }
        }
        AnotherDigit(text, start, pos);
        i := i * 10 + DigitValue(Look()) as uint32;
        pos := pos + 1;
      }
      AtDigit(text, pos);
    }

    /** The 64-bit loop, likewise. */
    method ParseLarge(minus: bool, ghost start: nat, i: uint32) returns (i64: uint64, useDouble: bool)
      requires start < pos <= DigitsEnd(text, start) <= |text|
      requires i as nat == Decimal(text[start..pos])
      modifies this`pos
      ensures old(pos) <= pos <= DigitsEnd(text, start) <= |text|
      ensures i64 as nat == Decimal(text[start..pos])
      ensures i64 as nat <= LargeLimit(minus)
      ensures useDouble ==> IsDigit(Look()) && pos < |text| && i64 as nat * 10 + DigitValue(Look()) > LargeLimit(minus)
      ensures !useDouble ==> pos == DigitsEnd(text, start)
    {
      hide Decimal;
      hide LargeLimit;
      LargeLimitIsLarge(minus);
      i64 := i as uint64;
      useDouble := false;
      DigitsEndWithin(text, start, pos);
      while IsDigit(Look())
        invariant old(pos) <= pos <= DigitsEnd(text, start) == DigitsEnd(text, pos) <= |text|
        invariant i64 as nat == Decimal(text[start..pos]) && i64 as nat <= LargeLimit(minus)
        decreases |text| - pos
      {
        LargeBound(minus, i64 as nat, Look());
        if minus {
          if i64 >= 0x0CCC_CCCC_CCCC_CCCC {
            if i64 != 0x0CCC_CCCC_CCCC_CCCC || Look() > '8' {
              useDouble := true;
              break;
            }
          }
        } else if i64 >= 0x1999_9999_9999_9999 {
          if i64 != 0x1999_9999_9999_9999 || Look() > '5' {
            useDouble := true;
            break;
          }
        }
        AnotherDigit(text, start, pos);
        i64 := i64 * 10 + DigitValue(Look()) as uint64;
        pos := pos + 1;
      }
    }

    /** The integer part and the handler call it is good for, a double if it is too large for all others. */
    method ParseInteger(minus: bool) returns (ok: bool, e: Event)
      modifies this`pos
      ensures ok <==> IntegerEnd(text, old(pos)).Token?
      ensures ok ==> pos == IntegerEnd(text, old(pos)).pos && e == IntegerEvent(minus, IntegerEnd(text, old(pos)).value)
    {
      ghost var start := pos;
      if Look() == '0' {
        pos := pos + 1;
        return true, if minus then Int(0) else Uint(0);
      } else if '1' <= Look() <= '9' {
        var i, use64bit := ParseSmall(minus, start);
        if !use64bit {
          return true, if minus then Int(-(i as int)) else Uint(i as int);
        }
        PastLimit(text, start, pos, SmallLimit(minus));
        var i64, useDouble := ParseLarge(minus, start, i);
        if !useDouble {
          return true, if minus then Int64(-(i64 as int)) else Uint64(i64 as int);
        }
        PastLimit(text, start, pos, LargeLimit(minus));
        DigitsEndWithin(text, start, pos);
        SkipDigits();
        return true, Double([]);
      } else {
        return false, Null;
      }
    }

    /** An optional fraction. */
    method ParseFraction() returns (ok: bool, present: bool)
      modifies this`pos
      ensures ok <==> FractionEnd(text, old(pos)).Token?
      ensures ok ==> Token(pos, present) == FractionEnd(text, old(pos))
    {
      present := Consume('.');
      if present {
        if !IsDigit(Look()) {
          return false, present;
        }
        SkipDigits();
      }
      ok := true;
    }

    /** An optional exponent. */
    method ParseExponent() returns (ok: bool, present: bool)
      modifies this`pos
      ensures ok <==> ExponentEnd(text, old(pos)).Token?
      ensures ok ==> Token(pos, present) == ExponentEnd(text, old(pos))
    {
      present := Consume('e');
      if !present {
        present := Consume('E');
      }
      if present {
        var plus := Consume('+');
        if !plus {
          var expMinus := Consume('-');
        }
        if !IsDigit(Look()) {
          return false, present;
        }
        SkipDigits();
      }
      ok := true;
    }

    method ParseNumber()
      requires !failed
      modifies this`pos, this`failed, this`events
      ensures Now() == NumberOutcome(text, st, old(pos), old(events))
    {
      ghost var start := pos;
      var startOffset := pos;
      var minus := Consume('-');
      var ok, e := ParseInteger(minus);
      if !ok {
        failed := true;
        return;
      }
      var fraction, exponent;
      ok, fraction := ParseFraction();
      if !ok {
        failed := true;
        return;
      }
      ok, exponent := ParseExponent();
      if !ok {
        failed := true;
        return;
      }
      if fraction || exponent || e.Double? {
        var lexeme := text[startOffset..pos];
        if !st.finite(lexeme) {
          failed := true;
          return;
        }
        e := Double(lexeme);
      }
      Emit(e);
    }

    // -------------------------------------------------------------------------------------------
    // Literal names

    /** The rest of a literal name, letter by letter, once the first letter has been seen. */
    method ParseLiteral(word: string, e: Event)
      requires !failed && word != [] && Look() == word[0] && NUL !in word
      modifies this`pos, this`failed, this`events
      ensures Now() ==
        var l := Literal(text, old(pos), word, e);
        if l.Bad? then Error(old(events)) else Send(st, l.pos, old(events), e)
    {
      ghost var start := pos;
      var i := 0;
      while i < |word|
        invariant 0 <= i <= |word| && pos == start + i && !failed && events == old(events)
        invariant pos <= |text| && text[start..pos] == word[..i]
      {
        var matched := Consume(word[i]);
        if !matched {
          assert start + |word| <= |text| ==> text[start..start + |word|][i] == text[start + i];
          failed := true;
          return;
        }
        i := i + 1;
      }
      Emit(e);
    }

    // -------------------------------------------------------------------------------------------
    // The recursive parser

    method ParseString(isKey: bool)
      requires !failed && Look() == '"'
      modifies this`pos, this`failed, this`events
      ensures Now() ==
        var b := StringBody(text, old(pos) + 1);
        if b.Bad? then Error(old(events))
        else Send(st, b.pos, old(events), if isKey then Key(b.value) else String(b.value))
    {
      pos := pos + 1;
      var s := ParseStringToStream();
      if failed {
        return;
      }
      if isKey {
        Emit(Key(s));
      } else {
        Emit(String(s));
      }
    }

    method ParseValue()
      requires !failed
      modifies this`pos, this`failed, this`events
      ensures Now() == Value(text, st, old(pos), old(events))
      decreases |text| - pos, 1
    {
      var c := Look();
      if c == 'n' {
        ParseLiteral("null", Null);
      } else if c == 't' {
        ParseLiteral("true", Bool(true));
      } else if c == 'f' {
        ParseLiteral("false", Bool(false));
      } else if c == '"' {
        ParseString(false);
      } else if c == '{' {
        ParseObject();
      } else if c == '[' {
        ParseArray();
      } else {
        ParseNumber();
      }
    }

    /** A name, a colon and a value. */
    method ParseMember(ghost count: nat)
      requires !failed
      modifies this`pos, this`failed, this`events
      ensures Members(text, st, old(pos), old(events), count) ==
        if failed then Error(events) else MemberEnd(text, st, Skip(text, pos), events, count)
      ensures !failed ==> old(pos) < pos <= |text|
      decreases |text| - pos, 0
    {
      hide StringBody;
      ghost var goal := Members(text, st, pos, events, count);
      if Look() != '"' {
        failed := true;
        return;
      }
      ParseString(true);
      if failed {
        return;
      }
      SkipWhitespace();
      assert goal == MemberColon(text, st, pos, events, count);
      var colon := Consume(':');
      if !colon {
        failed := true;
        return;
      }
      SkipWhitespace();
      assert goal == MemberValue(text, st, pos, events, count);
      ParseValue();
    }

    method ParseObject()
      requires !failed && Look() == '{'
      modifies this`pos, this`failed, this`events
      ensures Now() == Value(text, st, old(pos), old(events))
      decreases |text| - pos, 0
    {
      hide Members;
      hide MemberColon;
      hide MemberValue;
      hide ArrayBody;
      hide Elements;
      hide ElementEnd;
      hide NextElement;
      hide ScalarOutcome;
      ghost var goal, start := Value(text, st, pos, events), pos;
      pos := pos + 1;
      Emit(StartObject);
      if failed {
        return;
      }
      SkipWhitespace();
      assert goal == ObjectBody(text, st, pos, events);
      var empty := Consume('}');
      if empty {
        Emit(EndObject(0));
        return;
      }
      ParseMembers();
    }

    /** Members up to and including the closing bracket. */
    method ParseMembers()
      requires !failed
      modifies this`pos, this`failed, this`events
      ensures Now() == Members(text, st, old(pos), old(events), 0)
      decreases |text| - pos, 1
    {
      hide Members;
      ghost var goal, start := Members(text, st, pos, events, 0), pos;
      var memberCount := 0;
      while true
        invariant !failed && start <= pos && (start == pos || pos <= |text|)
        invariant goal == Members(text, st, pos, events, memberCount)
        decreases |text| - pos
      {
        ParseMember(memberCount);
        if failed {
          return;
        }
        SkipWhitespace();
        assert goal == MemberEnd(text, st, pos, events, memberCount);
        memberCount := Increment(memberCount);
        if Look() == ',' {
          pos := pos + 1;
          SkipWhitespace();
        } else if Look() == '}' {
          pos := pos + 1;
          Emit(EndObject(memberCount));
          return;
        } else {
          failed := true;
          return;
        }
        assert goal == NextMember(text, st, pos, events, memberCount);
        if st.trailingCommas {
          if Look() == '}' {
            Emit(EndObject(memberCount));
            if failed {
              return;
            }
            pos := pos + 1;
            return;
          }
        }
      }
    }

    method ParseArray()
      requires !failed && Look() == '['
      modifies this`pos, this`failed, this`events
      ensures Now() == Value(text, st, old(pos), old(events))
      decreases |text| - pos, 0
    {
      hide ObjectBody;
      hide Members;
      hide MemberColon;
      hide MemberValue;
      hide MemberEnd;
      hide NextMember;
      hide ScalarOutcome;
      ghost var goal, start := Value(text, st, pos, events), pos;
      pos := pos + 1;
      Emit(StartArray);
      if failed {
        return;
      }
      SkipWhitespace();
      assert goal == ArrayBody(text, st, pos, events);
      var empty := Consume(']');
      if empty {
        Emit(EndArray(0));
        return;
      }
      ParseElements();
    }

    /** Elements up to and including the closing bracket. */
    method ParseElements()
      requires !failed
      modifies this`pos, this`failed, this`events
      ensures Now() == Elements(text, st, old(pos), old(events), 0)
      decreases |text| - pos, 2
    {
      ghost var goal, start := Elements(text, st, pos, events, 0), pos;
      var elementCount := 0;
      while true
        invariant !failed && start <= pos && (start == pos || pos <= |text|)
        invariant goal == Elements(text, st, pos, events, elementCount)
        decreases |text| - pos
      {
        ParseValue();
        if failed {
          return;
        }
        ghost var count := elementCount;
        elementCount := Increment(elementCount);
        SkipWhitespace();
        assert goal == ElementEnd(text, st, pos, events, count);
        var comma := Consume(',');
        if comma {
          SkipWhitespace();
        } else {
          var close := Consume(']');
          if close {
            Emit(EndArray(elementCount));
          } else {
            failed := true;
          }
          return;
        }
        assert goal == NextElement(text, st, pos, events, elementCount);
        if st.trailingCommas {
          if Look() == ']' {
            Emit(EndArray(elementCount));
            if failed {
              return;
            }
            pos := pos + 1;
            return;
          }
        }
      }
    }

    /** The recursive entry point. */
    method ParseText()
      requires !failed && pos == 0 && events == []
      modifies this`pos, this`failed, this`events
      ensures Now() == Parse(text, st)
    {
      hide Value;
      SkipWhitespace();
      if Look() == NUL {
        failed := true;
        return;
      }
      ParseValue();
      if failed {
        return;
      }
      if !st.stopWhenDone {
        SkipWhitespace();
        if Look() != NUL {
          failed := true;
        }
      }
    }

    // -------------------------------------------------------------------------------------------
    // The iterative parser

    ghost function Configuration(state: State): Machine
      reads this
    {
      Machine(state, stack, pos, events)
    }

    /** Carries out one transition; on an error the caller sees to the parse result. */
    method TransitTo(src: State, dst: State) returns (d: State)
      requires !failed && WellFormed(Configuration(src)) && Look() != NUL
      requires dst == Predict(src, Tokenize(Look()))
      modifies this
      ensures var n := StepOf(text, st, old(Configuration(src)));
        && d == n.state && events == n.events
        && (d != ErrorState ==> !failed && Configuration(d) == n)
    {
      hide StringBody;
      hide ScalarOutcome;
      hide WellFormed;
      hide Value;
      hide Tokenize;
      hide Predict;
      hide Peek;
      hide Send;
      hide Increment;
      StackOf(Configuration(src));
      PredictedScalar(text, st, Configuration(src));
      if dst == ErrorState {
        d := dst;
      } else if dst == ObjectInitialState {
        d := PushContainer(src, dst, StartObject);
      } else if dst == ArrayInitialState {
        d := PushContainer(src, dst, StartArray);
      } else if dst == MemberKeyState {
        ParseString(true);
        d := if failed then ErrorState else dst;
      } else if dst == KeyValueDelimiterState {
        pos := pos + 1;
        d := dst;
      } else if dst == MemberValueState || dst == ElementState {
        ParseValue();
        d := if failed then ErrorState else dst;
      } else if dst == MemberDelimiterState || dst == ElementDelimiterState {
        CountEntry();
        d := dst;
      } else if dst == ObjectFinishState {
        d := PopContainer(src, MemberDelimiterState, MemberValueState, true);
      } else if dst == ArrayFinishState {
        d := PopContainer(src, ElementDelimiterState, ElementState, false);
      } else {
        ParseValue();
        d := if failed then ErrorState else FinishState;
      }
    }

    method PushContainer(src: State, dst: State, e: Event) returns (d: State)
      requires !failed && dst != ErrorState
      modifies this
      ensures stack == old(stack) + [Frame(Pushed(src), 0)]
      ensures d == (if failed then ErrorState else dst)
      ensures Now() == Send(st, old(pos) + 1, old(events), e)
    {
      var n := src;
      if src == ArrayInitialState || src == ElementDelimiterState {
        n := ElementState;
      } else if src == KeyValueDelimiterState {
        n := MemberValueState;
      }
      assert n == Pushed(src);
      stack := stack + [Frame(n, 0)];
      Emit(e);
      if failed {
        return ErrorState;
      }
      pos := pos + 1;
      d := dst;
    }

    method CountEntry()
      requires stack != []
      modifies this`pos, this`stack
      ensures pos == old(pos) + 1
      ensures stack == Counted(old(Configuration(StartState)))
    {
      pos := pos + 1;
      var top := stack[|stack| - 1];
      stack := stack[..|stack| - 1] + [Frame(top.resume, Increment(top.count))];
    }

    method PopContainer(src: State, delimiter: State, last: State, isObject: bool) returns (d: State)
      requires !failed && stack != [] && stack[|stack| - 1].resume != ErrorState
      modifies this
      ensures var top := old(stack)[|old(stack)| - 1];
        var c := if src == last then Increment(top.count) else top.count;
        if !st.trailingCommas && src == delimiter then failed && d == ErrorState && events == old(events)
        else
          && stack == old(stack)[..|old(stack)| - 1]
          && d == (if failed then ErrorState else if top.resume == StartState then FinishState else top.resume)
          && Now() == Send(st, old(pos) + 1, old(events), if isObject then EndObject(c) else EndArray(c))
    {
      if !st.trailingCommas && src == delimiter {
        failed := true;
        return ErrorState;
      }
      var top := stack[|stack| - 1];
      var c := top.count;
      if src == last {
        c := Increment(c);
      }
      var n := top.resume;
      stack := stack[..|stack| - 1];
      if n == StartState {
        n := FinishState;
      }
      Emit(if isObject then EndObject(c) else EndArray(c));
      if failed {
        return ErrorState;
      }
      pos := pos + 1;
      d := n;
    }

    /** The iterative entry point. */
    method ParseIteratively()
      requires !failed && pos == 0 && events == [] && stack == []
      modifies this
      ensures Now() == IterativeParse(text, st)
    {
      ghost var goal := IterativeParse(text, st);
      var state := StartState;
      SkipWhitespace();
      while Look() != NUL
        invariant !failed && WellFormed(Configuration(state))
        invariant goal == Run(text, st, Configuration(state))
        invariant !(st.stopWhenDone && state == FinishState)
        decreases |text| - pos
      {
        TransitProgress(text, st, Configuration(state));
        var n := Predict(state, Tokenize(Look()));
        var d := TransitTo(state, n);
        if d == ErrorState {
          failed := true;
          return;
        }
        state := d;
        if st.stopWhenDone && state == FinishState {
          return;
        }
        SkipWhitespace();
      }
      if state != FinishState {
        failed := true;
      }
    }
  }

  // ---------------------------------------------------------------------------------------------

  /** The table sends the machine to a scalar state only at a scalar, and asks for a string only at a quote. */
  lemma PredictedScalar(t: string, st: Settings, m: Machine)
    requires Peek(t, m.pos) != NUL
    ensures var dst := Predict(m.state, Tokenize(Peek(t, m.pos)));
      && (dst == MemberValueState || dst == ElementState || dst == ValueState ==>
            Value(t, st, m.pos, m.events) == ScalarOutcome(t, st, m.pos, m.events))
      && (dst == MemberKeyState ==> Peek(t, m.pos) == '"')
      && dst != StartState && dst != FinishState
      && (dst in [MemberDelimiterState, ElementDelimiterState, ObjectFinishState, ArrayFinishState] ==>
            NeedsStack(m.state))
  {
    hide Value;
    hide ScalarOutcome;
    hide Peek;
    ValueByToken(t, st, m.pos, m.events);
  }

  lemma StackOf(m: Machine)
    requires WellFormed(m)
    ensures NeedsStack(m.state) ==> m.stack != [] && Top(m).resume != ErrorState
  {
  }

  /** The first n characters are hexadecimal digits. */
  predicate HexPrefix(t: string, pos: nat, n: nat) {
    n == 0 || (HexPrefix(t, pos, n - 1) && HexDigit(Peek(t, pos + n - 1)) >= 0)
  }

  function Hex2(t: string, pos: nat): int {
    HexDigit(Peek(t, pos)) * 16 + HexDigit(Peek(t, pos + 1))
  }

  function Prepend(s: string, r: Lexed<string>): Lexed<string> {
    if r.Bad? then Bad else Token(r.pos, s + r.value)
  }

  lemma PrependNothing(r: Lexed<string>)
    ensures Prepend([], r) == r
  {
    if r.Token? {
      assert [] + r.value == r.value;
    }
  }

  /** One piece moves from the unread part of a string to the part already copied. */
  lemma StringStep(t: string, pos: nat, s: string)
    requires Peek(t, pos) != '"'
    ensures var piece := StringPiece(t, pos);
      Prepend(s, StringBody(t, pos)) == if piece.Bad? then Bad else Prepend(s + piece.value, StringBody(t, piece.pos))
  {
    var piece := StringPiece(t, pos);
    if piece.Token? {
      var rest := StringBody(t, piece.pos);
      if rest.Token? {
        assert s + (piece.value + rest.value) == (s + piece.value) + rest.value;
      }
    }
  }

  function SmallLimit(minus: bool): nat {
    if minus then 0x8000_0000 else 0xFFFF_FFFF
  }

  function LargeLimit(minus: bool): nat {
    if minus then 0x8000_0000_0000_0000 else 0xFFFF_FFFF_FFFF_FFFF
  }

  lemma SmallLimitIsSmall(minus: bool)
    ensures 9 <= SmallLimit(minus) < 0x1_0000_0000
  {
  }

  lemma LargeLimitIsLarge(minus: bool)
    ensures 0xFFFF_FFFF <= LargeLimit(minus) < 0x1_0000_0000_0000_0000
  {
  }

  /** The test for another digit is exact. */
  lemma SmallBound(minus: bool, i: nat, c: char)
    requires IsDigit(c)
    ensures (if minus then i > 214748364 || (i == 214748364 && c > '8')
      else i > 429496729 || (i == 429496729 && c > '5'))
      <==> i * 10 + DigitValue(c) > SmallLimit(minus)
  {
  }

  lemma LargeBound(minus: bool, i: nat, c: char)
    requires IsDigit(c)
    ensures (if minus then i > 0x0CCC_CCCC_CCCC_CCCC || (i == 0x0CCC_CCCC_CCCC_CCCC && c > '8')
             else i > 0x1999_9999_9999_9999 || (i == 0x1999_9999_9999_9999 && c > '5'))
      <==> i * 10 + DigitValue(c) > LargeLimit(minus)
  {
  }

  function NumberOutcome(t: string, st: Settings, pos: nat, events: seq<Event>): Outcome {
    var n := Number(t, st, pos);
    if n.Bad? then Error(events) else Send(st, n.pos, events, n.value)
  }

  lemma AtDigit(t: string, pos: nat)
    ensures if IsDigit(Peek(t, pos)) then pos < |t| && pos < DigitsEnd(t, pos) else DigitsEnd(t, pos) == pos
  {
  }

  lemma SingleDigit(t: string, pos: nat)
    requires IsDigit(Peek(t, pos))
    ensures pos < |t| && Decimal(t[pos..pos + 1]) == DigitValue(t[pos])
    ensures pos + 1 <= DigitsEnd(t, pos) == DigitsEnd(t, pos + 1) <= |t|
  {
    assert t[pos..pos + 1][..0] == [];
  }

  lemma DigitsEndWithin(t: string, start: nat, pos: nat)
    requires start <= pos <= DigitsEnd(t, start)
    ensures DigitsEnd(t, pos) == DigitsEnd(t, start)
    decreases pos - start
  {
    if start < pos {
      DigitsEndWithin(t, start + 1, pos);
    }
  }

  lemma AnotherDigit(t: string, start: nat, pos: nat)
    requires start <= pos < DigitsEnd(t, start) <= |t|
    ensures Decimal(t[start..pos + 1]) == Decimal(t[start..pos]) * 10 + DigitValue(t[pos])
    ensures DigitsEnd(t, pos + 1) == DigitsEnd(t, start)
  {
    assert t[start..pos + 1][..pos - start] == t[start..pos];
    DigitsEndWithin(t, start, pos + 1);
  }

  lemma {:induction false} DecimalGrows(t: string, start: nat, pos: nat, end: nat)
    requires start <= pos <= end <= DigitsEnd(t, start) <= |t|
    ensures Decimal(t[start..pos]) <= Decimal(t[start..end])
    decreases end
  {
    if pos < end {
      DecimalGrows(t, start, pos, end - 1);
      AnotherDigit(t, start, end - 1);
    }
  }

  /** Once a prefix of the digits is past a limit, so is the number. */
  lemma PastLimit(t: string, start: nat, pos: nat, limit: nat)
    requires start <= pos < DigitsEnd(t, start) <= |t|
    requires Decimal(t[start..pos]) * 10 + DigitValue(t[pos]) > limit
    ensures Decimal(t[start..DigitsEnd(t, start)]) > limit
  {
    AnotherDigit(t, start, pos);
    DecimalGrows(t, start, pos + 1, DigitsEnd(t, start));
  }
}
