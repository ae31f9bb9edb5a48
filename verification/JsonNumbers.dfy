/**
 What a JSON number is, stated without the parser, after section 6 of RFC 8259: a sign, an integer part, a
 fraction and an exponent; and which of its types the parser reports it in.
 */
module JsonNumbers {
  import opened JsonGrammar
  import opened Word

  /** A run of digits, not empty, that ends where the digits do. */
  predicate IsRun(t: string, from: nat, to: nat) {
    && from < to <= |t| && (forall i :: from <= i < to ==> '0' <= t[i] <= '9')
    && (to < |t| ==> !('0' <= t[to] <= '9'))
  }

  lemma {:induction false} RunIsRead(t: string, from: nat, to: nat)
    requires from < |t|
    ensures IsRun(t, from, to) <==> IsDigit(t[from]) && DigitsEnd(t, from) == to
    decreases |t| - from
  {
    if IsDigit(t[from]) {
      if from + 1 < |t| {
        RunIsRead(t, from + 1, to);
      }
      if IsRun(t, from, to) && to == from + 1 {
        assert !IsDigit(Peek(t, to));
      }
    }
  }

  /** The parts of a number by where they end; an absent part is empty. */
  datatype Parts = Parts(minus: bool, wholeEnd: nat, fractionEnd: nat, end: nat)

  function WholeStart(pos: nat, p: Parts): nat {
    if p.minus then pos + 1 else pos
  }

  /** The integer part: a single zero, or a run not starting with one. */
  predicate IsWhole(t: string, from: nat, to: nat) {
    from < |t| && if t[from] == '0' then to == from + 1 else IsRun(t, from, to)
  }

  predicate HasMark(t: string, pos: nat, marks: string) {
    pos < |t| && t[pos] in marks
  }

  predicate IsFraction(t: string, from: nat, to: nat) {
    if HasMark(t, from, ".") then IsRun(t, from + 1, to) else to == from
  }

  predicate IsExponent(t: string, from: nat, to: nat) {
    if HasMark(t, from, "eE") then IsRun(t, if HasMark(t, from + 1, "+-") then from + 2 else from + 1, to)
    else to == from
  }

  predicate IsNumber(t: string, pos: nat, p: Parts) {
    && p.minus == HasMark(t, pos, "-")
    && IsWhole(t, WholeStart(pos, p), p.wholeEnd)
    && IsFraction(t, p.wholeEnd, p.fractionEnd)
    && IsExponent(t, p.fractionEnd, p.end)
  }

  // ---------------------------------------------------------------------------------------------
  // The parts

  lemma WholeIsRead(t: string, from: nat, to: nat)
    ensures IsWhole(t, from, to) <==> IntegerEnd(t, from).Token? && IntegerEnd(t, from).pos == to
    ensures IsWhole(t, from, to) ==>
      && from < to <= |t| && (forall i :: from <= i < to ==> IsDigit(t[i]))
      && IntegerEnd(t, from).value == Decimal(t[from..to])
  {
    hide DigitsEnd;
    hide Decimal;
    if from < |t| {
      RunIsRead(t, from, to);
      if t[from] == '0' {
        ZeroIsZero(t[from..from + 1]);
      }
    }
  }

  lemma ZeroIsZero(s: string)
    requires s == "0"
    ensures Decimal(s) == 0
  {
    assert s[..0] == [];
  }

  lemma FractionIsRead(t: string, from: nat, to: nat)
    requires from <= |t|
    ensures IsFraction(t, from, to) <==>
      FractionEnd(t, from).Token? && FractionEnd(t, from).pos == to && (FractionEnd(t, from).value <==> to > from)
  {
    hide DigitsEnd;
    if from + 1 < |t| {
      RunIsRead(t, from + 1, to);
    }
  }

  lemma ExponentIsRead(t: string, from: nat, to: nat)
    requires from <= |t|
    ensures IsExponent(t, from, to) <==>
      ExponentEnd(t, from).Token? && ExponentEnd(t, from).pos == to && (ExponentEnd(t, from).value <==> to > from)
  {
    hide DigitsEnd;
    if from + 1 < |t| {
      RunIsRead(t, from + 1, to);
    }
    if from + 2 < |t| {
      RunIsRead(t, from + 2, to);
    }
  }

  // ---------------------------------------------------------------------------------------------
  // The number

  /** A number without fraction and exponent. */
  predicate IsIntegral(p: Parts) {
    p.end == p.wholeEnd
  }

  /** The magnitude of the integer part. */
  function Magnitude(t: string, pos: nat, p: Parts): nat
    requires IsNumber(t, pos, p)
  {
    WholeIsRead(t, WholeStart(pos, p), p.wholeEnd);
    Decimal(t[WholeStart(pos, p)..p.wholeEnd])
  }

  /** The call for a number: integers in the narrowest type for their sign that holds them, all others as doubles. */
  predicate IsReported(t: string, st: Settings, pos: nat, p: Parts, e: Event)
    requires IsNumber(t, pos, p)
  {
    var n: int := Magnitude(t, pos, p);
    match e
    case Int(i) => IsIntegral(p) && p.minus && i == -n && -TWO_TO_THE_31 <= i
    case Int64(i) => IsIntegral(p) && p.minus && i == -n && -TWO_TO_THE_63 <= i < -TWO_TO_THE_31
    case Uint(u) => IsIntegral(p) && !p.minus && u == n && u < TWO_TO_THE_32
    case Uint64(u) => IsIntegral(p) && !p.minus && u == n && TWO_TO_THE_32 <= u < TWO_TO_THE_64
    case Double(lexeme) =>
      && pos <= p.end <= |t| && lexeme == t[pos..p.end] && st.finite(lexeme)
      && (!IsIntegral(p) || (if p.minus then -n < -TWO_TO_THE_63 else n >= TWO_TO_THE_64))
    case _ => false
  }

  ghost predicate IsReading(t: string, st: Settings, pos: nat, end: nat, e: Event, p: Parts) {
    IsNumber(t, pos, p) && p.end == end && IsReported(t, st, pos, p, e)
  }

  lemma PartsInOrder(t: string, pos: nat, p: Parts)
    requires IsNumber(t, pos, p)
    ensures pos <= WholeStart(pos, p) < p.wholeEnd <= p.fractionEnd <= p.end <= |t|
  {
    WholeIsRead(t, WholeStart(pos, p), p.wholeEnd);
  }

  lemma NumberIsRead(t: string, st: Settings, pos: nat, e: Event, p: Parts)
    requires IsNumber(t, pos, p)
    ensures Number(t, st, pos) == Token(p.end, e) <==> IsReported(t, st, pos, p, e)
  {
    hide IsWhole;
    hide IsFraction;
    hide IsExponent;
    hide IntegerEnd;
    hide FractionEnd;
    hide ExponentEnd;
    hide Decimal;
    PartsInOrder(t, pos, p);
    WholeIsRead(t, WholeStart(pos, p), p.wholeEnd);
    FractionIsRead(t, p.wholeEnd, p.fractionEnd);
    ExponentIsRead(t, p.fractionEnd, p.end);
  }

  lemma ReadHasParts(t: string, st: Settings, pos: nat) returns (p: Parts)
    requires Number(t, st, pos).Token?
    ensures IsNumber(t, pos, p) && p.end == Number(t, st, pos).pos
  {
    hide IsWhole;
    hide IsFraction;
    hide IsExponent;
    hide IntegerEnd;
    hide FractionEnd;
    hide ExponentEnd;
    var minus := Peek(t, pos) == '-';
    var start := if minus then pos + 1 else pos;
    var whole := IntegerEnd(t, start);
    WholeIsRead(t, start, whole.pos);
    var fraction := FractionEnd(t, whole.pos);
    FractionAdvances(t, whole.pos);
    FractionIsRead(t, whole.pos, fraction.pos);
    var exponent := ExponentEnd(t, fraction.pos);
    ExponentAdvances(t, fraction.pos);
    ExponentIsRead(t, fraction.pos, exponent.pos);
    p := Parts(minus, whole.pos, fraction.pos, exponent.pos);
  }

  lemma FractionAdvances(t: string, from: nat)
    requires from <= |t| && FractionEnd(t, from).Token?
    ensures from <= FractionEnd(t, from).pos <= |t|
    ensures FractionEnd(t, from).value <==> FractionEnd(t, from).pos > from
  {
  }

  lemma ExponentAdvances(t: string, from: nat)
    requires from <= |t| && ExponentEnd(t, from).Token?
    ensures from <= ExponentEnd(t, from).pos <= |t|
    ensures ExponentEnd(t, from).value <==> ExponentEnd(t, from).pos > from
  {
  }

  /** The parser reads a number exactly where one is written, to the end of its last part, and reports it so. */
  lemma NumbersAreWritten(t: string, st: Settings, pos: nat, end: nat, e: Event)
    ensures Number(t, st, pos) == Token(end, e) <==> exists p :: IsReading(t, st, pos, end, e, p)
  {
    hide Number;
    hide IsNumber;
    hide IsReported;
    if Number(t, st, pos) == Token(end, e) {
      var p := ReadHasParts(t, st, pos);
      NumberIsRead(t, st, pos, e, p);
      assert IsReading(t, st, pos, end, e, p);
    }
    if p :| IsReading(t, st, pos, end, e, p) {
      NumberIsRead(t, st, pos, e, p);
    }
  }
}
