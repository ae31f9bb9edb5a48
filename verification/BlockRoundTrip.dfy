/**
 The format of a block, as a writer would produce it: what is written is read back, whatever is read has
 been written, and how far the format is the one of the Bitcoin protocol.  The limits stand here as numbers.
 */
module BlockRoundTrip {
  import opened LittleEndian
  import opened TextAt
  import opened Word
  import opened Wrappers
  import opened BlockFormat

  // ---------------------------------------------------------------------------------------------
  // Numbers

  function LittleBytes(v: nat, n: nat): (s: seq<u8>)
    ensures |s| == n
  {
    if n == 0 then [] else [v % 256] + LittleBytes(v / 256, n - 1)
  }

  predicate Fits(v: nat, n: nat) {
    if n == 0 then v == 0 else Fits(v / 256, n - 1)
  }

  lemma {:induction false} ValueOfLittleBytes(v: nat, n: nat)
    requires Fits(v, n)
    ensures Value(LittleBytes(v, n)) == v
    decreases n
  {
    if n > 0 {
      ValueOfLittleBytes(v / 256, n - 1);
      assert LittleBytes(v, n)[1..] == LittleBytes(v / 256, n - 1);
    }
  }

  lemma {:induction false} LittleBytesOfValue(s: seq<u8>)
    ensures LittleBytes(Value(s), |s|) == s && Fits(Value(s), |s|)
  {
    if s != [] {
      LittleBytesOfValue(s[1..]);
      assert Value(s) % 256 == s[0] && Value(s) / 256 == Value(s[1..]);
      assert s == [s[0]] + s[1..];
    }
  }

  lemma FitsIn(v: nat)
    ensures v < 0x100 ==> Fits(v, 1)
    ensures v < 0x1_0000 ==> Fits(v, 2)
    ensures v < 0x1_0000_0000 ==> Fits(v, 4)
    ensures v < TWO_TO_THE_64 ==> Fits(v, 8)
  {
    var a, b, c, d := v / 0x100, v / 0x1_0000, v / 0x100_0000, v / 0x1_0000_0000;
    assert a / 256 == b && b / 256 == c && c / 256 == d;
    var e, f, g, h := d / 0x100, d / 0x1_0000, d / 0x100_0000, d / 0x1_0000_0000;
    assert e / 256 == f && f / 256 == g && g / 256 == h;
    assert v < TWO_TO_THE_64 ==> h == 0;
    assert v < TWO_TO_THE_64 ==> Fits(g, 1) && Fits(f, 2) && Fits(e, 3) && Fits(d, 4);
    assert v < TWO_TO_THE_64 ==> Fits(c, 5) && Fits(b, 6) && Fits(a, 7);
    assert v < 0x1_0000_0000 ==> Fits(c, 1) && Fits(b, 2) && Fits(a, 3);
  }

  lemma ReadNumber(data: seq<u8>, pos: nat, v: nat, n: nat)
    requires At(data, pos, LittleBytes(v, n)) && Fits(v, n)
    ensures Fixed(data, pos, n) == Ok(pos + n, v)
  {
    ValueOfLittleBytes(v, n);
  }

  lemma FitsBelow(v: nat)
    ensures Fits(v, 1) ==> v < 0x100
    ensures Fits(v, 2) ==> v < 0x1_0000
    ensures Fits(v, 4) ==> v < 0x1_0000_0000
    ensures Fits(v, 8) ==> v < TWO_TO_THE_64
  {
    FitsBelow4(v);
    FitsBelow4(v / 0x1_0000_0000);
    var a, b, c, d := v / 0x100, v / 0x1_0000, v / 0x100_0000, v / 0x1_0000_0000;
    assert a / 256 == b && b / 256 == c && c / 256 == d;
    assert Fits(v, 8) == Fits(a, 7) == Fits(b, 6) == Fits(c, 5) == Fits(d, 4);
  }

  lemma FitsBelow4(v: nat)
    ensures Fits(v, 1) ==> v < 0x100
    ensures Fits(v, 2) ==> v < 0x1_0000
    ensures Fits(v, 4) ==> v < 0x1_0000_0000
  {
    var a, b, c, d := v / 0x100, v / 0x1_0000, v / 0x100_0000, v / 0x1_0000_0000;
    assert a / 256 == b && b / 256 == c && c / 256 == d;
    assert Fits(v, 1) == (a == 0);
    assert Fits(v, 2) == Fits(a, 1) == (b == 0);
    assert Fits(v, 4) == Fits(a, 3) == Fits(b, 2) == Fits(c, 1) == (d == 0);
  }

  /** What is read as a number is that number written. */
  lemma NumberIsWritten(data: seq<u8>, pos: nat, n: nat)
    requires Fixed(data, pos, n).Ok?
    ensures var v := Fixed(data, pos, n).value;
      Fits(v, n) && At(data, pos, LittleBytes(v, n)) && Fixed(data, pos, n).pos == pos + n
  {
    LittleBytesOfValue(data[pos..pos + n]);
  }

  // ---------------------------------------------------------------------------------------------
  // Lengths

  /** A length can be written in three ways; a longer one is marked, by any byte from 0xFD on. */
  datatype Form = Short | Medium(mark: u8) | Long(mark: u8)

  predicate FormFits(n: nat, form: Form) {
    match form
    case Short => n < 0xFD
    case Medium(mark) => mark >= 0xFD && n < 0xFFFF
    case Long(mark) => mark >= 0xFD && n < 0xFFFF_FFFF
  }

  /** A length as the reader takes it. */
  function LengthBytes(n: nat, form: Form): seq<u8> {
    match form
    case Short => LittleBytes(n, 1)
    case Medium(mark) => LittleBytes(mark, 1) + LittleBytes(n, 2)
    case Long(mark) => LittleBytes(mark, 1) + (LittleBytes(0xFFFF, 2) + LittleBytes(n, 4))
  }

  lemma ReadLength(data: seq<u8>, pos: nat, n: nat, form: Form)
    requires FormFits(n, form) && At(data, pos, LengthBytes(n, form))
    ensures VarInt(data, pos) == Ok(pos + |LengthBytes(n, form)|, n)
  {
    hide Fixed;
    hide LittleBytes;
    hide Fits;
    hide At;
    FitsIn(n);
    FitsIn(0xFFFF);
    match form
    case Short =>
      ReadNumber(data, pos, n, 1);
    case Medium(mark) =>
      FitsIn(mark);
      AtSplit(data, pos, LittleBytes(mark, 1), LittleBytes(n, 2));
      ReadNumber(data, pos, mark, 1);
      ReadNumber(data, pos + 1, n, 2);
    case Long(mark) =>
      FitsIn(mark);
      AtSplit(data, pos, LittleBytes(mark, 1), LittleBytes(0xFFFF, 2) + LittleBytes(n, 4));
      AtSplit(data, pos + 1, LittleBytes(0xFFFF, 2), LittleBytes(n, 4));
      ReadNumber(data, pos, mark, 1);
      ReadNumber(data, pos + 1, 0xFFFF, 2);
      ReadNumber(data, pos + 3, n, 4);
  }

  lemma LengthIsWritten(data: seq<u8>, pos: nat) returns (form: Form)
    requires VarInt(data, pos).Ok?
    ensures var r := VarInt(data, pos);
      FormFits(r.value, form) && At(data, pos, LengthBytes(r.value, form))
        && r.pos == pos + |LengthBytes(r.value, form)|
  {
    hide Fixed;
    hide LittleBytes;
    hide Fits;
    hide At;
    var one := Fixed(data, pos, 1);
    NumberIsWritten(data, pos, 1);
    FitsBelow(one.value);
    if one.value < 0xFD {
      form := Short;
    } else {
      var two := Fixed(data, pos + 1, 2);
      NumberIsWritten(data, pos + 1, 2);
      FitsBelow(two.value);
      if two.value < 0xFFFF {
        form := Medium(one.value);
        AtJoin(data, pos, LittleBytes(one.value, 1), LittleBytes(two.value, 2));
      } else {
        NumberIsWritten(data, pos + 3, 4);
        var four := Fixed(data, pos + 3, 4);
        form := Long(one.value);
        AtJoin(data, pos + 1, LittleBytes(0xFFFF, 2), LittleBytes(four.value, 4));
        AtJoin(data, pos, LittleBytes(one.value, 1), LittleBytes(0xFFFF, 2) + LittleBytes(four.value, 4));
      }
    }
  }

  /** A length in the protocol's CompactSize format. */
  function CompactSize(n: nat): seq<u8> {
    if n < 0xFD then LittleBytes(n, 1)
    else if n <= 0xFFFF then LittleBytes(0xFD, 1) + LittleBytes(n, 2)
    else if n <= 0xFFFF_FFFF then LittleBytes(0xFE, 1) + LittleBytes(n, 4)
    else LittleBytes(0xFF, 1) + LittleBytes(n, 8)
  }

  /** The reader understands CompactSize exactly below 0xFFFF; beyond it ends in the wrong place. */
  lemma CompactSizeIsRead(data: seq<u8>, pos: nat, n: nat)
    requires n < TWO_TO_THE_64 && At(data, pos, CompactSize(n))
    ensures VarInt(data, pos) == Ok(pos + |CompactSize(n)|, n) <==> n < 0xFFFF
  {
    hide LittleBytes;
    hide Fits;
    hide At;
    if n < 0xFFFF {
      var form := if n < 0xFD then Short else Medium(0xFD);
      assert CompactSize(n) == LengthBytes(n, form);
      ReadLength(data, pos, n, form);
    } else {
      EndsAfter(data, pos);
      LastStepIsLong(data, pos, n);
    }
  }

  /** The length 0xFFFF, followed by some zeros, is taken for a longer form of the length 0. */
  lemma LimitIsMisread()
    ensures CompactSize(0xFFFF) == [0xFD, 0xFF, 0xFF]
    ensures VarInt([0xFD, 0xFF, 0xFF, 0, 0, 0, 0], 0) == Ok(7, 0)
  {
    FormOfLimit();
    hide LittleBytes;
    hide Value;
    var data: seq<u8> := [0xFD, 0xFF, 0xFF, 0, 0, 0, 0];
    assert data[0..1] == [0xFD] && data[1..3] == [0xFF, 0xFF] && data[3..7] == [0, 0, 0, 0];
    SingleByte(0xFD);
    TwoBytes(0xFF, 0xFF);
    AppendedZeros([], 4);
    NoBytes();
    assert [] + Zeros(4) == data[3..7];
  }

  lemma FormOfLimit()
    ensures CompactSize(0xFFFF) == [0xFD, 0xFF, 0xFF]
  {
    assert LittleBytes(0xFF, 1) == [0xFF] && LittleBytes(0xFD, 1) == [0xFD];
    assert LittleBytes(0xFFFF, 2) == [0xFF] + LittleBytes(0xFF, 1);
  }

  lemma TwoBytes(x: u8, y: u8)
    ensures Value([x, y]) == x + 256 * y
  {
    SingleByte(y);
    assert [x, y][1..] == [y];
  }

  lemma NoBytes()
    ensures Value([]) == 0
  {
  }

  /** Where reading a length can end. */
  lemma EndsAfter(data: seq<u8>, pos: nat)
    ensures var r := VarInt(data, pos);
      r.Ok? ==> r.pos == pos + 1 || r.pos == pos + 3 || r.pos == pos + 7
    ensures var r := VarInt(data, pos);
      r.Ok? && r.pos == pos + 3 ==> r.value < 0xFFFF
  {
  }

  lemma LastStepIsLong(data: seq<u8>, pos: nat, n: nat)
    requires n >= 0xFFFF
    ensures |CompactSize(n)| == 3 <==> n == 0xFFFF
    ensures |CompactSize(n)| == 3 || |CompactSize(n)| == 5 || |CompactSize(n)| == 9
  {
    hide LittleBytes;
  }

  // ---------------------------------------------------------------------------------------------
  // Inputs and outputs

  datatype ScriptContent = ScriptContent(form: Form, bytes: seq<u8>)

  datatype InputContent = InputContent(hash: seq<u8>, index: nat, script: ScriptContent, sequence: nat)

  datatype OutputContent = OutputContent(value: nat, script: ScriptContent)

  predicate ScriptFits(c: ScriptContent) {
    FormFits(|c.bytes|, c.form) && |c.bytes| < 32768
  }

  predicate InputFits(c: InputContent) {
    |c.hash| == 32 && c.index < TWO_TO_THE_32 && ScriptFits(c.script) && c.sequence < TWO_TO_THE_32
  }

  predicate OutputFits(c: OutputContent) {
    c.value < TWO_TO_THE_64 && ScriptFits(c.script)
  }

  function ScriptBytes(c: ScriptContent): seq<u8> {
    LengthBytes(|c.bytes|, c.form) + c.bytes
  }

  function InputBytes(c: InputContent): seq<u8> {
    c.hash + (LittleBytes(c.index, 4) + (ScriptBytes(c.script) + LittleBytes(c.sequence, 4)))
  }

  function OutputBytes(c: OutputContent): seq<u8> {
    LittleBytes(c.value, 8) + ScriptBytes(c.script)
  }

  /** The reader's record of a script points at these bytes. */
  predicate ShowsScript(data: seq<u8>, s: Script, bytes: seq<u8>) {
    s.length == |bytes| && if bytes == [] then s.at == None else s.at.Some? && At(data, s.at.value, bytes)
  }

  predicate ShowsInput(data: seq<u8>, i: Input, c: InputContent) {
    At(data, i.hashAt, c.hash) && i.index == c.index && ShowsScript(data, i.script, c.script.bytes)
      && i.sequence == c.sequence
  }

  predicate ShowsOutput(data: seq<u8>, o: Output, c: OutputContent) {
    o.value == c.value && ShowsScript(data, o.script, c.script.bytes)
  }

  lemma ReadScript(data: seq<u8>, pos: nat, c: ScriptContent)
    requires ScriptFits(c) && At(data, pos, ScriptBytes(c))
    ensures var r := ScriptAt(data, pos);
      r.Ok? && r.pos == pos + |ScriptBytes(c)| && ShowsScript(data, r.value, c.bytes)
  {
    hide VarInt;
    hide LengthBytes;
    AtSplit(data, pos, LengthBytes(|c.bytes|, c.form), c.bytes);
    ReadLength(data, pos, |c.bytes|, c.form);
  }

  lemma ScriptIsWritten(data: seq<u8>, pos: nat) returns (c: ScriptContent)
    requires ScriptAt(data, pos).Ok?
    ensures ScriptFits(c) && At(data, pos, ScriptBytes(c)) && ScriptAt(data, pos).pos == pos + |ScriptBytes(c)|
  {
    hide VarInt;
    hide LengthBytes;
    hide FormFits;
    var length := VarInt(data, pos);
    var form := LengthIsWritten(data, pos);
    c := ScriptContent(form, data[length.pos..length.pos + length.value]);
    AtJoin(data, pos, LengthBytes(|c.bytes|, form), c.bytes);
  }

  lemma ReadInputBack(data: seq<u8>, pos: nat, c: InputContent)
    requires InputFits(c) && At(data, pos, InputBytes(c))
    ensures var r := ReadInput(data, pos);
      r.Ok? && r.pos == pos + |InputBytes(c)| && ShowsInput(data, r.value, c)
  {
    hide ScriptAt;
    hide ScriptBytes;
    hide Fixed;
    hide LittleBytes;
    hide Fits;
    hide ShowsScript;
    hide ScriptFits;
    var index, script, sequence := LittleBytes(c.index, 4), ScriptBytes(c.script), LittleBytes(c.sequence, 4);
    AtSplit(data, pos, c.hash, index + (script + sequence));
    AtSplit(data, pos + 32, index, script + sequence);
    AtSplit(data, pos + 36, script, sequence);
    FitsIn(c.index);
    FitsIn(c.sequence);
    ReadNumber(data, pos + 32, c.index, 4);
    ReadScript(data, pos + 36, c.script);
    ReadNumber(data, pos + 36 + |script|, c.sequence, 4);
  }

  lemma InputIsWritten(data: seq<u8>, pos: nat) returns (c: InputContent)
    requires ReadInput(data, pos).Ok?
    ensures InputFits(c) && At(data, pos, InputBytes(c)) && ReadInput(data, pos).pos == pos + |InputBytes(c)|
  {
    hide ScriptAt;
    hide ScriptBytes;
    hide Fixed;
    hide LittleBytes;
    hide Fits;
    hide ScriptFits;
    var hash := data[pos..pos + 32];
    assert At(data, pos, hash);
    hide At;
    NumberIsWritten(data, pos + 32, 4);
    var index := Fixed(data, pos + 32, 4).value;
    var script := ScriptIsWritten(data, pos + 36);
    var end := ScriptAt(data, pos + 36).pos;
    NumberIsWritten(data, end, 4);
    var sequence := Fixed(data, end, 4).value;
    FitsBelow(index);
    FitsBelow(sequence);
    c := InputContent(hash, index, script, sequence);
    AtJoin(data, pos + 36, ScriptBytes(script), LittleBytes(sequence, 4));
    AtJoin(data, pos + 32, LittleBytes(index, 4), ScriptBytes(script) + LittleBytes(sequence, 4));
    AtJoin(data, pos, hash, LittleBytes(index, 4) + (ScriptBytes(script) + LittleBytes(sequence, 4)));
  }

  lemma ReadOutputBack(data: seq<u8>, pos: nat, c: OutputContent)
    requires OutputFits(c) && At(data, pos, OutputBytes(c))
    ensures var r := ReadOutput(data, pos);
      r.Ok? && r.pos == pos + |OutputBytes(c)| && ShowsOutput(data, r.value, c)
  {
    hide ScriptAt;
    hide ScriptBytes;
    hide Fixed;
    hide LittleBytes;
    hide Fits;
    hide ShowsScript;
    hide ScriptFits;
    AtSplit(data, pos, LittleBytes(c.value, 8), ScriptBytes(c.script));
    FitsIn(c.value);
    ReadNumber(data, pos, c.value, 8);
    ReadScript(data, pos + 8, c.script);
  }

  lemma OutputIsWritten(data: seq<u8>, pos: nat) returns (c: OutputContent)
    requires ReadOutput(data, pos).Ok?
    ensures OutputFits(c) && At(data, pos, OutputBytes(c)) && ReadOutput(data, pos).pos == pos + |OutputBytes(c)|
  {
    hide ScriptAt;
    hide ScriptBytes;
    hide Fixed;
    hide LittleBytes;
    hide Fits;
    hide ScriptFits;
    hide At;
    NumberIsWritten(data, pos, 8);
    var value := Fixed(data, pos, 8).value;
    var script := ScriptIsWritten(data, pos + 8);
    FitsBelow(value);
    c := OutputContent(value, script);
    AtJoin(data, pos, LittleBytes(value, 8), ScriptBytes(script));
  }

  function AllInputBytes(cs: seq<InputContent>): seq<u8> {
    if cs == [] then [] else AllInputBytes(cs[..|cs| - 1]) + InputBytes(cs[|cs| - 1])
  }

  function AllOutputBytes(cs: seq<OutputContent>): seq<u8> {
    if cs == [] then [] else AllOutputBytes(cs[..|cs| - 1]) + OutputBytes(cs[|cs| - 1])
  }

  lemma {:induction false} ReadInputsBack(data: seq<u8>, pos: nat, cs: seq<InputContent>)
    requires (forall i :: 0 <= i < |cs| ==> InputFits(cs[i])) && At(data, pos, AllInputBytes(cs))
    ensures var r := ReadInputs(data, pos, |cs|);
      r.Ok? && r.pos == pos + |AllInputBytes(cs)| && forall i :: 0 <= i < |cs| ==> ShowsInput(data, r.value[i], cs[i])
    decreases |cs|
  {
    hide ReadInput;
    hide InputBytes;
    hide InputFits;
    hide ShowsInput;
    if cs != [] {
      var front, last := cs[..|cs| - 1], cs[|cs| - 1];
      AtSplit(data, pos, AllInputBytes(front), InputBytes(last));
      ReadInputsBack(data, pos, front);
      ReadInputBack(data, pos + |AllInputBytes(front)|, last);
    }
  }

  lemma {:induction false} ReadOutputsBack(data: seq<u8>, pos: nat, cs: seq<OutputContent>)
    requires (forall i :: 0 <= i < |cs| ==> OutputFits(cs[i])) && At(data, pos, AllOutputBytes(cs))
    ensures var r := ReadOutputs(data, pos, |cs|);
      r.Ok? && r.pos == pos + |AllOutputBytes(cs)| && forall i :: 0 <= i < |cs| ==> ShowsOutput(data, r.value[i], cs[i])
    decreases |cs|
  {
    hide ReadOutput;
    hide OutputBytes;
    hide OutputFits;
    hide ShowsOutput;
    if cs != [] {
      var front, last := cs[..|cs| - 1], cs[|cs| - 1];
      AtSplit(data, pos, AllOutputBytes(front), OutputBytes(last));
      ReadOutputsBack(data, pos, front);
      ReadOutputBack(data, pos + |AllOutputBytes(front)|, last);
    }
  }

  lemma {:induction false} InputsAreWritten(data: seq<u8>, pos: nat, n: nat) returns (cs: seq<InputContent>)
    requires pos <= |data| && ReadInputs(data, pos, n).Ok?
    ensures |cs| == n && (forall i :: 0 <= i < n ==> InputFits(cs[i]))
    ensures At(data, pos, AllInputBytes(cs)) && ReadInputs(data, pos, n).pos == pos + |AllInputBytes(cs)|
    decreases n
  {
    hide ReadInput;
    hide InputBytes;
    hide InputFits;
    if n == 0 {
      cs := [];
    } else {
      var front := InputsAreWritten(data, pos, n - 1);
      var last := InputIsWritten(data, ReadInputs(data, pos, n - 1).pos);
      cs := front + [last];
      assert cs[..|cs| - 1] == front;
      AtJoin(data, pos, AllInputBytes(front), InputBytes(last));
    }
  }

  lemma {:induction false} OutputsAreWritten(data: seq<u8>, pos: nat, n: nat) returns (cs: seq<OutputContent>)
    requires pos <= |data| && ReadOutputs(data, pos, n).Ok?
    ensures |cs| == n && (forall i :: 0 <= i < n ==> OutputFits(cs[i]))
    ensures At(data, pos, AllOutputBytes(cs)) && ReadOutputs(data, pos, n).pos == pos + |AllOutputBytes(cs)|
    decreases n
  {
    hide ReadOutput;
    hide OutputBytes;
    hide OutputFits;
    if n == 0 {
      cs := [];
    } else {
      var front := OutputsAreWritten(data, pos, n - 1);
      var last := OutputIsWritten(data, ReadOutputs(data, pos, n - 1).pos);
      cs := front + [last];
      assert cs[..|cs| - 1] == front;
      AtJoin(data, pos, AllOutputBytes(front), OutputBytes(last));
    }
  }

  // ---------------------------------------------------------------------------------------------
  // Transactions

  datatype Content = Content(
    version: nat,
    inputsForm: Form, inputs: seq<InputContent>,
    outputsForm: Form, outputs: seq<OutputContent>,
    lockTime: nat)

  predicate HeadFits(version: nat, form: Form, inputs: seq<InputContent>) {
    && version < TWO_TO_THE_32 && FormFits(|inputs|, form) && |inputs| < 32678
    && forall i :: 0 <= i < |inputs| ==> InputFits(inputs[i])
  }

  predicate TailFits(form: Form, outputs: seq<OutputContent>, lockTime: nat) {
    && lockTime < TWO_TO_THE_32 && FormFits(|outputs|, form) && |outputs| < 32768
    && forall i :: 0 <= i < |outputs| ==> OutputFits(outputs[i])
  }

  predicate ContentFits(c: Content) {
    HeadFits(c.version, c.inputsForm, c.inputs) && TailFits(c.outputsForm, c.outputs, c.lockTime)
  }

  /** The version, and the inputs with their number before them. */
  function HeadBytes(version: nat, form: Form, inputs: seq<InputContent>): seq<u8> {
    LittleBytes(version, 4) + (LengthBytes(|inputs|, form) + AllInputBytes(inputs))
  }

  function TailBytes(form: Form, outputs: seq<OutputContent>, lockTime: nat): seq<u8> {
    LengthBytes(|outputs|, form) + (AllOutputBytes(outputs) + LittleBytes(lockTime, 4))
  }

  function TransactionBytes(c: Content): seq<u8> {
    HeadBytes(c.version, c.inputsForm, c.inputs) + TailBytes(c.outputsForm, c.outputs, c.lockTime)
  }

  predicate Shows(data: seq<u8>, b: Body, c: Content) {
    && b.version == c.version && b.lockTime == c.lockTime
    && |b.inputs| == |c.inputs| && (forall i :: 0 <= i < |c.inputs| ==> ShowsInput(data, b.inputs[i], c.inputs[i]))
    && |b.outputs| == |c.outputs|
    && (forall i :: 0 <= i < |c.outputs| ==> ShowsOutput(data, b.outputs[i], c.outputs[i]))
  }

  lemma ReadTailBack(data: seq<u8>, pos: nat, totalOutputs: nat, c: Content, inputs: seq<Input>)
    requires TailFits(c.outputsForm, c.outputs, c.lockTime) && totalOutputs + |c.outputs| < 32768
    requires At(data, pos, TailBytes(c.outputsForm, c.outputs, c.lockTime))
    requires |inputs| == |c.inputs| && forall i :: 0 <= i < |c.inputs| ==> ShowsInput(data, inputs[i], c.inputs[i])
    ensures var r := ReadTail(data, pos, totalOutputs, c.version, inputs);
      r.Accepted? && r.pos == pos + |TailBytes(c.outputsForm, c.outputs, c.lockTime)| && Shows(data, r.body, c)
  {
    hide VarInt;
    hide LengthBytes;
    hide ReadOutputs;
    hide AllOutputBytes;
    hide Fixed;
    hide LittleBytes;
    hide Fits;
    hide ShowsInput;
    hide ShowsOutput;
    hide At;
    hide FormFits;
    var count, outputs := LengthBytes(|c.outputs|, c.outputsForm), AllOutputBytes(c.outputs);
    var lockTime := LittleBytes(c.lockTime, 4);
    AtSplit(data, pos, count, outputs + lockTime);
    AtSplit(data, pos + |count|, outputs, lockTime);
    ReadLength(data, pos, |c.outputs|, c.outputsForm);
    ReadOutputsBack(data, pos + |count|, c.outputs);
    FitsIn(c.lockTime);
    ReadNumber(data, pos + |count| + |outputs|, c.lockTime, 4);
  }

  lemma TailIsWritten(data: seq<u8>, pos: nat, totalOutputs: nat, version: nat, inputs: seq<Input>)
    returns (form: Form, outputs: seq<OutputContent>, lockTime: nat)
    requires ReadTail(data, pos, totalOutputs, version, inputs).Accepted?
    ensures TailFits(form, outputs, lockTime) && totalOutputs + |outputs| < 32768
    ensures At(data, pos, TailBytes(form, outputs, lockTime))
    ensures ReadTail(data, pos, totalOutputs, version, inputs).pos == pos + |TailBytes(form, outputs, lockTime)|
  {
    hide VarInt;
    hide LengthBytes;
    hide ReadOutputs;
    hide AllOutputBytes;
    hide OutputFits;
    hide Fixed;
    hide LittleBytes;
    hide Fits;
    hide At;
    hide FormFits;
    var count := VarInt(data, pos);
    form := LengthIsWritten(data, pos);
    outputs := OutputsAreWritten(data, count.pos, count.value);
    var end := ReadOutputs(data, count.pos, count.value).pos;
    NumberIsWritten(data, end, 4);
    lockTime := Fixed(data, end, 4).value;
    FitsBelow(lockTime);
    AtJoin(data, count.pos, AllOutputBytes(outputs), LittleBytes(lockTime, 4));
    AtJoin(data, pos, LengthBytes(|outputs|, form), AllOutputBytes(outputs) + LittleBytes(lockTime, 4));
  }

  /** The version and the inputs, whatever comes after them: without inputs the transaction is refused. */
  lemma ReadHeadBack(data: seq<u8>, pos: nat, totalInputs: nat, totalOutputs: nat,
                     version: nat, form: Form, inputs: seq<InputContent>)
    requires HeadFits(version, form, inputs) && totalInputs + |inputs| < 32768
    requires At(data, pos, HeadBytes(version, form, inputs))
    ensures var end := pos + |HeadBytes(version, form, inputs)|;
      var r := ReadTransaction(data, pos, totalInputs, totalOutputs);
      if inputs == [] then r == Refused(end, version)
      else exists read: seq<Input> ::
        && |read| == |inputs| && (forall i :: 0 <= i < |read| ==> ShowsInput(data, read[i], inputs[i]))
        && r == ReadTail(data, end, totalOutputs, version, read)
  {
    hide VarInt;
    hide LengthBytes;
    hide ReadInputs;
    hide ReadTail;
    hide AllInputBytes;
    hide Fixed;
    hide LittleBytes;
    hide Fits;
    hide ShowsInput;
    hide At;
    hide FormFits;
    var count, bytes := LengthBytes(|inputs|, form), AllInputBytes(inputs);
    AtSplit(data, pos, LittleBytes(version, 4), count + bytes);
    AtSplit(data, pos + 4, count, bytes);
    FitsIn(version);
    ReadNumber(data, pos, version, 4);
    ReadLength(data, pos + 4, |inputs|, form);
    ReadInputsBack(data, pos + 4 + |count|, inputs);
  }

  lemma HeadIsWritten(data: seq<u8>, pos: nat, totalInputs: nat, totalOutputs: nat)
    returns (version: nat, form: Form, inputs: seq<InputContent>)
    requires !ReadTransaction(data, pos, totalInputs, totalOutputs).TxAbort?
    ensures HeadFits(version, form, inputs) && totalInputs + |inputs| < 32768
    ensures At(data, pos, HeadBytes(version, form, inputs))
  {
    hide VarInt;
    hide LengthBytes;
    hide ReadInputs;
    hide ReadTail;
    hide AllInputBytes;
    hide InputFits;
    hide Fixed;
    hide LittleBytes;
    hide Fits;
    hide At;
    hide FormFits;
    NumberIsWritten(data, pos, 4);
    version := Fixed(data, pos, 4).value;
    FitsBelow(version);
    var count := VarInt(data, pos + 4);
    form := LengthIsWritten(data, pos + 4);
    inputs := InputsAreWritten(data, count.pos, count.value);
    AtJoin(data, pos + 4, LengthBytes(|inputs|, form), AllInputBytes(inputs));
    AtJoin(data, pos, LittleBytes(version, 4), LengthBytes(|inputs|, form) + AllInputBytes(inputs));
  }

  /** A transaction with at least one input is read back, and one without is refused. */
  lemma ReadTransactionBack(data: seq<u8>, pos: nat, totalInputs: nat, totalOutputs: nat, c: Content)
    requires ContentFits(c) && At(data, pos, TransactionBytes(c))
    requires totalInputs + |c.inputs| < 32768 && totalOutputs + |c.outputs| < 32768
    ensures var r := ReadTransaction(data, pos, totalInputs, totalOutputs);
      if c.inputs == [] then r.Refused?
      else r.Accepted? && r.pos == pos + |TransactionBytes(c)| && Shows(data, r.body, c)
  {
    hide HeadFits;
    hide TailFits;
    hide HeadBytes;
    hide TailBytes;
    hide ReadTransaction;
    hide ReadTail;
    hide ShowsInput;
    hide Shows;
    hide At;
    var head := HeadBytes(c.version, c.inputsForm, c.inputs);
    AtSplit(data, pos, head, TailBytes(c.outputsForm, c.outputs, c.lockTime));
    ReadHeadBack(data, pos, totalInputs, totalOutputs, c.version, c.inputsForm, c.inputs);
    if c.inputs != [] {
      var read: seq<Input> :|
        && |read| == |c.inputs| && (forall i :: 0 <= i < |read| ==> ShowsInput(data, read[i], c.inputs[i]))
        && ReadTransaction(data, pos, totalInputs, totalOutputs)
           == ReadTail(data, pos + |head|, totalOutputs, c.version, read);
      ReadTailBack(data, pos + |head|, totalOutputs, c, read);
    }
  }

  /** An accepted transaction is one that was written, whatever wrote it. */
  lemma TransactionIsWritten(data: seq<u8>, pos: nat, totalInputs: nat, totalOutputs: nat) returns (c: Content)
    requires ReadTransaction(data, pos, totalInputs, totalOutputs).Accepted?
    ensures ContentFits(c) && c.inputs != [] && At(data, pos, TransactionBytes(c))
    ensures totalInputs + |c.inputs| < 32768 && totalOutputs + |c.outputs| < 32768
    ensures ReadTransaction(data, pos, totalInputs, totalOutputs).pos == pos + |TransactionBytes(c)|
  {
    hide HeadFits;
    hide TailFits;
    hide HeadBytes;
    hide TailBytes;
    hide ReadTransaction;
    hide ReadTail;
    hide At;
    var version, form, inputs := HeadIsWritten(data, pos, totalInputs, totalOutputs);
    ReadHeadBack(data, pos, totalInputs, totalOutputs, version, form, inputs);
    var middle := pos + |HeadBytes(version, form, inputs)|;
    var read: seq<Input> :|
      ReadTransaction(data, pos, totalInputs, totalOutputs) == ReadTail(data, middle, totalOutputs, version, read);
    var outputsForm, outputs, lockTime := TailIsWritten(data, middle, totalOutputs, version, read);
    c := Content(version, form, inputs, outputsForm, outputs, lockTime);
    AtJoin(data, pos, HeadBytes(version, form, inputs), TailBytes(outputsForm, outputs, lockTime));
  }

  function AllBytes(cs: seq<Content>): seq<u8> {
    if cs == [] then [] else AllBytes(cs[..|cs| - 1]) + TransactionBytes(cs[|cs| - 1])
  }

  function InputsOf(cs: seq<Content>): nat {
    if cs == [] then 0 else InputsOf(cs[..|cs| - 1]) + |cs[|cs| - 1].inputs|
  }

  function OutputsOf(cs: seq<Content>): nat {
    if cs == [] then 0 else OutputsOf(cs[..|cs| - 1]) + |cs[|cs| - 1].outputs|
  }

  /** Transactions the reader accepts one after the other. */
  predicate AllFit(cs: seq<Content>) {
    && (forall i :: 0 <= i < |cs| ==> ContentFits(cs[i]) && cs[i].inputs != [])
    && InputsOf(cs) < 32768 && OutputsOf(cs) < 32768
  }

  lemma {:induction false} ReadTransactionsBack(data: seq<u8>, pos: nat, cs: seq<Content>)
    requires AllFit(cs) && At(data, pos, AllBytes(cs))
    ensures var r := ReadTransactions(data, pos, |cs|);
      && r.AllRead? && r.pos == pos + |AllBytes(cs)|
      && InputCount(r.txs) == InputsOf(cs) && OutputCount(r.txs) == OutputsOf(cs)
      && forall i :: 0 <= i < |cs| ==> Shows(data, r.txs[i].body, cs[i])
    decreases |cs|
  {
    hide ReadTransaction;
    hide TransactionBytes;
    hide ContentFits;
    hide Shows;
    hide At;
    hide InputsOf;
    hide OutputsOf;
    hide InputCount;
    hide OutputCount;
    if cs == [] {
      NoCounts();
    } else {
      var front, last := cs[..|cs| - 1], cs[|cs| - 1];
      AtSplit(data, pos, AllBytes(front), TransactionBytes(last));
      CountsOf(cs);
      ReadTransactionsBack(data, pos, front);
      var read := ReadTransactions(data, pos, |front|);
      ReadTransactionBack(data, read.pos, InputCount(read.txs), OutputCount(read.txs), last);
      SameCounts(data, read.txs, ReadTransactions(data, pos, |cs|).txs, last);
    }
  }

  lemma NothingFits()
    ensures AllFit([])
  {
  }

  lemma OneMoreFits(front: seq<Content>, last: Content)
    requires AllFit(front) && ContentFits(last) && last.inputs != []
    requires InputsOf(front) + |last.inputs| < 32768
    requires OutputsOf(front) + |last.outputs| < 32768
    ensures AllFit(front + [last])
  {
    hide ContentFits;
    assert (front + [last])[..|front|] == front;
  }

  lemma {:induction false} TransactionsAreWritten(data: seq<u8>, pos: nat, n: nat) returns (cs: seq<Content>)
    requires pos <= |data| && ReadTransactions(data, pos, n).AllRead?
    ensures |cs| == n && AllFit(cs) && At(data, pos, AllBytes(cs))
    ensures ReadTransactions(data, pos, n).pos == pos + |AllBytes(cs)|
    decreases n
  {
    hide ReadTransaction;
    hide TransactionBytes;
    hide ContentFits;
    hide AllFit;
    hide InputCount;
    hide OutputCount;
    if n == 0 {
      cs := [];
      NothingFits();
    } else {
      var front := TransactionsAreWritten(data, pos, n - 1);
      ReadTransactionsBack(data, pos, front);
      var read := ReadTransactions(data, pos, n - 1);
      var last := TransactionIsWritten(data, read.pos, InputCount(read.txs), OutputCount(read.txs));
      cs := front + [last];
      assert cs[..|cs| - 1] == front;
      OneMoreFits(front, last);
      AtJoin(data, pos, AllBytes(front), TransactionBytes(last));
    }
  }

  /** Reading stops after these transactions exactly if what follows has a version and the number 0. */
  predicate StopsAt(data: seq<u8>, pos: nat, cs: seq<Content>, version: nat, form: Form) {
    && AllFit(cs) && At(data, pos, AllBytes(cs)) && HeadFits(version, form, [])
    && At(data, pos + |AllBytes(cs)|, HeadBytes(version, form, []))
  }

  lemma {:induction false} ReadStops(data: seq<u8>, pos: nat, n: nat, cs: seq<Content>, version: nat, form: Form)
    requires StopsAt(data, pos, cs, version, form) && |cs| < n
    ensures var r := ReadTransactions(data, pos, n);
      && r.Stopped? && |r.before| == |cs|
      && forall i :: 0 <= i < |cs| ==> Shows(data, r.before[i].body, cs[i])
    decreases n
  {
    hide ReadTransaction;
    hide HeadFits;
    hide HeadBytes;
    hide At;
    hide AllBytes;
    hide InputsOf;
    hide OutputsOf;
    hide InputCount;
    hide OutputCount;
    hide ContentFits;
    hide Shows;
    if |cs| == n - 1 {
      ReadTransactionsBack(data, pos, cs);
      ReadHeadBack(data, pos + |AllBytes(cs)|, InputsOf(cs), OutputsOf(cs), version, form, []);
    } else {
      ReadStops(data, pos, n - 1, cs, version, form);
    }
  }

  lemma {:induction false} StopIsWritten(data: seq<u8>, pos: nat, n: nat)
    returns (cs: seq<Content>, version: nat, form: Form)
    requires pos <= |data| && ReadTransactions(data, pos, n).Stopped?
    ensures StopsAt(data, pos, cs, version, form) && |cs| < n
    decreases n
  {
    hide ReadTransaction;
    hide HeadFits;
    hide HeadBytes;
    hide At;
    hide AllFit;
    hide AllBytes;
    var front := ReadTransactions(data, pos, n - 1);
    if front.AllRead? {
      cs := TransactionsAreWritten(data, pos, n - 1);
      var i, o := InputCount(front.txs), OutputCount(front.txs);
      var inputs;
      version, form, inputs := HeadIsWritten(data, front.pos, i, o);
      ReadHeadBack(data, front.pos, i, o, version, form, inputs);
    } else {
      cs, version, form := StopIsWritten(data, pos, n - 1);
    }
  }

  lemma NoCounts()
    ensures InputCount([]) == InputsOf([]) && OutputCount([]) == OutputsOf([])
  {
  }

  lemma CountsOf(cs: seq<Content>)
    requires cs != []
    ensures InputsOf(cs) == InputsOf(cs[..|cs| - 1]) + |cs[|cs| - 1].inputs|
    ensures OutputsOf(cs) == OutputsOf(cs[..|cs| - 1]) + |cs[|cs| - 1].outputs|
  {
  }

  lemma SameCounts(data: seq<u8>, front: seq<Placed>, txs: seq<Placed>, last: Content)
    requires |txs| == |front| + 1 && txs[..|front|] == front && Shows(data, txs[|front|].body, last)
    ensures InputCount(txs) == InputCount(front) + |last.inputs|
      && OutputCount(txs) == OutputCount(front) + |last.outputs|
  {
  }

  // ---------------------------------------------------------------------------------------------
  // The header

  datatype HeaderContent = HeaderContent(
    version: nat, previous: seq<u8>, merkle: seq<u8>, time: nat, bits: nat, nonce: nat)

  predicate HeaderFits(h: HeaderContent) {
    && h.version < TWO_TO_THE_32 && |h.previous| == 32 && |h.merkle| == 32
    && h.time < TWO_TO_THE_32 && h.bits < TWO_TO_THE_32 && h.nonce < TWO_TO_THE_32
  }

  function HeaderBytes(h: HeaderContent): seq<u8> {
    LittleBytes(h.version, 4) + (h.previous + (h.merkle
      + (LittleBytes(h.time, 4) + (LittleBytes(h.bits, 4) + LittleBytes(h.nonce, 4)))))
  }

  predicate ShowsHeader(data: seq<u8>, r: Header, h: HeaderContent) {
    && r.version == h.version && At(data, r.previousAt, h.previous) && At(data, r.merkleAt, h.merkle)
    && r.time == h.time && r.bits == h.bits && r.nonce == h.nonce
  }

  lemma ReadHeaderBack(data: seq<u8>, h: HeaderContent)
    requires HeaderFits(h) && At(data, 0, HeaderBytes(h))
    ensures |HeaderBytes(h)| == 80 && ReadHeader(data).Ok? && ShowsHeader(data, ReadHeader(data).value, h)
  {
    hide LittleBytes;
    hide Fits;
    var time, bits, nonce := LittleBytes(h.time, 4), LittleBytes(h.bits, 4), LittleBytes(h.nonce, 4);
    AtSplit(data, 0, LittleBytes(h.version, 4), h.previous + (h.merkle + (time + (bits + nonce))));
    AtSplit(data, 4, h.previous, h.merkle + (time + (bits + nonce)));
    AtSplit(data, 36, h.merkle, time + (bits + nonce));
    AtSplit(data, 68, time, bits + nonce);
    AtSplit(data, 72, bits, nonce);
    FitsIn(h.version);
    FitsIn(h.time);
    FitsIn(h.bits);
    FitsIn(h.nonce);
    ReadNumber(data, 0, h.version, 4);
    ReadNumber(data, 68, h.time, 4);
    ReadNumber(data, 72, h.bits, 4);
    ReadNumber(data, 76, h.nonce, 4);
  }

  lemma HeaderIsWritten(data: seq<u8>) returns (h: HeaderContent)
    requires |data| >= 80
    ensures HeaderFits(h) && At(data, 0, HeaderBytes(h)) && |HeaderBytes(h)| == 80
  {
    hide LittleBytes;
    hide Fits;
    NumberIsWritten(data, 0, 4);
    NumberIsWritten(data, 68, 4);
    NumberIsWritten(data, 72, 4);
    NumberIsWritten(data, 76, 4);
    var version, time := Fixed(data, 0, 4).value, Fixed(data, 68, 4).value;
    var bits, nonce := Fixed(data, 72, 4).value, Fixed(data, 76, 4).value;
    FitsBelow(version);
    FitsBelow(time);
    FitsBelow(bits);
    FitsBelow(nonce);
    h := HeaderContent(version, data[4..36], data[36..68], time, bits, nonce);
    hide Fixed;
    AtJoin(data, 72, LittleBytes(bits, 4), LittleBytes(nonce, 4));
    AtJoin(data, 68, LittleBytes(time, 4), LittleBytes(bits, 4) + LittleBytes(nonce, 4));
    var rest := LittleBytes(time, 4) + (LittleBytes(bits, 4) + LittleBytes(nonce, 4));
    AtJoin(data, 36, h.merkle, rest);
    AtJoin(data, 4, h.previous, h.merkle + rest);
    AtJoin(data, 0, LittleBytes(version, 4), h.previous + (h.merkle + rest));
  }

  // ---------------------------------------------------------------------------------------------
  // Blocks

  /** The header and the number of transactions to come. */
  function StartBytes(h: HeaderContent, n: nat, form: Form): seq<u8> {
    HeaderBytes(h) + LengthBytes(n, form)
  }

  /** Data that begins with a header, shown as it is, and a number of transactions. */
  predicate Starts(data: seq<u8>, h: HeaderContent, n: nat, form: Form) {
    && HeaderFits(h) && FormFits(n, form) && n < 32768
    && At(data, 0, StartBytes(h, n, form))
  }

  lemma ReadStart(data: seq<u8>, h: HeaderContent, n: nat, form: Form)
    requires Starts(data, h, n, form)
    ensures var start := |StartBytes(h, n, form)|;
      && ReadHeader(data).Ok? && ShowsHeader(data, ReadHeader(data).value, h)
      && start <= |data| && ReadBlock(data) == BlockResult(n, start, ReadTransactions(data, start, n))
  {
    hide VarInt;
    hide LengthBytes;
    hide HeaderBytes;
    hide HeaderFits;
    hide FormFits;
    hide ShowsHeader;
    hide ReadTransactions;
    AtSplit(data, 0, HeaderBytes(h), LengthBytes(n, form));
    ReadHeaderBack(data, h);
    ReadLength(data, 80, n, form);
  }

  lemma StartIsWritten(data: seq<u8>) returns (h: HeaderContent, n: nat, form: Form)
    requires !ReadBlock(data).result.TxsAbort?
    ensures Starts(data, h, n, form)
  {
    hide VarInt;
    hide LengthBytes;
    hide HeaderBytes;
    hide HeaderFits;
    hide FormFits;
    hide At;
    hide ReadTransactions;
    h := HeaderIsWritten(data);
    form := LengthIsWritten(data, 80);
    n := VarInt(data, 80).value;
    AtJoin(data, 0, HeaderBytes(h), LengthBytes(n, form));
  }

  /** Data that begins with a written block. */
  predicate IsBlock(data: seq<u8>, h: HeaderContent, form: Form, cs: seq<Content>) {
    Starts(data, h, |cs|, form) && AllFit(cs) && At(data, |StartBytes(h, |cs|, form)|, AllBytes(cs))
  }

  /** A written block is read back: its header, every transaction, and exactly to the end of its bytes. */
  lemma BlockRoundTrips(data: seq<u8>, h: HeaderContent, form: Form, cs: seq<Content>)
    requires IsBlock(data, h, form, cs)
    ensures var b := ReadBlock(data);
      && ReadHeader(data).Ok? && ShowsHeader(data, ReadHeader(data).value, h)
      && b.count == |cs| && b.result.AllRead?
      && b.result.pos == |StartBytes(h, |cs|, form)| + |AllBytes(cs)|
      && forall i :: 0 <= i < |cs| ==> Shows(data, b.result.txs[i].body, cs[i])
  {
    hide Starts;
    hide StartBytes;
    hide ReadHeader;
    hide ReadBlock;
    hide ReadTransactions;
    hide ShowsHeader;
    hide AllBytes;
    hide AllFit;
    hide Shows;
    hide At;
    ReadStart(data, h, |cs|, form);
    ReadTransactionsBack(data, |StartBytes(h, |cs|, form)|, cs);
  }

  /** Data that begins with a block cut short by a transaction without inputs. */
  predicate IsCutShort(data: seq<u8>, h: HeaderContent, n: nat, form: Form,
                       cs: seq<Content>, version: nat, none: Form)
  {
    && Starts(data, h, n, form) && |cs| < n
    && StopsAt(data, |StartBytes(h, n, form)|, cs, version, none)
  }

  /** The blocks that are read are exactly the written ones, within the limits and at whatever lengths' forms. */
  lemma ReadIsWritten(data: seq<u8>)
    ensures ReadBlock(data).result.AllRead? <==> exists h, form, cs :: IsBlock(data, h, form, cs)
  {
    hide IsBlock;
    if ReadBlock(data).result.AllRead? {
      var h, form, cs := BlockIsWritten(data);
    }
    forall h, form, cs | IsBlock(data, h, form, cs)
      ensures ReadBlock(data).result.AllRead?
    {
      hide ReadBlock;
      BlockRoundTrips(data, h, form, cs);
    }
  }

  lemma BlockIsWritten(data: seq<u8>) returns (h: HeaderContent, form: Form, cs: seq<Content>)
    requires ReadBlock(data).result.AllRead?
    ensures IsBlock(data, h, form, cs)
  {
    hide Starts;
    hide StartBytes;
    hide ReadBlock;
    hide ReadTransactions;
    hide AllBytes;
    hide AllFit;
    hide At;
    var n;
    h, n, form := StartIsWritten(data);
    ReadStart(data, h, n, form);
    cs := TransactionsAreWritten(data, |StartBytes(h, n, form)|, n);
  }

  /** Those that stop early are exactly the ones cut short by a transaction without inputs; all others abort. */
  lemma StoppedIsCutShort(data: seq<u8>)
    ensures ReadBlock(data).result.Stopped?
      <==> exists h, n, form, cs, version, none :: IsCutShort(data, h, n, form, cs, version, none)
  {
    if ReadBlock(data).result.Stopped? {
      var h, n, form := StartIsWritten(data);
      StopHasStart(data, h, n, form);
    }
    forall h, n, form, cs, version, none | IsCutShort(data, h, n, form, cs, version, none)
      ensures ReadBlock(data).result.Stopped?
    {
      CutShortStops(data, h, n, form, cs, version, none);
    }
  }

  lemma StopHasStart(data: seq<u8>, h: HeaderContent, n: nat, form: Form)
    requires ReadBlock(data).result.Stopped? && Starts(data, h, n, form)
    ensures exists cs, version, none :: IsCutShort(data, h, n, form, cs, version, none)
  {
    hide Starts;
    hide StartBytes;
    hide StopsAt;
    hide ReadBlock;
    hide ReadTransactions;
    ReadStart(data, h, n, form);
    var cs, version, none := StopIsWritten(data, |StartBytes(h, n, form)|, n);
    assert IsCutShort(data, h, n, form, cs, version, none);
  }

  lemma CutShortStops(data: seq<u8>, h: HeaderContent, n: nat, form: Form, cs: seq<Content>, version: nat, none: Form)
    requires IsCutShort(data, h, n, form, cs, version, none)
    ensures var r := ReadBlock(data).result;
      && r.Stopped? && |r.before| == |cs|
      && forall i :: 0 <= i < |cs| ==> Shows(data, r.before[i].body, cs[i])
  {
    hide Starts;
    hide StartBytes;
    hide StopsAt;
    hide ReadBlock;
    hide ReadTransactions;
    hide Shows;
    ReadStart(data, h, n, form);
    ReadStops(data, |StartBytes(h, n, form)|, n, cs, version, none);
  }
}
