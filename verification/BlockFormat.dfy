/**
 What the block reader of src/BlockChain.cpp makes of the bytes of a block, as functions of the bytes
 and a position.  A failed assertion, and an exit, end the program: the result is Abort.
 */
module BlockFormat {
  import opened LittleEndian
  import opened Word
  import opened Wrappers

  const MAX_BLOCK_TRANSACTION := 32768
  const MAX_BLOCK_INPUTS := 32768
  const MAX_BLOCK_OUTPUTS := 32768
  const MAX_REASONABLE_SCRIPT_LENGTH := 32768
  const MAX_REASONABLE_INPUTS := 32678
  const MAX_REASONABLE_OUTPUTS := 32768

  datatype Result<T> = Abort | Ok(pos: nat, value: T)

  /** A little-endian number of n bytes. */
  function Fixed(data: seq<u8>, pos: nat, n: nat): (r: Result<nat>)
    ensures r.Ok? ==> r.pos == pos + n <= |data|
  {
    if pos + n <= |data| then Ok(pos + n, Value(data[pos..pos + n])) else Abort
  }

  /** A hash stays where it is; its place is the value. */
  function HashAt(data: seq<u8>, pos: nat): (r: Result<nat>)
    ensures r.Ok? ==> r.pos == pos + 32 <= |data|
  {
    if pos + 32 <= |data| then Ok(pos + 32, pos) else Abort
  }

  /** A length: one byte, or two more after a byte from 0xFD on, or four more after those if they are 0xFFFF. */
  function VarInt(data: seq<u8>, pos: nat): (r: Result<nat>)
    ensures r.Ok? ==> pos < r.pos <= |data| && r.value < 0xFFFF_FFFF
  {
    var one := Fixed(data, pos, 1);
    if one.Abort? then Abort
    else if one.value < 0xFD then one
    else
      var two := Fixed(data, one.pos, 2);
      if two.Abort? then Abort
      else if two.value < 0xFFFF then two
      else
        var four := Fixed(data, two.pos, 4);
        if four.Abort? || four.value >= 0xFFFF_FFFF then Abort else four
  }

  /** Where a script is, if it is not empty. */
  datatype Script = Script(at: Option<nat>, length: nat)

  function ScriptAt(data: seq<u8>, pos: nat): (r: Result<Script>)
    ensures r.Ok? ==> pos < r.pos <= |data| && r.value.length < MAX_REASONABLE_SCRIPT_LENGTH
    ensures r.Ok? ==> r.value.at == if r.value.length == 0 then None else Some(r.pos - r.value.length)
  {
    var length := VarInt(data, pos);
    if length.Abort? || length.value >= MAX_REASONABLE_SCRIPT_LENGTH || length.pos + length.value > |data| then Abort
    else Ok(length.pos + length.value, Script(if length.value == 0 then None else Some(length.pos), length.value))
  }

  datatype Input = Input(hashAt: nat, index: nat, script: Script, sequence: nat)

  function ReadInput(data: seq<u8>, pos: nat): (r: Result<Input>)
    ensures r.Ok? ==> pos + 41 <= r.pos <= |data|
  {
    var hash := HashAt(data, pos);
    if hash.Abort? then Abort
    else
      var index := Fixed(data, hash.pos, 4);
      if index.Abort? then Abort
      else
        var script := ScriptAt(data, index.pos);
        if script.Abort? then Abort
        else
          var sequence := Fixed(data, script.pos, 4);
          if sequence.Abort? then Abort
          else Ok(sequence.pos, Input(hash.value, index.value, script.value, sequence.value))
  }

  datatype Output = Output(value: nat, script: Script)

  function ReadOutput(data: seq<u8>, pos: nat): (r: Result<Output>)
    ensures r.Ok? ==> pos + 9 <= r.pos <= |data|
  {
    var value := Fixed(data, pos, 8);
    if value.Abort? then Abort
    else
      var script := ScriptAt(data, value.pos);
      if script.Abort? then Abort else Ok(script.pos, Output(value.value, script.value))
  }

  function ReadInputs(data: seq<u8>, pos: nat, n: nat): (r: Result<seq<Input>>)
    ensures r.Ok? ==> |r.value| == n && pos + 41 * n <= r.pos
    ensures r.Ok? && pos <= |data| ==> r.pos <= |data|
  {
    if n == 0 then Ok(pos, [])
    else
      var front := ReadInputs(data, pos, n - 1);
      if front.Abort? then Abort
      else
        var last := ReadInput(data, front.pos);
        if last.Abort? then Abort else Ok(last.pos, front.value + [last.value])
  }

  function ReadOutputs(data: seq<u8>, pos: nat, n: nat): (r: Result<seq<Output>>)
    ensures r.Ok? ==> |r.value| == n && pos + 9 * n <= r.pos
    ensures r.Ok? && pos <= |data| ==> r.pos <= |data|
  {
    if n == 0 then Ok(pos, [])
    else
      var front := ReadOutputs(data, pos, n - 1);
      if front.Abort? then Abort
      else
        var last := ReadOutput(data, front.pos);
        if last.Abort? then Abort else Ok(last.pos, front.value + [last.value])
  }

  // ---------------------------------------------------------------------------------------------
  // Transactions

  datatype Body = Body(version: nat, inputs: seq<Input>, outputs: seq<Output>, lockTime: nat)

  /** A transaction without inputs is refused: the reader returns false. */
  datatype TxResult = TxAbort | Refused(at: nat, version: nat) | Accepted(pos: nat, body: Body)

  function ReadTail(data: seq<u8>, pos: nat, totalOutputs: nat, version: nat, inputs: seq<Input>): (r: TxResult)
    ensures !r.Refused?
    ensures r.Accepted? ==> pos < r.pos <= |data| && totalOutputs + |r.body.outputs| < MAX_BLOCK_OUTPUTS
    ensures r.Accepted? ==> r.body.inputs == inputs
  {
    var count := VarInt(data, pos);
    if count.Abort? || count.value >= MAX_REASONABLE_OUTPUTS || totalOutputs + count.value >= MAX_BLOCK_OUTPUTS
    then TxAbort
    else
      var outputs := ReadOutputs(data, count.pos, count.value);
      if outputs.Abort? then TxAbort
      else
        var lockTime := Fixed(data, outputs.pos, 4);
        if lockTime.Abort? then TxAbort
        else Accepted(lockTime.pos, Body(version, inputs, outputs.value, lockTime.value))
  }

  function ReadTransaction(data: seq<u8>, pos: nat, totalInputs: nat, totalOutputs: nat): (r: TxResult)
    ensures r.Accepted? ==> pos < r.pos <= |data| && r.body.inputs != []
    ensures r.Accepted? ==>
      totalInputs + |r.body.inputs| < MAX_BLOCK_INPUTS && totalOutputs + |r.body.outputs| < MAX_BLOCK_OUTPUTS
    ensures r.Refused? ==> pos < r.at <= |data|
  {
    var version := Fixed(data, pos, 4);
    if version.Abort? then TxAbort
    else
      var count := VarInt(data, version.pos);
      if count.Abort? || count.value >= MAX_REASONABLE_INPUTS || totalInputs + count.value >= MAX_BLOCK_INPUTS
      then TxAbort
      else
        var inputs := ReadInputs(data, count.pos, count.value);
        if inputs.Abort? then TxAbort
        else if count.value == 0 then Refused(inputs.pos, version.value)
        else ReadTail(data, inputs.pos, totalOutputs, version.value, inputs.value)
  }

  /** A transaction and the bytes it takes. */
  datatype Placed = Placed(begin: nat, end: nat, body: Body)

  function InputCount(txs: seq<Placed>): nat {
    if txs == [] then 0 else InputCount(txs[..|txs| - 1]) + |txs[|txs| - 1].body.inputs|
  }

  function OutputCount(txs: seq<Placed>): nat {
    if txs == [] then 0 else OutputCount(txs[..|txs| - 1]) + |txs[|txs| - 1].body.outputs|
  }

  function AllInputs(txs: seq<Placed>): (s: seq<Input>)
    ensures |s| == InputCount(txs)
  {
    if txs == [] then [] else AllInputs(txs[..|txs| - 1]) + txs[|txs| - 1].body.inputs
  }

  function AllOutputs(txs: seq<Placed>): (s: seq<Output>)
    ensures |s| == OutputCount(txs)
  {
    if txs == [] then [] else AllOutputs(txs[..|txs| - 1]) + txs[|txs| - 1].body.outputs
  }

  /** Transactions are read until one is refused. */
  datatype TxsResult = TxsAbort | Stopped(before: seq<Placed>) | AllRead(pos: nat, txs: seq<Placed>)

  function ReadTransactions(data: seq<u8>, pos: nat, n: nat): (r: TxsResult)
    ensures r.AllRead? ==> |r.txs| == n
    ensures r.AllRead? && pos <= |data| ==> pos <= r.pos <= |data|
    ensures r.Stopped? ==> |r.before| < n
  {
    if n == 0 then AllRead(pos, [])
    else
      var front := ReadTransactions(data, pos, n - 1);
      if !front.AllRead? then front
      else
        var last := ReadTransaction(data, front.pos, InputCount(front.txs), OutputCount(front.txs));
        match last
        case TxAbort => TxsAbort
        case Refused(_, _) => Stopped(front.txs)
        case Accepted(p, body) => AllRead(p, front.txs + [Placed(front.pos, p, body)])
  }

  datatype Header = Header(version: nat, previousAt: nat, merkleAt: nat, time: nat, bits: nat, nonce: nat)

  /** The eighty bytes of the header. */
  function ReadHeader(data: seq<u8>): (r: Result<Header>)
    ensures r.Ok? ==> r.pos == 80 <= |data|
  {
    if |data| < 80 then Abort
    else Ok(80, Header(Value(data[0..4]), 4, 36, Value(data[68..72]), Value(data[72..76]), Value(data[76..80])))
  }

  /** The whole block: how many transactions there are to be, where they start, and what comes of reading them. */
  datatype BlockResult = BlockResult(count: nat, start: nat, result: TxsResult)

  function ReadBlock(data: seq<u8>): BlockResult {
    var header := ReadHeader(data);
    if header.Abort? then BlockResult(0, 0, TxsAbort)
    else
      var count := VarInt(data, header.pos);
      if count.Abort? || count.value >= MAX_BLOCK_TRANSACTION then BlockResult(0, 0, TxsAbort)
      else BlockResult(count.value, count.pos, ReadTransactions(data, count.pos, count.value))
  }

  // ---------------------------------------------------------------------------------------------
  // Tiling

  /** Where the i-th transaction has to begin. */
  function EndBefore(txs: seq<Placed>, start: nat, i: nat): nat
    requires i <= |txs|
  {
    if i == 0 then start else txs[i - 1].end
  }

  /** Consecutive, gap-free and not empty, from one position to another. */
  predicate Tiles(txs: seq<Placed>, start: nat, end: nat) {
    && (forall i :: 0 <= i < |txs| ==> txs[i].begin < txs[i].end)
    && (forall i :: 0 <= i < |txs| ==> txs[i].begin == EndBefore(txs, start, i))
    && end == EndBefore(txs, start, |txs|)
  }

  /** The transactions of a block tile its bytes from the end of the count. */
  lemma {:induction false} TransactionsTile(data: seq<u8>, pos: nat, n: nat)
    requires pos <= |data| && ReadTransactions(data, pos, n).AllRead?
    ensures var r := ReadTransactions(data, pos, n);
      Tiles(r.txs, pos, r.pos) && r.pos <= |data|
    decreases n
  {
    hide ReadTransaction;
    hide Tiles;
    if n > 0 {
      var front := ReadTransactions(data, pos, n - 1);
      TransactionsTile(data, pos, n - 1);
      var last := ReadTransaction(data, front.pos, InputCount(front.txs), OutputCount(front.txs));
      OneMoreTile(front.txs, pos, front.pos, Placed(front.pos, last.pos, last.body));
    } else {
      NoTiles(pos);
    }
  }

  lemma NoTiles(start: nat)
    ensures Tiles([], start, start)
  {
  }

  lemma OneMoreTile(txs: seq<Placed>, start: nat, end: nat, t: Placed)
    requires Tiles(txs, start, end) && t.begin == end < t.end
    ensures Tiles(txs + [t], start, t.end)
  {
    var more := txs + [t];
    forall i | 0 <= i < |more| ensures more[i].begin < more[i].end && more[i].begin == EndBefore(more, start, i) {
      assert EndBefore(more, start, i) == EndBefore(txs, start, i);
    }
  }

  /** Each is read where it begins, given the entries used before it. */
  lemma {:induction false} TransactionsAreRead(data: seq<u8>, pos: nat, n: nat, i: nat)
    requires i < n && ReadTransactions(data, pos, n).AllRead?
    ensures var txs := ReadTransactions(data, pos, n).txs;
      ReadTransaction(data, txs[i].begin, InputCount(txs[..i]), OutputCount(txs[..i]))
        == Accepted(txs[i].end, txs[i].body)
    decreases n
  {
    hide ReadTransaction;
    var front := ReadTransactions(data, pos, n - 1);
    var txs := ReadTransactions(data, pos, n).txs;
    assert txs[..n - 1] == front.txs;
    if i < n - 1 {
      TransactionsAreRead(data, pos, n - 1, i);
      assert txs[..i] == front.txs[..i];
    }
  }

  /** The bytes of an input or output: its hash or value, and its script, lie between two positions. */
  predicate Bounded(script: Script, begin: nat, end: nat) {
    script.at.Some? ==> begin <= script.at.value && script.at.value + script.length <= end
  }

  lemma {:induction false} InputsLieInside(data: seq<u8>, pos: nat, n: nat)
    requires ReadInputs(data, pos, n).Ok?
    ensures var r := ReadInputs(data, pos, n);
      forall i :: 0 <= i < n ==>
        pos <= r.value[i].hashAt && r.value[i].hashAt + 32 <= r.pos && Bounded(r.value[i].script, pos, r.pos)
    decreases n
  {
    if n > 0 {
      hide ScriptAt;
      InputsLieInside(data, pos, n - 1);
    }
  }

  lemma {:induction false} OutputsLieInside(data: seq<u8>, pos: nat, n: nat)
    requires ReadOutputs(data, pos, n).Ok?
    ensures var r := ReadOutputs(data, pos, n);
      forall i :: 0 <= i < n ==> Bounded(r.value[i].script, pos, r.pos)
    decreases n
  {
    if n > 0 {
      hide ScriptAt;
      OutputsLieInside(data, pos, n - 1);
    }
  }

  /** Whatever a transaction refers to is inside its own bytes. */
  lemma TransactionLiesInside(data: seq<u8>, pos: nat, totalInputs: nat, totalOutputs: nat)
    requires ReadTransaction(data, pos, totalInputs, totalOutputs).Accepted?
    ensures var r := ReadTransaction(data, pos, totalInputs, totalOutputs);
      && (forall i :: 0 <= i < |r.body.inputs| ==>
            pos <= r.body.inputs[i].hashAt && r.body.inputs[i].hashAt + 32 <= r.pos
              && Bounded(r.body.inputs[i].script, pos, r.pos))
      && (forall i :: 0 <= i < |r.body.outputs| ==> Bounded(r.body.outputs[i].script, pos, r.pos))
  {
    hide ReadInputs;
    hide ReadOutputs;
    hide VarInt;
    var version := Fixed(data, pos, 4);
    var count := VarInt(data, version.pos);
    var inputs := ReadInputs(data, count.pos, count.value);
    InputsLieInside(data, count.pos, count.value);
    var outCount := VarInt(data, inputs.pos);
    OutputsLieInside(data, outCount.pos, outCount.value);
  }

  // ---------------------------------------------------------------------------------------------
  // The shared arrays

  lemma {:induction false} CountsGrow(txs: seq<Placed>, i: nat)
    requires i < |txs|
    ensures InputCount(txs[..i + 1]) == InputCount(txs[..i]) + |txs[i].body.inputs| <= InputCount(txs)
    ensures OutputCount(txs[..i + 1]) == OutputCount(txs[..i]) + |txs[i].body.outputs| <= OutputCount(txs)
    decreases |txs| - i
  {
    assert txs[..i + 1][..i] == txs[..i];
    if i + 1 < |txs| {
      CountsGrow(txs, i + 1);
    } else {
      assert txs[..i + 1] == txs;
    }
  }

  /** The inputs of the transactions follow each other in the common array, each one's where its count starts. */
  lemma {:induction false} InputsPartition(txs: seq<Placed>, i: nat)
    requires i < |txs|
    ensures InputCount(txs[..i + 1]) == InputCount(txs[..i]) + |txs[i].body.inputs| <= InputCount(txs)
    ensures AllInputs(txs)[InputCount(txs[..i])..InputCount(txs[..i + 1])] == txs[i].body.inputs
    decreases |txs|
  {
    CountsGrow(txs, i);
    var front := txs[..|txs| - 1];
    if i == |txs| - 1 {
      assert txs[..i + 1] == txs;
    } else {
      InputsPartition(front, i);
      assert front[..i] == txs[..i] && front[..i + 1] == txs[..i + 1];
      CountsGrow(front, i);
    }
  }

  lemma {:induction false} OutputsPartition(txs: seq<Placed>, i: nat)
    requires i < |txs|
    ensures OutputCount(txs[..i + 1]) == OutputCount(txs[..i]) + |txs[i].body.outputs| <= OutputCount(txs)
    ensures AllOutputs(txs)[OutputCount(txs[..i])..OutputCount(txs[..i + 1])] == txs[i].body.outputs
    decreases |txs|
  {
    CountsGrow(txs, i);
    var front := txs[..|txs| - 1];
    if i == |txs| - 1 {
      assert txs[..i + 1] == txs;
    } else {
      OutputsPartition(front, i);
      assert front[..i] == txs[..i] && front[..i + 1] == txs[..i + 1];
      CountsGrow(front, i);
    }
  }

  /** The arrays never overflow. */
  lemma {:induction false} TotalsAreBounded(data: seq<u8>, pos: nat, n: nat)
    requires ReadTransactions(data, pos, n).AllRead?
    ensures var txs := ReadTransactions(data, pos, n).txs;
      InputCount(txs) < MAX_BLOCK_INPUTS && OutputCount(txs) < MAX_BLOCK_OUTPUTS
    decreases n
  {
    hide ReadTransaction;
    if n > 0 {
      TotalsAreBounded(data, pos, n - 1);
      var txs := ReadTransactions(data, pos, n).txs;
      assert txs[..n - 1] == ReadTransactions(data, pos, n - 1).txs;
    }
  }

  /** The values of outputs, added up without a bound. */
  function SumOfValues(outputs: seq<Output>): nat {
    if outputs == [] then 0 else SumOfValues(outputs[..|outputs| - 1]) + outputs[|outputs| - 1].value
  }

  lemma {:induction false} SumConcat(a: seq<Output>, b: seq<Output>)
    ensures SumOfValues(a + b) == SumOfValues(a) + SumOfValues(b)
    decreases |b|
  {
    if b == [] {
      assert a + b == a;
    } else {
      assert (a + b)[..|a + b| - 1] == a + b[..|b| - 1];
      SumConcat(a, b[..|b| - 1]);
    }
  }

  /** A reward with the values of outputs added, in 64 bits. */
  function Reward(start: nat, outputs: seq<Output>): nat {
    (start + SumOfValues(outputs)) % TWO_TO_THE_64
  }

  lemma RewardOfNone(start: nat)
    requires start < TWO_TO_THE_64
    ensures Reward(start, []) == start
  {
  }

  lemma RewardNext(start: nat, outputs: seq<Output>, output: Output)
    ensures Reward(start, outputs + [output]) == (Reward(start, outputs) + output.value) % TWO_TO_THE_64
  {
    assert (outputs + [output])[..|outputs|] == outputs;
    AddWrapped(start + SumOfValues(outputs), output.value);
  }

  lemma RewardConcat(start: nat, a: seq<Output>, b: seq<Output>)
    ensures Reward(start, a + b) == Reward(Reward(start, a), b)
  {
    SumConcat(a, b);
    AddWrapped(start + SumOfValues(a), SumOfValues(b));
  }
}
