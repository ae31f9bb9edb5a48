/**
 The block reader of src/BlockChain.cpp as it runs: a cursor over the bytes, fixed arrays shared by the
 transactions of a block, and running totals.
 */
module BlockReader {
  import opened LittleEndian
  import opened Word
  import opened Wrappers
  import opened BlockFormat

  /** A transaction as callers see it: its entries are slices of the common arrays. */
  datatype Transaction = Transaction(
    version: nat,
    inputCount: nat,
    inputs: nat,
    outputCount: nat,
    outputs: nat,
    lockTime: nat,
    length: nat,
    fileIndex: nat,
    fileOffset: nat,
    transactionIndex: nat,
    hash: nat)

  const NO_INPUT := Input(0, 0, Script(None, 0), 0)

  const NO_OUTPUT := Output(0, Script(None, 0))

  /** What is left in 32 bits. */
  function Low32(x: nat): nat {
    x % TWO_TO_THE_32
  }

  class BlockImpl {
    const mBlockData: seq<u8>
    const fileIndex: nat
    const fileOffset: nat
    /** The double SHA-256 of some bytes, as a number. */
    const doubleHash: seq<u8> -> nat
    var mBlockRead: nat
    /** An assertion has failed or the program has exited. */
    var aborted: bool
    var totalInputCount: nat
    var totalOutputCount: nat
    var blockReward: nat
    var transactionCount: nat
    var header: Header
    const mInputs: array<Input>
    const mOutputs: array<Output>
    const mTransactions: array<Transaction>

    ghost predicate Valid()
      reads this
    {
      && mInputs.Length == MAX_BLOCK_INPUTS && mOutputs.Length == MAX_BLOCK_OUTPUTS
      && mTransactions.Length == MAX_BLOCK_TRANSACTION && mBlockRead <= |mBlockData| && blockReward < TWO_TO_THE_64
    }

    constructor (data: seq<u8>, fileIndex: nat, fileOffset: nat, doubleHash: seq<u8> -> nat)
      ensures Valid() && !aborted && mBlockRead == 0 && mBlockData == data
      ensures totalInputCount == totalOutputCount == blockReward == 0
      ensures this.fileIndex == fileIndex && this.fileOffset == fileOffset && this.doubleHash == doubleHash
      ensures fresh(mInputs) && fresh(mOutputs) && fresh(mTransactions)
    {
      mBlockData, this.fileIndex, this.fileOffset, this.doubleHash := data, fileIndex, fileOffset, doubleHash;
      mBlockRead, aborted := 0, false;
      totalInputCount, totalOutputCount, blockReward, transactionCount := 0, 0, 0, 0;
      header := Header(0, 0, 0, 0, 0, 0);
      mInputs := new Input[MAX_BLOCK_INPUTS](i => NO_INPUT);
      mOutputs := new Output[MAX_BLOCK_OUTPUTS](i => NO_OUTPUT);
      mTransactions := new Transaction[MAX_BLOCK_TRANSACTION](i => Transaction(0, 0, 0, 0, 0, 0, 0, 0, 0, 0, 0));
    }

    /** The reader is where a reading function ends, or the program has ended. */
    predicate Now<T(==)>(r: Result<T>, value: T)
      reads this
    {
      if r.Abort? then aborted else !aborted && mBlockRead == r.pos && value == r.value
    }

    // -------------------------------------------------------------------------------------------
    // Small things

    method ReadNumber(n: nat) returns (value: nat)
      requires Valid() && !aborted
      modifies this`mBlockRead, this`aborted
      ensures Valid() && Now(Fixed(mBlockData, old(mBlockRead), n), value)
    {
      if mBlockRead + n > |mBlockData| {
        aborted := true;
        return 0;
      }
      value := Value(mBlockData[mBlockRead..mBlockRead + n]);
      mBlockRead := mBlockRead + n;
    }

    method ReadHash() returns (at: nat)
      requires Valid() && !aborted
      modifies this`mBlockRead, this`aborted
      ensures Valid() && Now(HashAt(mBlockData, old(mBlockRead)), at)
    {
      at := mBlockRead;
      if mBlockRead + 32 > |mBlockData| {
        aborted := true;
        return;
      }
      mBlockRead := mBlockRead + 32;
    }

    method ReadVariableLengthInteger() returns (ret: nat)
      requires Valid() && !aborted
      modifies this`mBlockRead, this`aborted
      ensures Valid() && Now(VarInt(mBlockData, old(mBlockRead)), ret)
    {
      hide Fixed;
      ret := ReadNumber(1);
      if aborted || ret < 0xFD {
        return;
      }
      ret := ReadNumber(2);
      if aborted || ret < 0xFFFF {
        return;
      }
      ret := ReadNumber(4);
      if aborted || ret < 0xFFFF_FFFF {
        return;
      }
      aborted := true;
    }

    /** A length and the script after it. */
    method ReadScript() returns (script: Script)
      requires Valid() && !aborted
      modifies this`mBlockRead, this`aborted
      ensures Valid() && Now(ScriptAt(mBlockData, old(mBlockRead)), script)
    {
      hide VarInt;
      var length := ReadVariableLengthInteger();
      script := Script(None, length);
      if aborted || length >= MAX_REASONABLE_SCRIPT_LENGTH {
        aborted := true;
        return;
      }
      if length != 0 {
        script := Script(Some(mBlockRead), length);
        if mBlockRead + length > |mBlockData| {
          aborted := true;
          return;
        }
        mBlockRead := mBlockRead + length;
      }
    }

    method ReadInputHere() returns (input: Input)
      requires Valid() && !aborted
      modifies this`mBlockRead, this`aborted
      ensures Valid() && Now(ReadInput(mBlockData, old(mBlockRead)), input)
    {
      hide Fixed;
      hide HashAt;
      hide ScriptAt;
      input := NO_INPUT;
      var hash := ReadHash();
      if aborted {
        return;
      }
      var index := ReadNumber(4);
      if aborted {
        return;
      }
      var script := ReadScript();
      if aborted {
        return;
      }
      var sequence := ReadNumber(4);
      input := Input(hash, index, script, sequence);
    }

    /** Reads an output and adds its value to the reward, in 64 bits. */
    method ReadOutputHere() returns (output: Output)
      requires Valid() && !aborted
      modifies this`mBlockRead, this`aborted, this`blockReward
      ensures Valid() && Now(ReadOutput(mBlockData, old(mBlockRead)), output)
      ensures !aborted ==> blockReward == (old(blockReward) + output.value) % TWO_TO_THE_64
    {
      hide Fixed;
      hide ScriptAt;
      output := NO_OUTPUT;
      var value := ReadNumber(8);
      if aborted {
        return;
      }
      blockReward := (blockReward + value) % TWO_TO_THE_64;
      var script := ReadScript();
      output := Output(value, script);
    }

    // -------------------------------------------------------------------------------------------
    // The entries of one transaction

    /** Stores n inputs from a place in the common array on. */
    method ReadAllInputs(first: nat, n: nat)
      requires Valid() && !aborted && first + n < MAX_BLOCK_INPUTS
      modifies this`mBlockRead, this`aborted, mInputs
      ensures Valid() && var r := ReadInputs(mBlockData, old(mBlockRead), n);
        && (r.Abort? <==> aborted)
        && (r.Ok? ==> mBlockRead == r.pos && forall k :: 0 <= k < n ==> mInputs[first + k] == r.value[k])
      ensures forall k :: 0 <= k < first ==> mInputs[k] == old(mInputs[k])
    {
      hide ReadInput;
      ghost var start := mBlockRead;
      var i := 0;
      while i < n
        invariant 0 <= i <= n && Valid() && !aborted
        invariant var r := ReadInputs(mBlockData, start, i);
          r.Ok? && mBlockRead == r.pos && forall k :: 0 <= k < i ==> mInputs[first + k] == r.value[k]
        invariant forall k :: 0 <= k < first ==> mInputs[k] == old(mInputs[k])
      {
        var input := ReadInputHere();
        if aborted {
          InputsAbort(mBlockData, start, i + 1, n);
          return;
        }
        mInputs[first + i] := input;
        i := i + 1;
      }
    }

    method ReadAllOutputs(first: nat, n: nat)
      requires Valid() && !aborted && first + n < MAX_BLOCK_OUTPUTS
      modifies this`mBlockRead, this`aborted, this`blockReward, mOutputs
      ensures Valid() && var r := ReadOutputs(mBlockData, old(mBlockRead), n);
        && (r.Abort? <==> aborted)
        && (r.Ok? ==>
              && mBlockRead == r.pos && blockReward == Reward(old(blockReward), r.value)
              && forall k :: 0 <= k < n ==> mOutputs[first + k] == r.value[k])
      ensures forall k :: 0 <= k < first ==> mOutputs[k] == old(mOutputs[k])
    {
      hide ReadOutput;
      hide Reward;
      ghost var start := mBlockRead;
      var i := 0;
      RewardOfNone(blockReward);
      while i < n
        invariant 0 <= i <= n && Valid() && !aborted
        invariant var r := ReadOutputs(mBlockData, start, i);
          && r.Ok? && mBlockRead == r.pos && blockReward == Reward(old(blockReward), r.value)
          && forall k :: 0 <= k < i ==> mOutputs[first + k] == r.value[k]
        invariant forall k :: 0 <= k < first ==> mOutputs[k] == old(mOutputs[k])
      {
        var output := ReadOutputHere();
        if aborted {
          OutputsAbort(mBlockData, start, i + 1, n);
          return;
        }
        ghost var before := ReadOutputs(mBlockData, start, i).value;
        RewardNext(old(blockReward), before, output);
        mOutputs[first + i] := output;
        i := i + 1;
      }
    }

    // -------------------------------------------------------------------------------------------
    // Transactions

    /** What the record of a transaction has to say. */
    function Record(t: Placed, inputs: nat, outputs: nat, index: nat): Transaction
      requires t.begin <= t.end <= |mBlockData|
    {
      Transaction(t.body.version, |t.body.inputs|, inputs, |t.body.outputs|, outputs, t.body.lockTime,
                  t.end - t.begin, fileIndex, Low32(fileOffset + t.begin), index,
                    doubleHash(mBlockData[t.begin..t.end]))
    }

    /** Reads the inputs of a transaction behind those already in the common array. */
    method TakeInputs() returns (inputCount: nat)
      requires Valid() && !aborted && totalInputCount < MAX_BLOCK_INPUTS
      modifies this`mBlockRead, this`aborted, this`totalInputCount, mInputs
      ensures Valid()
      ensures var count := VarInt(mBlockData, old(mBlockRead));
        if count.Abort? || count.value >= MAX_REASONABLE_INPUTS
          || old(totalInputCount) + count.value >= MAX_BLOCK_INPUTS
        then aborted
        else
          var r := ReadInputs(mBlockData, count.pos, count.value);
          && (r.Abort? <==> aborted)
          && (r.Ok? ==>
                && inputCount == count.value && mBlockRead == r.pos
                && totalInputCount == old(totalInputCount) + inputCount
                && totalInputCount < MAX_BLOCK_INPUTS
                && forall k :: 0 <= k < inputCount ==> mInputs[old(totalInputCount) + k] == r.value[k])
      ensures forall k :: 0 <= k < old(totalInputCount) ==> mInputs[k] == old(mInputs[k])
    {
      hide VarInt;
      hide ReadInputs;
      inputCount := ReadVariableLengthInteger();
      if aborted || inputCount >= MAX_REASONABLE_INPUTS {
        aborted := true;
        return;
      }
      var inputs := totalInputCount;
      totalInputCount := totalInputCount + inputCount;
      if totalInputCount >= MAX_BLOCK_INPUTS {
        aborted := true;
        return;
      }
      ReadAllInputs(inputs, inputCount);
    }

    method TakeOutputs() returns (outputCount: nat)
      requires Valid() && !aborted && totalOutputCount < MAX_BLOCK_OUTPUTS
      modifies this`mBlockRead, this`aborted, this`totalOutputCount, this`blockReward, mOutputs
      ensures Valid()
      ensures var count := VarInt(mBlockData, old(mBlockRead));
        if count.Abort? || count.value >= MAX_REASONABLE_OUTPUTS
          || old(totalOutputCount) + count.value >= MAX_BLOCK_OUTPUTS
        then aborted
        else
          var r := ReadOutputs(mBlockData, count.pos, count.value);
          && (r.Abort? <==> aborted)
          && (r.Ok? ==>
                && outputCount == count.value && mBlockRead == r.pos
                && totalOutputCount == old(totalOutputCount) + outputCount
                && totalOutputCount < MAX_BLOCK_OUTPUTS
                && blockReward == Reward(old(blockReward), r.value)
                && forall k :: 0 <= k < outputCount ==> mOutputs[old(totalOutputCount) + k] == r.value[k])
      ensures forall k :: 0 <= k < old(totalOutputCount) ==> mOutputs[k] == old(mOutputs[k])
    {
      hide VarInt;
      hide ReadOutputs;
      hide Reward;
      outputCount := ReadVariableLengthInteger();
      if aborted || outputCount >= MAX_REASONABLE_OUTPUTS {
        aborted := true;
        return;
      }
      var outputs := totalOutputCount;
      totalOutputCount := totalOutputCount + outputCount;
      if totalOutputCount >= MAX_BLOCK_OUTPUTS {
        aborted := true;
        return;
      }
      ReadAllOutputs(outputs, outputCount);
    }

    /** Reads one transaction into a slot; false if it has no inputs. */
    method ReadTransactionHere(slot: nat, transactionIndex: nat) returns (ret: bool, nextIndex: nat)
      requires Valid() && !aborted && slot < MAX_BLOCK_TRANSACTION
      requires totalInputCount < MAX_BLOCK_INPUTS && totalOutputCount < MAX_BLOCK_OUTPUTS
      modifies this`mBlockRead, this`aborted, this`totalInputCount, this`totalOutputCount, this`blockReward,
               mInputs, mOutputs, mTransactions
      ensures Valid()
      ensures var r := ReadTransaction(mBlockData, old(mBlockRead), old(totalInputCount), old(totalOutputCount));
        && (r.TxAbort? <==> aborted)
        && (!aborted ==>
              (ret <==> r.Accepted?) && totalInputCount < MAX_BLOCK_INPUTS && totalOutputCount < MAX_BLOCK_OUTPUTS)
        && (r.Accepted? ==>
              && mBlockRead == r.pos && nextIndex == Low32(transactionIndex + 1)
              && totalInputCount == old(totalInputCount) + |r.body.inputs|
              && totalOutputCount == old(totalOutputCount) + |r.body.outputs|
              && blockReward == Reward(old(blockReward), r.body.outputs)
              && (forall k :: 0 <= k < |r.body.inputs| ==> mInputs[old(totalInputCount) + k] == r.body.inputs[k])
              && (forall k :: 0 <= k < |r.body.outputs| ==> mOutputs[old(totalOutputCount) + k] == r.body.outputs[k])
              && mTransactions[slot] ==
                   Record(Placed(old(mBlockRead), r.pos, r.body), old(totalInputCount), old(totalOutputCount),
                     transactionIndex))
      ensures forall k :: 0 <= k < old(totalInputCount) ==> mInputs[k] == old(mInputs[k])
      ensures forall k :: 0 <= k < old(totalOutputCount) ==> mOutputs[k] == old(mOutputs[k])
      ensures forall k :: 0 <= k < slot ==> mTransactions[k] == old(mTransactions[k])
    {
      hide VarInt;
      hide ReadInputs;
      hide ReadOutputs;
      hide Reward;
      hide Fixed;
      ret, nextIndex := false, transactionIndex;
      var begin := mBlockRead;
      var version := ReadNumber(4);
      if aborted {
        return;
      }
      var inputs := totalInputCount;
      var inputCount := TakeInputs();
      if aborted {
        return;
      }
      ret := inputCount > 0;
      if ret {
        var outputs := totalOutputCount;
        var outputCount := TakeOutputs();
        if aborted {
          return;
        }
        var lockTime := ReadNumber(4);
        if aborted {
          return;
        }
        mTransactions[slot] := Transaction(version, inputCount, inputs, outputCount, outputs, lockTime,
                                           mBlockRead - begin, fileIndex, Low32(fileOffset + begin), transactionIndex,
                                           doubleHash(mBlockData[begin..mBlockRead]));
        nextIndex := Low32(transactionIndex + 1);
      }
    }

    // -------------------------------------------------------------------------------------------
    // Blocks

    /** The record of the i-th of some transactions. */
    function RecordOf(txs: seq<Placed>, i: nat, firstIndex: nat): Transaction
      requires i < |txs| && txs[i].begin <= txs[i].end <= |mBlockData|
    {
      Record(txs[i], InputCount(txs[..i]), OutputCount(txs[..i]), Low32(firstIndex + i))
    }

    predicate InsideData(txs: seq<Placed>) {
      forall i :: 0 <= i < |txs| ==> txs[i].begin <= txs[i].end <= |mBlockData|
    }

    /** The used parts of the arrays and the reward are what some transactions say. */
    ghost predicate Agree(txs: seq<Placed>, inputs: seq<Input>, outputs: seq<Output>, records: seq<Transaction>,
                          reward: nat, firstIndex: nat) {
      && InsideData(txs)
      && inputs == AllInputs(txs) && outputs == AllOutputs(txs)
      && reward == Reward(0, outputs)
      && |records| == |txs| && forall i :: 0 <= i < |txs| ==> records[i] == RecordOf(txs, i, firstIndex)
    }

    lemma RecordStays(txs: seq<Placed>, t: Placed, i: nat, firstIndex: nat)
      requires i < |txs| && txs[i].begin <= txs[i].end <= |mBlockData|
      ensures RecordOf(txs + [t], i, firstIndex) == RecordOf(txs, i, firstIndex)
    {
      hide Record;
      assert (txs + [t])[..i] == txs[..i];
    }

    lemma RecordOfLast(txs: seq<Placed>, t: Placed, firstIndex: nat)
      requires t.begin <= t.end <= |mBlockData|
      ensures RecordOf(txs + [t], |txs|, firstIndex)
        == Record(t, InputCount(txs), OutputCount(txs), Low32(firstIndex + |txs|))
    {
      hide Record;
      assert (txs + [t])[..|txs|] == txs;
    }

    lemma AgreeMore(txs: seq<Placed>, inputs: seq<Input>, outputs: seq<Output>, records: seq<Transaction>,
                    reward: nat, firstIndex: nat, t: Placed, newReward: nat)
      requires Agree(txs, inputs, outputs, records, reward, firstIndex) && t.begin <= t.end <= |mBlockData|
      requires newReward == Reward(reward, t.body.outputs)
      ensures InsideData(txs + [t])
      ensures Agree(txs + [t], inputs + t.body.inputs, outputs + t.body.outputs,
                    records + [Record(t, |inputs|, |outputs|, Low32(firstIndex + |txs|))], newReward, firstIndex)
    {
      hide Reward;
      hide Record;
      hide RecordOf;
      hide InputCount;
      hide OutputCount;
      var more := txs + [t];
      assert more[..|txs|] == txs;
      RewardConcat(0, outputs, t.body.outputs);
      RecordOfLast(txs, t, firstIndex);
      forall i | 0 <= i < |txs| ensures RecordOf(more, i, firstIndex) == RecordOf(txs, i, firstIndex) {
        RecordStays(txs, t, i, firstIndex);
      }
    }

    /** The reader's own fields agree with some transactions. */
    ghost predicate Holds(txs: seq<Placed>, firstIndex: nat)
      reads this, mInputs, mOutputs, mTransactions
    {
      && Valid() && |txs| <= MAX_BLOCK_TRANSACTION
      && totalInputCount < MAX_BLOCK_INPUTS && totalOutputCount < MAX_BLOCK_OUTPUTS
      && Agree(txs, mInputs[..totalInputCount], mOutputs[..totalOutputCount], mTransactions[..|txs|], blockReward,
        firstIndex)
    }

    /** One record begins in the file and in the arrays where the one before it ends. */
    predicate Follows(a: Transaction, b: Transaction) {
      && b.fileOffset == Low32(a.fileOffset + a.length)
      && b.inputs == a.inputs + a.inputCount && b.outputs == a.outputs + a.outputCount
      && b.transactionIndex == Low32(a.transactionIndex + 1)
    }

    /** The records cover the bytes between two places, and so many inputs and outputs, without gaps. */
    predicate RecordsTile(records: seq<Transaction>, start: nat, end: nat, inputs: nat, outputs: nat) {
      if records == [] then start == end && inputs == outputs == 0
      else
        && Starts(records[0], start) && Ends(records[|records| - 1], end, inputs, outputs)
        && forall i :: 0 <= i < |records| - 1 ==> Follows(records[i], records[i + 1])
    }

    predicate Starts(r: Transaction, begin: nat) {
      r.fileOffset == Low32(fileOffset + begin) && r.inputs == r.outputs == 0
    }

    predicate Ends(r: Transaction, end: nat, inputs: nat, outputs: nat) {
      && Low32(r.fileOffset + r.length) == Low32(fileOffset + end)
      && r.inputs + r.inputCount == inputs && r.outputs + r.outputCount == outputs
    }

    lemma RecordEnds(txs: seq<Placed>, firstIndex: nat, i: nat)
      requires i < |txs| && txs[i].begin <= txs[i].end <= |mBlockData|
      ensures Ends(RecordOf(txs, i, firstIndex), txs[i].end, InputCount(txs[..i + 1]), OutputCount(txs[..i + 1]))
    {
      hide Low32;
      CountsGrow(txs, i);
      OffsetAdds(fileOffset, txs[i].begin, txs[i].end);
    }

    lemma RecordStarts(txs: seq<Placed>, firstIndex: nat, i: nat)
      requires i < |txs| && txs[i].begin <= txs[i].end <= |mBlockData|
      ensures var r := RecordOf(txs, i, firstIndex);
        && r.inputs == InputCount(txs[..i]) && r.outputs == OutputCount(txs[..i])
        && r.fileOffset == Low32(fileOffset + txs[i].begin)
        && r.transactionIndex == Low32(firstIndex + i)
    {
      hide Low32;
      hide InputCount;
      hide OutputCount;
    }

    lemma RecordFollows(txs: seq<Placed>, start: nat, end: nat, firstIndex: nat, i: nat)
      requires InsideData(txs) && Tiles(txs, start, end) && i + 1 < |txs|
      ensures Follows(RecordOf(txs, i, firstIndex), RecordOf(txs, i + 1, firstIndex))
    {
      hide Low32;
      hide RecordOf;
      hide InputCount;
      hide OutputCount;
      hide Record;
      RecordEnds(txs, firstIndex, i);
      RecordStarts(txs, firstIndex, i);
      RecordStarts(txs, firstIndex, i + 1);
      NextIndex(firstIndex, i);
      assert txs[i + 1].begin == EndBefore(txs, start, i + 1);
    }

    lemma {:induction false} RecordsOfTile(txs: seq<Placed>, records: seq<Transaction>, start: nat, end: nat,
      firstIndex: nat)
      requires InsideData(txs) && Tiles(txs, start, end) && |records| == |txs|
      requires forall i :: 0 <= i < |txs| ==> records[i] == RecordOf(txs, i, firstIndex)
      ensures RecordsTile(records, start, end, InputCount(txs), OutputCount(txs))
    {
      hide RecordOf;
      hide Follows;
      hide Ends;
      hide Low32;
      hide InputCount;
      hide OutputCount;
      hide Tiles;
      TileEnds(txs, start, end);
      if txs == [] {
        NothingCounted();
      } else {
        RecordStarts(txs, firstIndex, 0);
        NothingCounted();
        RecordEnds(txs, firstIndex, |txs| - 1);
        assert txs[..|txs|] == txs && txs[..0] == [];
        forall i | 0 <= i < |records| - 1 ensures Follows(records[i], records[i + 1]) {
          RecordFollows(txs, start, end, firstIndex, i);
        }
      }
    }

    /** What the fields hold after a block that has been read: its records tile it. */
    lemma HeldRecordsTile(txs: seq<Placed>, start: nat, firstIndex: nat)
      requires Holds(txs, firstIndex) && Tiles(txs, start, mBlockRead)
      ensures RecordsTile(mTransactions[..|txs|], start, mBlockRead, totalInputCount, totalOutputCount)
    {
      hide RecordOf;
      hide RecordsTile;
      hide Tiles;
      CountsAgree(txs, mInputs[..totalInputCount], mOutputs[..totalOutputCount], mTransactions[..|txs|], blockReward,
        firstIndex);
      RecordsOfTile(txs, mTransactions[..|txs|], start, mBlockRead, firstIndex);
    }

    method ReadHeaderHere()
      requires Valid() && !aborted && mBlockRead == 0
      modifies this`mBlockRead, this`aborted, this`header
      ensures Valid() && Now(BlockFormat.ReadHeader(mBlockData), header)
    {
      var version := ReadNumber(4);
      if aborted { return; }
      var previous := ReadHash();
      if aborted { return; }
      var merkle := ReadHash();
      if aborted { return; }
      var time := ReadNumber(4);
      if aborted { return; }
      var bits := ReadNumber(4);
      if aborted { return; }
      var nonce := ReadNumber(4);
      header := Header(version, previous, merkle, time, bits, nonce);
    }

    /** One round of the loop over the transactions. */
    method ReadNextTransaction(i: nat, transactionIndex: nat, ghost start: nat, ghost firstIndex: nat)
      returns (ret: bool, nextIndex: nat)
      requires Valid() && !aborted && i < MAX_BLOCK_TRANSACTION && transactionIndex == Low32(firstIndex + i)
      requires var r := ReadTransactions(mBlockData, start, i);
        r.AllRead? && mBlockRead == r.pos && Holds(r.txs, firstIndex)
      modifies this`mBlockRead, this`aborted, this`totalInputCount, this`totalOutputCount, this`blockReward,
               mInputs, mOutputs, mTransactions
      ensures Valid()
      ensures var r := ReadTransactions(mBlockData, start, i + 1);
        && (r.TxsAbort? <==> aborted)
        && (!aborted ==> (ret <==> r.AllRead?))
        && (r.AllRead? ==> mBlockRead == r.pos && nextIndex == Low32(firstIndex + (i + 1)) && Holds(r.txs, firstIndex))
    {
      hide Low32;
      hide ReadTransaction;
      hide Agree;
      hide Reward;
      hide InputCount;
      hide OutputCount;
      ghost var front := ReadTransactions(mBlockData, start, i);
      ghost var inputs, outputs := mInputs[..totalInputCount], mOutputs[..totalOutputCount];
      ghost var records, reward := mTransactions[..i], blockReward;
      CountsAgree(front.txs, inputs, outputs, records, reward, firstIndex);
      ghost var last := ReadTransaction(mBlockData, mBlockRead, totalInputCount, totalOutputCount);
      ret, nextIndex := ReadTransactionHere(i, transactionIndex);
      if aborted || !ret {
        return;
      }
      ghost var t := Placed(front.pos, last.pos, last.body);
      AgreeMore(front.txs, inputs, outputs, records, reward, firstIndex, t, blockReward);
      assert mInputs[..totalInputCount] == inputs + t.body.inputs;
      assert mOutputs[..totalOutputCount] == outputs + t.body.outputs;
      assert mTransactions[..i + 1] == records + [mTransactions[i]];
      NextIndex(firstIndex, i);
    }

    method ReadAllTransactions(firstIndex: nat) returns (ret: bool, transactionIndex: nat)
      requires Valid() && !aborted && transactionCount < MAX_BLOCK_TRANSACTION && firstIndex < TWO_TO_THE_32
      requires totalInputCount == totalOutputCount == blockReward == 0
      modifies this`mBlockRead, this`aborted, this`totalInputCount, this`totalOutputCount, this`blockReward,
               mInputs, mOutputs, mTransactions
      ensures Valid()
      ensures var r := ReadTransactions(mBlockData, old(mBlockRead), transactionCount);
        && (r.TxsAbort? <==> aborted)
        && (!aborted ==> (ret <==> r.AllRead?))
        && (r.AllRead? ==>
              && transactionIndex == Low32(firstIndex + transactionCount) && mBlockRead == r.pos
              && Holds(r.txs, firstIndex))
    {
      hide *;
      SmallStays(firstIndex);
      ret, transactionIndex := true, firstIndex;
      ghost var start := mBlockRead;
      var i := 0;
      HoldsNothing(start, firstIndex);
      while i < transactionCount
        invariant 0 <= i <= transactionCount && Valid() && !aborted && ret
        invariant transactionIndex == Low32(firstIndex + i)
        invariant var r := ReadTransactions(mBlockData, start, i);
          r.AllRead? && mBlockRead == r.pos && Holds(r.txs, firstIndex)
      {
        ret, transactionIndex := ReadNextTransaction(i, transactionIndex, start, firstIndex);
        if aborted || !ret {
          EndsEarly(mBlockData, start, i + 1, transactionCount);
          return;
        }
        i := i + 1;
      }
    }

    lemma HoldsNothing(pos: nat, firstIndex: nat)
      requires Valid() && totalInputCount == totalOutputCount == blockReward == 0
      ensures ReadTransactions(mBlockData, pos, 0) == AllRead(pos, []) && Holds([], firstIndex)
    {
      NothingAgrees(firstIndex);
      assert mInputs[..0] == [] && mOutputs[..0] == [] && mTransactions[..0] == [];
    }

    lemma NothingAgrees(firstIndex: nat)
      ensures Agree([], [], [], [], 0, firstIndex)
    {
    }

    lemma CountsAgree(txs: seq<Placed>, inputs: seq<Input>, outputs: seq<Output>, records: seq<Transaction>,
                      reward: nat, firstIndex: nat)
      requires Agree(txs, inputs, outputs, records, reward, firstIndex)
      ensures |inputs| == InputCount(txs) && |outputs| == OutputCount(txs)
    {
    }

    /** Reads a block from zeroed totals; a transaction without inputs ends the reading with false. */
    method ProcessBlockData(firstIndex: nat) returns (ret: bool, transactionIndex: nat)
      requires Valid() && !aborted && mBlockRead == 0 && firstIndex < TWO_TO_THE_32
      requires totalInputCount == totalOutputCount == blockReward == 0
      modifies this, mInputs, mOutputs, mTransactions
      ensures Valid()
      ensures var b := ReadBlock(mBlockData);
        && (b.result.TxsAbort? <==> aborted)
        && (!aborted ==> (ret <==> b.result.AllRead?) && transactionCount == b.count
                         && BlockFormat.ReadHeader(mBlockData) == Ok(80, header))
        && (b.result.AllRead? ==>
              && transactionIndex == Low32(firstIndex + b.count)
              && mBlockRead == b.result.pos && Holds(b.result.txs, firstIndex)
              && RecordsTile(mTransactions[..b.count], b.start, mBlockRead, totalInputCount, totalOutputCount))
    {
      hide Holds;
      hide VarInt;
      hide BlockFormat.ReadHeader;
      hide ReadTransactions;
      ret, transactionIndex := true, firstIndex;
      ReadHeaderHere();
      if aborted {
        return;
      }
      transactionCount := ReadVariableLengthInteger();
      if aborted || transactionCount >= MAX_BLOCK_TRANSACTION {
        aborted := true;
        return;
      }
      ghost var start := mBlockRead;
      ret, transactionIndex := ReadAllTransactions(firstIndex);
      if !aborted && ret {
        TransactionsTile(mBlockData, start, transactionCount);
        HeldRecordsTile(ReadTransactions(mBlockData, start, transactionCount).txs, start, firstIndex);
      }
    }
  }

  lemma SmallStays(x: nat)
    requires x < TWO_TO_THE_32
    ensures Low32(x) == x
  {
  }

  lemma TileEnds(txs: seq<Placed>, start: nat, end: nat)
    requires Tiles(txs, start, end)
    ensures if txs == [] then start == end else txs[0].begin == start && txs[|txs| - 1].end == end
  {
    assert txs != [] ==> txs[0].begin == EndBefore(txs, start, 0);
  }

  lemma NothingCounted()
    ensures InputCount([]) == OutputCount([]) == 0
  {
  }

  lemma OffsetAdds(offset: nat, begin: nat, end: nat)
    requires begin <= end
    ensures Low32(Low32(offset + begin) + (end - begin)) == Low32(offset + end)
  {
    hide Low32;
    AddWrapped32(offset + begin, end - begin);
  }

  lemma AddWrapped32(x: nat, y: nat)
    ensures Low32(Low32(x) + y) == Low32(x + y)
  {
    var q := x / TWO_TO_THE_32;
    assert x + y == x % TWO_TO_THE_32 + y + TWO_TO_THE_32 * q;
  }

  lemma NextIndex(first: nat, i: nat)
    ensures Low32(Low32(first + i) + 1) == Low32(first + (i + 1))
  {
  }

  /** Once reading has ended early, asking for more transactions changes nothing. */
  lemma {:induction false} EndsEarly(data: seq<u8>, pos: nat, i: nat, n: nat)
    requires i <= n && !ReadTransactions(data, pos, i).AllRead?
    ensures ReadTransactions(data, pos, n) == ReadTransactions(data, pos, i)
    decreases n
  {
    hide ReadTransaction;
    if i < n {
      EndsEarly(data, pos, i, n - 1);
    }
  }

  lemma {:induction false} InputsAbort(data: seq<u8>, pos: nat, i: nat, n: nat)
    requires i <= n && ReadInputs(data, pos, i).Abort?
    ensures ReadInputs(data, pos, n).Abort?
    decreases n
  {
    hide ReadInput;
    if i < n {
      InputsAbort(data, pos, i, n - 1);
    }
  }

  lemma {:induction false} OutputsAbort(data: seq<u8>, pos: nat, i: nat, n: nat)
    requires i <= n && ReadOutputs(data, pos, i).Abort?
    ensures ReadOutputs(data, pos, n).Abort?
    decreases n
  {
    hide ReadOutput;
    if i < n {
      OutputsAbort(data, pos, i, n - 1);
    }
  }
}
