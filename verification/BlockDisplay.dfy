/**
 What a caller finds in the reader of src/BlockChain.cpp after it has read a block: the contents that were written.
 */
module BlockDisplay {
  import opened BlockFormat
  import opened BlockReader
  import opened BlockRoundTrip
  import opened LittleEndian
  import opened TextAt
  import opened Word

  /** Each transaction stands where the ones before it end. */
  lemma {:induction false} TransactionsStand(data: seq<u8>, pos: nat, cs: seq<Content>, i: nat)
    requires AllFit(cs) && At(data, pos, AllBytes(cs)) && i < |cs|
    ensures ReadTransactions(data, pos, |cs|).AllRead?
    ensures var t, begin := ReadTransactions(data, pos, |cs|).txs[i], pos + |AllBytes(cs[..i])|;
      t.begin == begin && t.end == begin + |TransactionBytes(cs[i])| && At(data, begin, TransactionBytes(cs[i]))
    decreases |cs|
  {
    hide ReadTransaction;
    hide TransactionBytes;
    hide ContentFits;
    hide Shows;
    hide At;
    hide AllFit;
    hide InputCount;
    hide OutputCount;
    var front, last := cs[..|cs| - 1], cs[|cs| - 1];
    ReadTransactionsBack(data, pos, cs);
    AtSplit(data, pos, AllBytes(front), TransactionBytes(last));
    FrontFits(cs);
    if i < |cs| - 1 {
      TransactionsStand(data, pos, front, i);
      assert front[..i] == cs[..i];
    } else {
      ReadTransactionsBack(data, pos, front);
    }
  }

  lemma FrontFits(cs: seq<Content>)
    requires AllFit(cs) && cs != []
    ensures AllFit(cs[..|cs| - 1])
  {
    hide ContentFits;
    CountsOf(cs);
  }

  /** The record of a transaction, and its slices of the common arrays, say what was written. */
  ghost predicate Displays(b: BlockImpl, r: Transaction, c: Content)
    reads b, b.mInputs, b.mOutputs
  {
    && r.version == c.version && r.lockTime == c.lockTime
    && r.length == |TransactionBytes(c)| && r.hash == b.doubleHash(TransactionBytes(c)) && r.fileIndex == b.fileIndex
    && r.inputCount == |c.inputs| && r.inputs + r.inputCount <= b.mInputs.Length
    && (forall k :: 0 <= k < |c.inputs| ==> ShowsInput(b.mBlockData, b.mInputs[r.inputs + k], c.inputs[k]))
    && r.outputCount == |c.outputs| && r.outputs + r.outputCount <= b.mOutputs.Length
    && (forall k :: 0 <= k < |c.outputs| ==> ShowsOutput(b.mBlockData, b.mOutputs[r.outputs + k], c.outputs[k]))
  }

  /** After reading, the record of each written transaction displays it, with its place in the file and its number. */
  lemma BlockIsDisplayed(b: BlockImpl, firstIndex: nat, h: HeaderContent, form: Form, cs: seq<Content>, i: nat)
    requires IsBlock(b.mBlockData, h, form, cs) && i < |cs|
    requires var r := ReadBlock(b.mBlockData).result;
      r.AllRead? ==> b.Holds(r.txs, firstIndex)
    ensures b.mTransactions.Length >= |cs| && Displays(b, b.mTransactions[i], cs[i])
    ensures b.mTransactions[i].fileOffset
      == Low32(b.fileOffset + |StartBytes(h, |cs|, form)| + |AllBytes(cs[..i])|)
    ensures b.mTransactions[i].transactionIndex == Low32(firstIndex + i)
  {
    hide Starts;
    hide StartBytes;
    hide ReadBlock;
    hide ReadTransactions;
    hide TransactionBytes;
    hide AllBytes;
    hide AllFit;
    hide Shows;
    hide At;
    hide Reward;
    hide Low32;
    var start := |StartBytes(h, |cs|, form)|;
    ReadStart(b.mBlockData, h, |cs|, form);
    ReadTransactionsBack(b.mBlockData, start, cs);
    TransactionsStand(b.mBlockData, start, cs, i);
    var txs := ReadTransactions(b.mBlockData, start, |cs|).txs;
    var r := b.mTransactions[..|txs|][i];
    assert r == b.RecordOf(txs, i, firstIndex);
    RecordSays(b, txs, i, firstIndex, cs[i]);
    InputsDisplayed(b, txs, i, cs[i]);
    OutputsDisplayed(b, txs, i, cs[i]);
  }

  lemma RecordSays(b: BlockImpl, txs: seq<Placed>, i: nat, firstIndex: nat, c: Content)
    requires i < |txs| && At(b.mBlockData, txs[i].begin, TransactionBytes(c))
    requires txs[i].end == txs[i].begin + |TransactionBytes(c)| && Shows(b.mBlockData, txs[i].body, c)
    ensures var r := b.RecordOf(txs, i, firstIndex);
      && r.version == c.version && r.lockTime == c.lockTime
      && r.length == |TransactionBytes(c)| && r.hash == b.doubleHash(TransactionBytes(c)) && r.fileIndex == b.fileIndex
      && r.inputCount == |c.inputs| && r.inputs == InputCount(txs[..i])
      && r.outputCount == |c.outputs| && r.outputs == OutputCount(txs[..i])
      && r.fileOffset == Low32(b.fileOffset + txs[i].begin) && r.transactionIndex == Low32(firstIndex + i)
  {
    hide TransactionBytes;
    hide ShowsInput;
    hide ShowsOutput;
    hide Low32;
  }

  lemma Slice<T>(all: seq<T>, used: nat, first: nat, part: seq<T>)
    requires used <= |all| && first + |part| <= used && all[..used][first..first + |part|] == part
    ensures all[first..first + |part|] == part
  {
    assert all[..used][first..first + |part|] == all[first..first + |part|];
  }

  lemma SameInputs(data: seq<u8>, inputs: seq<Input>, body: Body, c: Content)
    requires Shows(data, body, c) && inputs == body.inputs
    ensures |inputs| == |c.inputs| && forall k :: 0 <= k < |c.inputs| ==> ShowsInput(data, inputs[k], c.inputs[k])
  {
    hide ShowsInput;
  }

  lemma SameOutputs(data: seq<u8>, outputs: seq<Output>, body: Body, c: Content)
    requires Shows(data, body, c) && outputs == body.outputs
    ensures |outputs| == |c.outputs| && forall k :: 0 <= k < |c.outputs| ==> ShowsOutput(data, outputs[k], c.outputs[k])
  {
    hide ShowsOutput;
  }

  lemma InputsDisplayed(b: BlockImpl, txs: seq<Placed>, i: nat, c: Content)
    requires i < |txs| && Shows(b.mBlockData, txs[i].body, c)
    requires b.totalInputCount <= b.mInputs.Length && b.mInputs[..b.totalInputCount] == AllInputs(txs)
    ensures InputCount(txs[..i]) + |c.inputs| <= b.totalInputCount
    ensures forall k :: 0 <= k < |c.inputs| ==>
      ShowsInput(b.mBlockData, b.mInputs[InputCount(txs[..i]) + k], c.inputs[k])
  {
    hide *;
    InputsPartition(txs, i);
    var first := InputCount(txs[..i]);
    Slice(b.mInputs[..], b.totalInputCount, first, txs[i].body.inputs);
    SameInputs(b.mBlockData, b.mInputs[first..first + |txs[i].body.inputs|], txs[i].body, c);
  }

  lemma OutputsDisplayed(b: BlockImpl, txs: seq<Placed>, i: nat, c: Content)
    requires i < |txs| && Shows(b.mBlockData, txs[i].body, c)
    requires b.totalOutputCount <= b.mOutputs.Length && b.mOutputs[..b.totalOutputCount] == AllOutputs(txs)
    ensures OutputCount(txs[..i]) + |c.outputs| <= b.totalOutputCount
    ensures forall k :: 0 <= k < |c.outputs| ==>
      ShowsOutput(b.mBlockData, b.mOutputs[OutputCount(txs[..i]) + k], c.outputs[k])
  {
    hide *;
    OutputsPartition(txs, i);
    var first := OutputCount(txs[..i]);
    Slice(b.mOutputs[..], b.totalOutputCount, first, txs[i].body.outputs);
    SameOutputs(b.mBlockData, b.mOutputs[first..first + |txs[i].body.outputs|], txs[i].body, c);
  }

  // ---------------------------------------------------------------------------------------------
  // The reward

  /** What the outputs written are worth together. */
  function Worth(cs: seq<Content>): nat {
    if cs == [] then 0 else Worth(cs[..|cs| - 1]) + OutputsWorth(cs[|cs| - 1].outputs)
  }

  function OutputsWorth(outputs: seq<OutputContent>): nat {
    if outputs == [] then 0 else OutputsWorth(outputs[..|outputs| - 1]) + outputs[|outputs| - 1].value
  }

  lemma {:induction false} OutputsAreWorth(data: seq<u8>, read: seq<Output>, written: seq<OutputContent>)
    requires |read| == |written| && forall k :: 0 <= k < |read| ==> ShowsOutput(data, read[k], written[k])
    ensures SumOfValues(read) == OutputsWorth(written)
    decreases |read|
  {
    if read != [] {
      OutputsAreWorth(data, read[..|read| - 1], written[..|written| - 1]);
      assert ShowsOutput(data, read[|read| - 1], written[|written| - 1]);
    }
  }

  lemma {:induction false} AllAreWorth(data: seq<u8>, txs: seq<Placed>, cs: seq<Content>)
    requires |txs| == |cs| && forall i :: 0 <= i < |cs| ==> Shows(data, txs[i].body, cs[i])
    ensures SumOfValues(AllOutputs(txs)) == Worth(cs)
    decreases |txs|
  {
    hide ShowsOutput;
    hide SumOfValues;
    if txs == [] {
      NothingIsWorth();
    } else {
      var last := |txs| - 1;
      AllAreWorth(data, txs[..last], cs[..last]);
      assert Shows(data, txs[last].body, cs[last]);
      OutputsAreWorth(data, txs[last].body.outputs, cs[last].outputs);
      SumConcat(AllOutputs(txs[..last]), txs[last].body.outputs);
    }
  }

  lemma NothingIsWorth()
    ensures SumOfValues([]) == 0
  {
  }

  /** The reward is the worth of all outputs in the block, in 64 bits. */
  lemma RewardIsWorth(b: BlockImpl, firstIndex: nat, h: HeaderContent, form: Form, cs: seq<Content>)
    requires IsBlock(b.mBlockData, h, form, cs)
    requires var r := ReadBlock(b.mBlockData).result;
      r.AllRead? ==> b.Holds(r.txs, firstIndex)
    ensures b.blockReward == Worth(cs) % TWO_TO_THE_64
  {
    hide Starts;
    hide StartBytes;
    hide ReadBlock;
    hide ReadTransactions;
    hide AllBytes;
    hide AllFit;
    hide Shows;
    hide At;
    hide Worth;
    var start := |StartBytes(h, |cs|, form)|;
    ReadStart(b.mBlockData, h, |cs|, form);
    ReadTransactionsBack(b.mBlockData, start, cs);
    AllAreWorth(b.mBlockData, ReadTransactions(b.mBlockData, start, |cs|).txs, cs);
  }
}
