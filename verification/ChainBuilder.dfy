/**
 Finding the main chain among the block headers, after src/BlockChain.cpp: two walks from the last
 header back along the previous-block hashes, the first to count, the second to fill an array.
 */
module ChainBuilder {
  import opened Counting
  import opened Word
  import opened Wrappers

  /** A 256-bit hash, as a number. */
  type Hash = nat

  datatype Header = Header(hash: Hash, previous: Hash, fileIndex: nat, fileOffset: nat, blockLength: nat)

  /** A set of headers that are equal if their hashes are. */
  type Headers = map<Hash, Header>

  predicate Keyed(m: Headers) {
    forall h :: h in m ==> m[h].hash == h
  }

  /** The header n links back from a hash, as long as every header on the way is there. */
  function Ancestor(m: Headers, h: Hash, n: nat): (a: Option<Hash>)
    ensures a.Some? ==> a.value in m
    decreases n
  {
    if h !in m then None
    else if n == 0 then Some(h)
    else Ancestor(m, m[h].previous, n - 1)
  }

  /** No header reached from the tip is its own ancestor. */
  ghost predicate AcyclicFrom(m: Headers, tip: Hash) {
    forall i: nat, n: nat :: n > 0 && Ancestor(m, tip, i).Some? ==>
      Ancestor(m, Ancestor(m, tip, i).value, n) != Ancestor(m, tip, i)
  }

  lemma {:induction false} AncestorSplit(m: Headers, h: Hash, i: nat, n: nat)
    requires Ancestor(m, h, i).Some?
    ensures Ancestor(m, h, i + n) == Ancestor(m, Ancestor(m, h, i).value, n)
    decreases i
  {
    if i > 0 {
      AncestorSplit(m, m[h].previous, i - 1, n);
    }
  }

  lemma AncestorNext(m: Headers, h: Hash, n: nat)
    requires Ancestor(m, h, n).Some?
    ensures var p := m[Ancestor(m, h, n).value].previous;
      Ancestor(m, h, n + 1) == if p in m then Some(p) else None
  {
    AncestorSplit(m, h, n, 1);
  }

  lemma {:induction false} AncestorsBefore(m: Headers, h: Hash, i: nat, n: nat)
    requires i <= n && Ancestor(m, h, n).Some?
    ensures Ancestor(m, h, i).Some?
    decreases i
  {
    if i > 0 {
      AncestorsBefore(m, m[h].previous, i - 1, n - 1);
    }
  }

  // ---------------------------------------------------------------------------------------------
  // The walk ends

  /** The hashes met in the first n links. */
  ghost function Met(m: Headers, tip: Hash, n: nat): set<Hash>
    requires n == 0 || Ancestor(m, tip, n - 1).Some?
  {
    if n == 0 then {}
    else
      AncestorsBefore(m, tip, n - 1, n - 1);
      (if n > 1 then AncestorsBefore(m, tip, n - 2, n - 1); Met(m, tip, n - 1) else {})
        + {Ancestor(m, tip, n - 1).value}
  }

  lemma {:induction false} MetAre(m: Headers, tip: Hash, n: nat, h: Hash) returns (i: nat)
    requires n > 0 && Ancestor(m, tip, n - 1).Some? && h in Met(m, tip, n)
    ensures i < n && Ancestor(m, tip, i) == Some(h)
    decreases n
  {
    if h == Ancestor(m, tip, n - 1).value {
      i := n - 1;
    } else {
      AncestorsBefore(m, tip, n - 2, n - 1);
      i := MetAre(m, tip, n - 1, h);
    }
  }

  /** Without cycles, a hash never comes back. */
  lemma NewEachTime(m: Headers, tip: Hash, n: nat)
    requires AcyclicFrom(m, tip) && Ancestor(m, tip, n).Some?
    requires n > 0 ==> Ancestor(m, tip, n - 1).Some?
    ensures Ancestor(m, tip, n).value !in Met(m, tip, n)
  {
    if n > 0 && Ancestor(m, tip, n).value in Met(m, tip, n) {
      var i := MetAre(m, tip, n, Ancestor(m, tip, n).value);
      AncestorSplit(m, tip, i, n - i);
      assert false;
    }
  }

  lemma {:induction false} MetCount(m: Headers, tip: Hash, n: nat)
    requires AcyclicFrom(m, tip) && (n > 0 ==> Ancestor(m, tip, n - 1).Some?)
    ensures |Met(m, tip, n)| == n && Met(m, tip, n) <= m.Keys
    decreases n
  {
    if n > 0 {
      if n > 1 {
        AncestorsBefore(m, tip, n - 2, n - 1);
      }
      MetCount(m, tip, n - 1);
      NewEachTime(m, tip, n - 1);
    }
  }

  /** There are no more ancestors than headers. */
  lemma WalkIsBounded(m: Headers, tip: Hash, n: nat)
    requires AcyclicFrom(m, tip) && n >= |m|
    ensures Ancestor(m, tip, n).None?
  {
    if Ancestor(m, tip, n).Some? {
      AncestorsBefore(m, tip, n, n);
      MetCount(m, tip, n + 1);
      SubsetSize(Met(m, tip, n + 1), m.Keys);
    }
  }

  lemma {:induction false} GoesRound(m: Headers, a: Hash, period: nat, rounds: nat)
    requires period > 0 && Ancestor(m, a, period) == Some(a)
    ensures Ancestor(m, a, period * rounds) == Some(a)
    decreases rounds
  {
    if rounds == 0 {
      AncestorsBefore(m, a, 0, period);
    } else {
      GoesRound(m, a, period, rounds - 1);
      AncestorSplit(m, a, period, period * (rounds - 1));
      assert period * rounds == period + period * (rounds - 1);
    }
  }

  /** The walk comes to a missing parent exactly when it does not run into a cycle. */
  lemma WalkEnds(m: Headers, tip: Hash)
    ensures (exists n: nat :: Ancestor(m, tip, n).None?) <==> AcyclicFrom(m, tip)
  {
    if AcyclicFrom(m, tip) {
      WalkIsBounded(m, tip, |m|);
    }
    forall i: nat, p: nat, n: nat
      | p > 0 && Ancestor(m, tip, i).Some? && Ancestor(m, Ancestor(m, tip, i).value, p) == Ancestor(m, tip, i)
      ensures Ancestor(m, tip, n).Some?
    {
      var a := Ancestor(m, tip, i).value;
      GoesRound(m, a, p, n);
      AncestorSplit(m, tip, i, p * n);
      Enough(p, n);
      AncestorsBefore(m, tip, n, i + p * n);
    }
  }

  lemma Enough(p: nat, n: nat)
    requires p > 0
    ensures n <= p * n
  {
  }

  // ---------------------------------------------------------------------------------------------
  // The chain

  /** The array a tip asks for: linked headers of the set that end at the tip and start where the parent is absent. */
  ghost predicate IsChain(m: Headers, tip: Hash, chain: seq<Header>) {
    && (forall i :: 0 <= i < |chain| ==> chain[i].hash in m && m[chain[i].hash] == chain[i])
    && (tip !in m ==> chain == [])
    && (tip in m ==> chain != [] && chain[|chain| - 1].hash == tip && chain[0].previous !in m)
    && (forall i :: 0 < i < |chain| ==> chain[i].previous == chain[i - 1].hash)
  }

  /** The entries are exactly the tip and its ancestors, the oldest first. */
  lemma {:induction false} ChainIsAncestry(m: Headers, tip: Hash, chain: seq<Header>, n: nat)
    requires Keyed(m) && IsChain(m, tip, chain)
    ensures Ancestor(m, tip, n) == if n < |chain| then Some(chain[|chain| - 1 - n].hash) else None
    decreases n
  {
    if n > 0 {
      ChainIsAncestry(m, tip, chain, n - 1);
      if n - 1 < |chain| {
        AncestorNext(m, tip, n - 1);
      } else if Ancestor(m, tip, n).Some? {
        AncestorsBefore(m, tip, n - 1, n);
      }
    }
  }

  /** No entry is repeated. */
  lemma ChainIsDistinct(m: Headers, tip: Hash, chain: seq<Header>)
    requires Keyed(m) && IsChain(m, tip, chain)
    ensures forall i, j :: 0 <= i < j < |chain| ==> chain[i].hash != chain[j].hash
  {
    ChainIsAncestry(m, tip, chain, |chain|);
    WalkEnds(m, tip);
    forall i, j | 0 <= i < j < |chain| ensures chain[i].hash != chain[j].hash {
      var a, b := |chain| - 1 - i, |chain| - 1 - j;
      ChainIsAncestry(m, tip, chain, a);
      ChainIsAncestry(m, tip, chain, b);
      AncestorSplit(m, tip, b, a - b);
    }
  }

  /** There is only one such array. */
  lemma ChainIsUnique(m: Headers, tip: Hash, c: seq<Header>, d: seq<Header>)
    requires Keyed(m) && IsChain(m, tip, c) && IsChain(m, tip, d)
    ensures c == d
  {
    ChainIsAncestry(m, tip, c, |c|);
    ChainIsAncestry(m, tip, d, |c|);
    ChainIsAncestry(m, tip, c, |d|);
    ChainIsAncestry(m, tip, d, |d|);
    forall i | 0 <= i < |c| ensures c[i] == d[i] {
      ChainIsAncestry(m, tip, c, |c| - 1 - i);
      ChainIsAncestry(m, tip, d, |c| - 1 - i);
    }
  }

  // ---------------------------------------------------------------------------------------------
  // The two walks

  class BlockChain {
    var mScanCount: nat
    var mLastBlockHeader: Header
    var mBlockHeaderSet: Headers
    var mBlockCount: nat
    var mBlockChainHeaders: seq<Header>

    constructor (headers: Headers, last: Header, scanCount: nat)
      ensures mBlockHeaderSet == headers && mLastBlockHeader == last && mScanCount == scanCount
      ensures mBlockCount == 0 && mBlockChainHeaders == []
    {
      mBlockHeaderSet, mLastBlockHeader, mScanCount := headers, last, scanCount;
      mBlockCount, mBlockChainHeaders := 0, [];
    }

    /** The first walk. */
    method CountBlocks() returns (blockCount: nat)
      requires AcyclicFrom(mBlockHeaderSet, mLastBlockHeader.hash)
      ensures blockCount <= |mBlockHeaderSet|
      ensures Ancestor(mBlockHeaderSet, mLastBlockHeader.hash, blockCount).None?
      ensures forall i :: 0 <= i < blockCount ==> Ancestor(mBlockHeaderSet, mLastBlockHeader.hash, i).Some?
    {
      ghost var m, tip := mBlockHeaderSet, mLastBlockHeader.hash;
      blockCount := 0;
      var found := mLastBlockHeader.hash;
      while found in mBlockHeaderSet
        invariant blockCount <= |m|
        invariant Ancestor(m, tip, blockCount) == if found in m then Some(found) else None
        invariant forall i :: 0 <= i < blockCount ==> Ancestor(m, tip, i).Some?
        decreases |m| - blockCount
      {
        if blockCount >= |m| {
          WalkIsBounded(m, tip, blockCount);
        }
        AncestorNext(m, tip, blockCount);
        blockCount := blockCount + 1;
        found := mBlockHeaderSet[found].previous;
      }
    }

    /** The second walk: fills the array from its end. */
    method Gather(blockCount: nat) returns (chain: array<Header>)
      requires Keyed(mBlockHeaderSet) && blockCount < TWO_TO_THE_32
      requires Ancestor(mBlockHeaderSet, mLastBlockHeader.hash, blockCount).None?
      requires forall i :: 0 <= i < blockCount ==> Ancestor(mBlockHeaderSet, mLastBlockHeader.hash, i).Some?
      ensures fresh(chain) && chain.Length == blockCount
      ensures IsChain(mBlockHeaderSet, mLastBlockHeader.hash, chain[..])
    {
      ghost var m, tip := mBlockHeaderSet, mLastBlockHeader.hash;
      chain := new Header[blockCount](i => Header(0, 0, 0, 0, 0));
      var index := (blockCount + TWO_TO_THE_32 - 1) % TWO_TO_THE_32;
      ghost var n := 0;
      var found := mLastBlockHeader.hash;
      while found in mBlockHeaderSet
        invariant n <= blockCount && index == (blockCount - n + TWO_TO_THE_32 - 1) % TWO_TO_THE_32
        invariant Ancestor(m, tip, n) == if found in m then Some(found) else None
        invariant forall i :: blockCount - n <= i < blockCount ==>
          Ancestor(m, tip, blockCount - 1 - i) == Some(chain[i].hash) && m[chain[i].hash] == chain[i]
        decreases blockCount - n
      {
        AncestorNext(m, tip, n);
        chain[index] := mBlockHeaderSet[found];
        index := (index + TWO_TO_THE_32 - 1) % TWO_TO_THE_32;
        found := mBlockHeaderSet[found].previous;
        n := n + 1;
      }
      FilledIsChain(m, tip, chain[..]);
    }

    /** What the second walk leaves is the chain. */
    lemma FilledIsChain(m: Headers, tip: Hash, chain: seq<Header>)
      requires Keyed(m) && Ancestor(m, tip, |chain|).None?
      requires forall i :: 0 <= i < |chain| ==>
        Ancestor(m, tip, |chain| - 1 - i) == Some(chain[i].hash) && m[chain[i].hash] == chain[i]
      ensures IsChain(m, tip, chain)
    {
      if chain != [] {
        assert Ancestor(m, tip, |chain| - 1 - 0) == Some(chain[0].hash);
        AncestorNext(m, tip, |chain| - 1);
        AncestorsBefore(m, tip, 0, |chain| - 1);
        assert Ancestor(m, tip, 0) == Some(chain[|chain| - 1].hash);
      }
      forall i | 0 < i < |chain| ensures chain[i].previous == chain[i - 1].hash {
        assert Ancestor(m, tip, |chain| - 1 - i) == Some(chain[i].hash);
        assert Ancestor(m, tip, |chain| - 1 - (i - 1)) == Some(chain[i - 1].hash);
        AncestorNext(m, tip, |chain| - 1 - i);
      }
    }

    method BuildBlockChain() returns (blockCount: nat)
      requires Keyed(mBlockHeaderSet) && |mBlockHeaderSet| < TWO_TO_THE_32
      requires AcyclicFrom(mBlockHeaderSet, mLastBlockHeader.hash)
      modifies this`mScanCount, this`mBlockCount, this`mBlockChainHeaders
      ensures mScanCount == 0
      ensures old(mScanCount) == 0 ==>
        blockCount == 0 && mBlockCount == old(mBlockCount) && mBlockChainHeaders == old(mBlockChainHeaders)
      ensures old(mScanCount) != 0 ==>
        && blockCount == mBlockCount == |mBlockChainHeaders|
        && IsChain(mBlockHeaderSet, mLastBlockHeader.hash, mBlockChainHeaders)
    {
      blockCount := 0;
      if mScanCount != 0 {
        blockCount := CountBlocks();
        var chain := Gather(blockCount);
        mBlockChainHeaders := chain[..];
        mBlockCount := blockCount;
        mScanCount := 0;
      }
    }
  }
}
