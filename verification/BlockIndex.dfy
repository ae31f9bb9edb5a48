/**
 The block index records of include/CBlockIndex.h: seven variable-length numbers, three of them
 present only if the status says so, and the eighty bytes of the block header.
 */
module BlockIndex {
  import opened LittleEndian
  import opened TextAt
  import opened Varint
  import opened Word
  import opened Wrappers

  /** What a record says; a number may be too large for 64 bits. */
  datatype Record = Record(
    versionNumber: nat,
    blockHeight: nat,
    blockStatus: nat,
    transactionCount: nat,
    fileIndex: nat,
    fileOffset: nat,
    undoOffset: nat,
    blockVersion: int,
    hashPrevious: seq<u8>,
    hashMerkleRoot: seq<u8>,
    time: nat,
    bits: nat,
    nonce: nat)

  predicate Valid(r: Record) {
    && -0x8000_0000 <= r.blockVersion < 0x8000_0000
    && |r.hashPrevious| == 32 && |r.hashMerkleRoot| == 32
    && r.time < 0x1_0000_0000 && r.bits < 0x1_0000_0000 && r.nonce < 0x1_0000_0000
  }

  /** Bit 8 of the status: the block is in a data file. */
  predicate HaveData(status: nat) {
    status / 8 % 2 == 1
  }

  /** Bit 16 of the status: there is undo data. */
  predicate HaveUndo(status: nat) {
    status / 16 % 2 == 1
  }

  /** Four bytes, low first. */
  function WordBytes(w: nat): (s: seq<u8>)
    ensures |s| == 4
  {
    [w % 256, w / 256 % 256, w / 0x1_0000 % 256, w / 0x100_0000 % 256]
  }

  /** The two's complement pattern of a 32-bit number. */
  function Pattern(i: int): nat
    requires -0x8000_0000 <= i < 0x8000_0000
  {
    if i < 0 then i + 0x1_0000_0000 else i
  }

  function Optional(present: bool, n: nat): seq<u8> {
    if present then Encode(n) else []
  }

  /** The layout of the numbers. */
  function Numbers(r: Record): seq<u8> {
    Encode(r.versionNumber) + (Encode(r.blockHeight) + (Encode(r.blockStatus) + (Encode(r.transactionCount)
    + (Optional(HaveData(r.blockStatus) || HaveUndo(r.blockStatus), r.fileIndex)
    + (Optional(HaveData(r.blockStatus), r.fileOffset)
    + Optional(HaveUndo(r.blockStatus), r.undoOffset))))))
  }

  /** The layout of the block header. */
  function Header(r: Record): (s: seq<u8>)
    requires Valid(r)
    ensures |s| == 80
  {
    WordBytes(Pattern(r.blockVersion))
      + (r.hashPrevious + (r.hashMerkleRoot + (WordBytes(r.time) + (WordBytes(r.bits) + WordBytes(r.nonce)))))
  }

  function Serialize(r: Record): seq<u8>
    requires Valid(r)
  {
    Numbers(r) + Header(r)
  }

  /** An encoded number is found where it stands, whatever follows. */
  lemma ReadEncoded(data: seq<u8>, pos: nat, n: nat)
    requires At(data, pos, Encode(n))
    ensures EndOf(data, pos) == Some(pos + |Encode(n)|)
    ensures Accumulated(data[pos..pos + |Encode(n)|]) == n
  {
    hide *;
    AtIsSlice(data, pos, Encode(n));
    EndOfTerminated(data, pos, Encode(n));
    DecodeEncode(n);
  }

  lemma AtIsSlice(data: seq<u8>, pos: nat, s: seq<u8>)
    requires At(data, pos, s)
    ensures pos + |s| <= |data| && data[pos..pos + |s|] == s
  {
  }

  lemma {:induction false} EndOfTerminated(data: seq<u8>, pos: nat, s: seq<u8>)
    requires At(data, pos, s) && Terminated(s)
    ensures EndOf(data, pos) == Some(pos + |s|)
    decreases |s|
  {
    AtChar(data, pos, s, 0);
    if |s| > 1 {
      assert [s[0]] + s[1..] == s;
      AtSplit(data, pos, [s[0]], s[1..]);
      EndOfTerminated(data, pos + 1, s[1..]);
    }
  }

  /** The status bits survive the truncation to 64 bits. */
  lemma BitsOfStatus(status: nat)
    ensures HaveData(status % TWO_TO_THE_64) <==> HaveData(status)
    ensures HaveUndo(status % TWO_TO_THE_64) <==> HaveUndo(status)
  {
    var q, r := status / TWO_TO_THE_64, status % TWO_TO_THE_64;
    assert status == q * TWO_TO_THE_64 + r;
    Shifted(q, r, 8);
    Shifted(q, r, 16);
  }

  lemma Shifted(q: nat, r: nat, bit: nat)
    requires bit == 8 || bit == 16
    ensures (q * TWO_TO_THE_64 + r) / bit % 2 == r / bit % 2
  {
    if bit == 8 {
      assert (q * TWO_TO_THE_64 + r) / 8 == 2 * (q * 0x1000_0000_0000_0000) + r / 8;
      AddEven(q * 0x1000_0000_0000_0000, r / 8);
    } else {
      assert (q * TWO_TO_THE_64 + r) / 16 == 2 * (q * 0x800_0000_0000_0000) + r / 16;
      AddEven(q * 0x800_0000_0000_0000, r / 16);
    }
  }

  lemma AddEven(k: nat, x: nat)
    ensures (2 * k + x) % 2 == x % 2
  {
  }

  lemma ReadWord(w: nat)
    requires w < 0x1_0000_0000
    ensures Value(WordBytes(w)) == w
  {
    var b, c := w / 256, w / 0x1_0000;
    var d := w / 0x100_0000;
    assert b / 256 == c && c / 256 == d && d < 256;
    ValueOf4(w % 256, b % 256, c % 256, d);
    assert w == w % 256 + 256 * b && b == b % 256 + 256 * c && c == c % 256 + 256 * d;
  }

  lemma ValueOf4(a: u8, b: u8, c: u8, d: u8)
    ensures Value([a, b, c, d]) == a as int + 256 * (b as int + 256 * (c as int + 256 * d as int))
  {
    var s := [a, b, c, d];
    assert s[1..] == [b, c, d] && [b, c, d][1..] == [c, d] && [c, d][1..] == [d];
    SingleByte(d);
    assert Value([c, d]) == c + 256 * Value([d]);
    assert Value([b, c, d]) == b + 256 * Value([c, d]);
  }

  // ---------------------------------------------------------------------------------------------
  // What the layout is

  /** The status has a bit of weight 8 for data and one of weight 16 for undo data. */
  lemma StatusMeaning(high: nat, undo: bool, data: bool, low: nat)
    requires low < 8
    ensures var status := 32 * high + (if undo then 16 else 0) + (if data then 8 else 0) + low;
      HaveData(status) == data && HaveUndo(status) == undo
  {
    var rest := (if undo then 2 else 0) + (if data then 1 else 0);
    AddEven(2 * high, rest);
    AddEven(high, if undo then 1 else 0);
    assert (32 * high + 8 * rest + low) / 8 == 4 * high + rest;
    assert (32 * high + 8 * rest + low) / 16 == 2 * high + (if undo then 1 else 0);
  }

  function AllEncoded(ns: seq<nat>): seq<u8> {
    if ns == [] then [] else Encode(ns[0]) + AllEncoded(ns[1..])
  }

  /** The four layouts there are. */
  function Listed(r: Record): seq<nat> {
    var first := [r.versionNumber, r.blockHeight, r.blockStatus, r.transactionCount];
    match (HaveData(r.blockStatus), HaveUndo(r.blockStatus))
    case (false, false) => first
    case (true, false) => first + [r.fileIndex, r.fileOffset]
    case (false, true) => first + [r.fileIndex, r.undoOffset]
    case (true, true) => first + [r.fileIndex, r.fileOffset, r.undoOffset]
  }

  lemma {:induction false} EncodedConcat(a: seq<nat>, b: seq<nat>)
    ensures AllEncoded(a + b) == AllEncoded(a) + AllEncoded(b)
    decreases |a|
  {
    hide Encode;
    if a == [] {
      assert a + b == b;
    } else {
      assert (a + b)[1..] == a[1..] + b;
      EncodedConcat(a[1..], b);
    }
  }

  lemma EncodedOne(n: nat)
    ensures AllEncoded([n]) == Encode(n)
  {
    hide Encode;
    assert [n][1..] == [] && Encode(n) + [] == Encode(n);
  }

  lemma OptionalIsListed(present: bool, n: nat)
    ensures Optional(present, n) == AllEncoded(if present then [n] else [])
  {
    EncodedOne(n);
  }

  lemma FirstFour(a: nat, b: nat, c: nat, d: nat, rest: seq<nat>)
    ensures AllEncoded([a, b, c, d] + rest) == Encode(a) + (Encode(b) + (Encode(c) + (Encode(d) + AllEncoded(rest))))
  {
    hide Encode;
    EncodedConcat([a], [b, c, d] + rest);
    EncodedConcat([b], [c, d] + rest);
    EncodedConcat([c], [d] + rest);
    EncodedConcat([d], rest);
    EncodedOne(a);
    EncodedOne(b);
    EncodedOne(c);
    EncodedOne(d);
    hide AllEncoded;
    assert [a] + ([b, c, d] + rest) == [a, b, c, d] + rest;
    assert [b] + ([c, d] + rest) == [b, c, d] + rest;
    assert [c] + ([d] + rest) == [c, d] + rest;
  }

  /** Which numbers a record has, and in which order. */
  lemma NumbersAreListed(r: Record)
    ensures Numbers(r) == AllEncoded(Listed(r))
  {
    hide Encode, AllEncoded, HaveData, HaveUndo, Optional;
    var data, undo := HaveData(r.blockStatus), HaveUndo(r.blockStatus);
    var a := if data || undo then [r.fileIndex] else [];
    var b := if data then [r.fileOffset] else [];
    var c := if undo then [r.undoOffset] else [];
    OptionalIsListed(data || undo, r.fileIndex);
    OptionalIsListed(data, r.fileOffset);
    OptionalIsListed(undo, r.undoOffset);
    EncodedConcat(a, b + c);
    EncodedConcat(b, c);
    FirstFour(r.versionNumber, r.blockHeight, r.blockStatus, r.transactionCount, a + (b + c));
    assert Listed(r) == [r.versionNumber, r.blockHeight, r.blockStatus, r.transactionCount] + (a + (b + c));
  }

  class CBlockIndex {
    var mVersionNumber: nat
    var mBlockHeight: nat
    var mBlockStatus: nat
    var mTransactionCount: nat
    var mFileIndex: nat
    var mFileOffset: nat
    var mUndoOffset: nat
    var mBlockVersion: int
    var mHashPrevious: seq<u8>
    var mHashMerkleRoot: seq<u8>
    var mTime: nat
    var mBits: nat
    var mNonce: nat

    constructor ()
      ensures mFileIndex == 0 && mFileOffset == 0 && mUndoOffset == 0
    {
      mVersionNumber, mBlockHeight, mBlockStatus, mTransactionCount := 0, 0, 0, 0;
      mFileIndex, mFileOffset, mUndoOffset := 0, 0, 0;
      mBlockVersion := 0;
      mHashPrevious, mHashMerkleRoot := [], [];
      mTime, mBits, mNonce := 0, 0, 0;
    }

    /**
     Reads a record back, each number modulo 2^64, and ends right behind it.  The fields the status says
     are absent keep what they had.
     */
    method ReadBlockIndex(data: seq<u8>, start: nat, expectedSize: nat, ghost r: Record) returns (scan: nat)
      requires Valid(r) && At(data, start, Serialize(r)) && expectedSize == |Serialize(r)|
      modifies this
      ensures scan == start + expectedSize
      ensures mVersionNumber == r.versionNumber % TWO_TO_THE_64
      ensures mBlockHeight == r.blockHeight % TWO_TO_THE_64
      ensures mBlockStatus == r.blockStatus % TWO_TO_THE_64
      ensures mTransactionCount == r.transactionCount % TWO_TO_THE_64
      ensures mFileIndex ==
        if HaveData(r.blockStatus) || HaveUndo(r.blockStatus) then r.fileIndex % TWO_TO_THE_64 else old(mFileIndex)
      ensures mFileOffset == if HaveData(r.blockStatus) then r.fileOffset % TWO_TO_THE_64 else old(mFileOffset)
      ensures mUndoOffset == if HaveUndo(r.blockStatus) then r.undoOffset % TWO_TO_THE_64 else old(mUndoOffset)
      ensures mBlockVersion == r.blockVersion && mHashPrevious == r.hashPrevious && mHashMerkleRoot == r.hashMerkleRoot
      ensures mTime == r.time && mBits == r.bits && mNonce == r.nonce
    {
      hide *;
      Split(data, start, r);
      var pos := ReadNumbers(data, start, r);
      scan := ReadHeader(data, pos, r);
      var size := scan - start;
      assert size == expectedSize;
    }

    lemma Split(data: seq<u8>, start: nat, r: Record)
      requires Valid(r) && At(data, start, Serialize(r))
      ensures At(data, start, Numbers(r)) && At(data, start + |Numbers(r)|, Header(r))
      ensures |Serialize(r)| == |Numbers(r)| + 80
    {
      hide Numbers;
      hide Header;
      AtSplit(data, start, Numbers(r), Header(r));
    }

    method ReadNumbers(data: seq<u8>, start: nat, ghost r: Record) returns (pos: nat)
      requires At(data, start, Numbers(r))
      modifies this`mVersionNumber, this`mBlockHeight, this`mBlockStatus, this`mTransactionCount,
               this`mFileIndex, this`mFileOffset, this`mUndoOffset
      ensures pos == start + |Numbers(r)|
      ensures mVersionNumber == r.versionNumber % TWO_TO_THE_64
      ensures mBlockHeight == r.blockHeight % TWO_TO_THE_64
      ensures mBlockStatus == r.blockStatus % TWO_TO_THE_64
      ensures mTransactionCount == r.transactionCount % TWO_TO_THE_64
      ensures mFileIndex ==
        if HaveData(r.blockStatus) || HaveUndo(r.blockStatus) then r.fileIndex % TWO_TO_THE_64 else old(mFileIndex)
      ensures mFileOffset == if HaveData(r.blockStatus) then r.fileOffset % TWO_TO_THE_64 else old(mFileOffset)
      ensures mUndoOffset == if HaveUndo(r.blockStatus) then r.undoOffset % TWO_TO_THE_64 else old(mUndoOffset)
    {
      hide At;
      hide HaveData;
      hide HaveUndo;
      hide Encode;
      ghost var e7 := Optional(HaveUndo(r.blockStatus), r.undoOffset);
      ghost var e6 := Optional(HaveData(r.blockStatus), r.fileOffset);
      ghost var e5 := Optional(HaveData(r.blockStatus) || HaveUndo(r.blockStatus), r.fileIndex);
      ghost var e4 := Encode(r.transactionCount);
      BitsOfStatus(r.blockStatus);
      pos, mVersionNumber := ReadNext(data, start, r.versionNumber,
                                      Encode(r.blockHeight) + (Encode(r.blockStatus) + (e4 + (e5 + (e6 + e7)))));
      pos, mBlockHeight := ReadNext(data, pos, r.blockHeight, Encode(r.blockStatus) + (e4 + (e5 + (e6 + e7))));
      pos, mBlockStatus := ReadNext(data, pos, r.blockStatus, e4 + (e5 + (e6 + e7)));
      pos, mTransactionCount := ReadNext(data, pos, r.transactionCount, e5 + (e6 + e7));
      if HaveData(mBlockStatus) || HaveUndo(mBlockStatus) {
        pos, mFileIndex := ReadNext(data, pos, r.fileIndex, e6 + e7);
      } else {
        assert e5 + (e6 + e7) == e6 + e7;
      }
      if HaveData(mBlockStatus) {
        pos, mFileOffset := ReadNext(data, pos, r.fileOffset, e7);
      } else {
        assert e6 + e7 == e7;
      }
      if HaveUndo(mBlockStatus) {
        assert e7 + [] == e7;
        pos, mUndoOffset := ReadNext(data, pos, r.undoOffset, []);
      }
    }

    /** One number and what stands behind it. */
    static method ReadNext(data: seq<u8>, pos: nat, ghost n: nat, ghost rest: seq<u8>) returns (next: nat, value: nat)
      requires At(data, pos, Encode(n) + rest)
      ensures next == pos + |Encode(n)| && value == n % TWO_TO_THE_64
      ensures At(data, next, rest)
    {
      hide *;
      AtSplit(data, pos, Encode(n), rest);
      ReadEncoded(data, pos, n);
      next, value := ReadVarint128(data, pos);
    }

    method ReadHeader(data: seq<u8>, pos: nat, ghost r: Record) returns (scan: nat)
      requires Valid(r) && At(data, pos, Header(r))
      modifies this`mBlockVersion, this`mHashPrevious, this`mHashMerkleRoot, this`mTime, this`mBits, this`mNonce
      ensures scan == pos + 80
      ensures mBlockVersion == r.blockVersion && mHashPrevious == r.hashPrevious && mHashMerkleRoot == r.hashMerkleRoot
      ensures mTime == r.time && mBits == r.bits && mNonce == r.nonce
    {
      hide At;
      ghost var w6 := WordBytes(r.nonce);
      ghost var w5 := WordBytes(r.bits);
      ghost var w4 := WordBytes(r.time);
      scan := pos;
      var pattern: int :=
        ReadU32(data, scan, Pattern(r.blockVersion), r.hashPrevious + (r.hashMerkleRoot + (w4 + (w5 + w6))));
      mBlockVersion := if pattern >= 0x8000_0000 then pattern - 0x1_0000_0000 else pattern;
      scan := scan + 4;
      mHashPrevious := Copy32(data, scan, r.hashPrevious, r.hashMerkleRoot + (w4 + (w5 + w6)));
      scan := scan + 32;
      mHashMerkleRoot := Copy32(data, scan, r.hashMerkleRoot, w4 + (w5 + w6));
      scan := scan + 32;
      mTime := ReadU32(data, scan, r.time, w5 + w6);
      scan := scan + 4;
      mBits := ReadU32(data, scan, r.bits, w6);
      scan := scan + 4;
      assert w6 + [] == w6;
      mNonce := ReadU32(data, scan, r.nonce, []);
      scan := scan + 4;
    }

    static method ReadU32(data: seq<u8>, pos: nat, ghost w: nat, ghost rest: seq<u8>) returns (value: nat)
      requires w < 0x1_0000_0000 && At(data, pos, WordBytes(w) + rest)
      ensures value == w && At(data, pos + 4, rest)
    {
      hide WordBytes;
      AtSplit(data, pos, WordBytes(w), rest);
      ReadWord(w);
      value := Value(data[pos..pos + 4]);
    }

    static method Copy32(data: seq<u8>, pos: nat, ghost hash: seq<u8>, ghost rest: seq<u8>) returns (value: seq<u8>)
      requires |hash| == 32 && At(data, pos, hash + rest)
      ensures value == hash && At(data, pos + 32, rest)
    {
      AtSplit(data, pos, hash, rest);
      value := data[pos..pos + 32];
    }
  }
}
