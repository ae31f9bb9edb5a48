/**
 The streaming SHA-256 of src/SHA256.cpp: a context with a 64-byte buffer, updated with data of any
 length, and the one-shot function built on it.
 */
module Sha256Context {
  import opened Sha256
  import opened Word

  // ---------------------------------------------------------------------------------------------
  // The source's own forms of the word functions

  function Ch(x: bv32, y: bv32, z: bv32): bv32 {
    z ^ (x & (y ^ z))
  }

  function Maj(x: bv32, y: bv32, z: bv32): bv32 {
    (x & (y | z)) | (y & z)
  }

  function Rotl(x: bv32, n: bv6): bv32
    requires 0 < n < 32
  {
    (x << n) | (x >> (32 - n))
  }

  function ByteSwap(x: bv32): bv32 {
    (Rotr(x, 8) & 0xFF00_FF00) | (Rotl(x, 8) & 0x00FF_00FF)
  }

  /** A word as a little-endian processor loads it. */
  function Load(a: bv8, b: bv8, c: bv8, d: bv8): bv32 {
    ((d as bv32) << 24) | ((c as bv32) << 16) | ((b as bv32) << 8) | (a as bv32)
  }

  /** And as it stores it. */
  function Store(w: bv32): (s: seq<bv8>)
    ensures |s| == 4
  {
    [(w & 0xFF) as bv8, ((w >> 8) & 0xFF) as bv8, ((w >> 16) & 0xFF) as bv8, (w >> 24) as bv8]
  }

  function Difference(x: bv32, y: bv32): bv32 {
    x ^ y
  }

  lemma NoDifference(x: bv32, y: bv32)
    requires Difference(x, y) == 0
    ensures x == y
  {
  }

  lemma ChMinusChoose(x: bv32, y: bv32, z: bv32)
    ensures Difference(Ch(x, y, z), Choose(x, y, z)) == 0
  {
  }

  lemma ChIsChoose(x: bv32, y: bv32, z: bv32)
    ensures Ch(x, y, z) == Choose(x, y, z)
  {
    hide *;
    ChMinusChoose(x, y, z);
    NoDifference(Ch(x, y, z), Choose(x, y, z));
  }

  lemma MajMinusMajority(x: bv32, y: bv32, z: bv32)
    ensures Difference(Maj(x, y, z), Majority(x, y, z)) == 0
  {
  }

  lemma MajIsMajority(x: bv32, y: bv32, z: bv32)
    ensures Maj(x, y, z) == Majority(x, y, z)
  {
    hide *;
    MajMinusMajority(x, y, z);
    NoDifference(Maj(x, y, z), Majority(x, y, z));
  }

  lemma LoadSwapped(a: bv8, b: bv8, c: bv8, d: bv8)
    ensures ByteSwap(Load(a, b, c, d)) == BigEndian(a, b, c, d)
  {
  }

  lemma StoreSwapped(w: bv32)
    ensures Store(ByteSwap(w)) == BytesOf(w)
  {
  }

  // ---------------------------------------------------------------------------------------------
  // One block

  /** One round as the loop body computes it. */
  method DoRound(v: Vars, k: bv32, w: bv32) returns (next: Vars)
    ensures next == Round(v, k, w)
  {
    hide Add;
    hide Choose;
    hide Majority;
    hide Ch;
    hide Maj;
    hide BigSigma0;
    hide BigSigma1;
    ChIsChoose(v.e, v.f, v.g);
    MajIsMajority(v.a, v.b, v.c);
    var a, b, c, d, e, f, g, h := v.a, v.b, v.c, v.d, v.e, v.f, v.g, v.h;
    var t1 := Add(Add(Add(Add(h, BigSigma1(e)), Ch(e, f, g)), k), w);
    var t2 := Add(BigSigma0(a), Maj(a, b, c));
    h := g;
    g := f;
    f := e;
    e := Add(d, t1);
    d := c;
    c := b;
    b := a;
    a := Add(t1, t2);
    next := Vars(a, b, c, d, e, f, g, h);
  }

  /** The sixteen words of the block, byte-swapped, and the forty-eight made from them. */
  method Schedule(block: Block) returns (buf: array<bv32>)
    ensures fresh(buf) && buf.Length == 64
    ensures forall t :: 0 <= t < 64 ==> buf[t] == W(block, t)
  {
    hide Add;
    hide SmallSigma0;
    hide SmallSigma1;
    hide ByteSwap;
    hide Load;
    hide BigEndian;
    buf := new bv32[64](i => 0);
    var t := 0;
    while t < 16
      invariant 0 <= t <= 16
      invariant forall j :: 0 <= j < t ==> buf[j] == W(block, j)
    {
      LoadSwapped(block[4 * t], block[4 * t + 1], block[4 * t + 2], block[4 * t + 3]);
      buf[t] := ByteSwap(Load(block[4 * t], block[4 * t + 1], block[4 * t + 2], block[4 * t + 3]));
      t := t + 1;
    }
    while t < 64
      invariant 16 <= t <= 64
      invariant forall j :: 0 <= j < t ==> buf[j] == W(block, j)
    {
      hide W;
      WStep(block, t);
      buf[t] := Add(Add(Add(SmallSigma1(buf[t - 2]), buf[t - 7]), SmallSigma0(buf[t - 15])), buf[t - 16]);
      t := t + 1;
    }
  }

  lemma WStep(block: Block, t: nat)
    requires 16 <= t < 64
    ensures W(block, t) ==
      Add(Add(Add(SmallSigma1(W(block, t - 2)), W(block, t - 7)), SmallSigma0(W(block, t - 15))), W(block, t - 16))
  {
    hide Add;
    hide SmallSigma0;
    hide SmallSigma1;
    hide BigEndian;
  }

  /** All rounds, one after the other. */
  method AllRounds(h: State, block: Block, buf: array<bv32>) returns (v: Vars)
    requires buf.Length == 64 && forall t :: 0 <= t < 64 ==> buf[t] == W(block, t)
    ensures v == Rounds(h, block, 64)
  {
    hide Round;
    hide W;
    hide K;
    v := Vars(h[0], h[1], h[2], h[3], h[4], h[5], h[6], h[7]);
    var t := 0;
    while t < 64
      invariant 0 <= t <= 64
      invariant v == Rounds(h, block, t)
    {
      v := DoRound(v, K(t), buf[t]);
      t := t + 1;
    }
  }

  // ---------------------------------------------------------------------------------------------
  // The context

  /** A hash and undigested bytes that stand for a message. */
  predicate Absorbed(message: seq<bv8>, totalLength: nat, hash: seq<bv32>, rest: seq<bv8>) {
    && |rest| == |message| % 64
    && totalLength == 8 * |message| % TWO_TO_THE_64
    && hash == Digest(INITIAL, message[..|message| - |rest|])
    && rest == message[|message| - |rest|..]
  }

  lemma LengthGrows(m: nat, n: nat)
    ensures (8 * m % TWO_TO_THE_64 + 8 * n) % TWO_TO_THE_64 == 8 * (m + n) % TWO_TO_THE_64
  {
    AddWrapped(8 * m, 8 * n);
  }

  /** Bytes that do not fill the block are kept. */
  lemma AbsorbSome(m: seq<bv8>, total: nat, h: seq<bv32>, rest: seq<bv8>, data: seq<bv8>)
    requires Absorbed(m, total, h, rest) && |rest| + |data| < 64
    ensures Absorbed(m + data, (total + 8 * |data|) % TWO_TO_THE_64, h, rest + data)
  {
    hide Digest;
    LengthGrows(|m|, |data|);
    RemainderGrows(|m|, |data|);
    var n := |m| - |rest|;
    assert (m + data)[..n] == m[..n] && (m + data)[n..] == rest + data;
  }

  lemma RemainderGrows(n: nat, d: nat)
    ensures n % 64 + d < 64 ==> (n + d) % 64 == n % 64 + d
    ensures n % 64 + d == 64 ==> (n + d) % 64 == 0
    ensures (n - n % 64) % 64 == 0
  {
    var q := n / 64;
    assert n == 64 * q + n % 64;
    if n % 64 + d == 64 {
      assert n + d == 64 * (q + 1);
    }
  }

  /** Bytes that fill the block are digested with it. */
  lemma AbsorbBlock(m: seq<bv8>, total: nat, h: State, rest: seq<bv8>, data: seq<bv8>)
    requires Absorbed(m, total, h, rest) && |rest| + |data| == 64
    ensures Absorbed(m + data, (total + 8 * |data|) % TWO_TO_THE_64, Compress(h, rest + data), [])
  {
    hide Digest;
    hide Compress;
    LengthGrows(|m|, |data|);
    RemainderGrows(|m|, |data|);
    var n := |m| - |rest|;
    assert m + data == m[..n] + (rest + data);
    DigestBlock(INITIAL, m[..n], rest + data);
    assert (m + data)[..n + 64] == m + data && (m + data)[n + 64..] == [];
  }

  lemma NothingAbsorbed()
    ensures Absorbed([], 0, INITIAL, [])
  {
  }

  class Context {
    var totalLength: nat
    const hash: array<bv32>
    var bufferLength: nat
    const buffer: array<bv8>
    /** Everything that has been fed in. */
    ghost var message: seq<bv8>

    ghost predicate Valid()
      reads this, hash, buffer
    {
      && hash.Length == 8 && buffer.Length == 64 && bufferLength < 64
      && Absorbed(message, totalLength, hash[..], buffer[..bufferLength])
    }

    constructor ()
      ensures Valid() && message == [] && fresh(hash) && fresh(buffer)
    {
      hash := new bv32[8](i requires 0 <= i < 8 => INITIAL[i]);
      buffer := new bv8[64](i => 0);
      totalLength, bufferLength := 0, 0;
      message := [];
      new;
      assert hash[..] == INITIAL;
      NothingAbsorbed();
    }

    /** Digests one block. */
    method Guts(block: Block)
      requires hash.Length == 8
      modifies hash
      ensures hash[..] == Compress(old(hash[..]), block)
    {
      hide Rounds;
      var buf := Schedule(block);
      var h: State := hash[..];
      var v := AllRounds(h, block, buf);
      AddAll(v);
    }

    method AddAll(v: Vars)
      requires hash.Length == 8
      modifies hash
      ensures hash[..] == old([Add(hash[0], v.a), Add(hash[1], v.b), Add(hash[2], v.c), Add(hash[3], v.d),
                               Add(hash[4], v.e), Add(hash[5], v.f), Add(hash[6], v.g), Add(hash[7], v.h)])
    {
      hide Add;
      AddFour(0, v.a, v.b, v.c, v.d);
      AddFour(4, v.e, v.f, v.g, v.h);
    }

    /** Four of the eight additions. */
    method AddFour(i: nat, a: bv32, b: bv32, c: bv32, d: bv32)
      requires hash.Length == 8 && i <= 4
      modifies hash
      ensures hash[i] == Add(old(hash[i]), a) && hash[i + 1] == Add(old(hash[i + 1]), b)
      ensures hash[i + 2] == Add(old(hash[i + 2]), c) && hash[i + 3] == Add(old(hash[i + 3]), d)
      ensures forall k :: 0 <= k < 8 && !(i <= k < i + 4) ==> hash[k] == old(hash[k])
    {
      hide Add;
      hash[i] := Add(hash[i], a);
      hash[i + 1] := Add(hash[i + 1], b);
      hash[i + 2] := Add(hash[i + 2], c);
      hash[i + 3] := Add(hash[i + 3], d);
    }

    /** Copies bytes behind those in the buffer. */
    method CopyIn(data: seq<bv8>)
      requires buffer.Length == 64 && bufferLength + |data| <= 64
      modifies this`totalLength, this`bufferLength, buffer
      ensures totalLength == (old(totalLength) + 8 * |data|) % TWO_TO_THE_64
      ensures bufferLength == old(bufferLength) + |data|
      ensures buffer[..bufferLength] == old(buffer[..bufferLength]) + data
    {
      forall k | 0 <= k < |data| {
        buffer[bufferLength + k] := data[k];
      }
      totalLength := (totalLength + 8 * |data|) % TWO_TO_THE_64;
      bufferLength := bufferLength + |data|;
    }

    /** The first part of an update: tops up the buffer, and digests it if it gets full. */
    method TopUp(data: seq<bv8>) returns (bytesToCopy: nat)
      requires Valid() && bufferLength > 0
      modifies this, hash, buffer
      ensures Valid() && bytesToCopy <= |data| && message == old(message) + data[..bytesToCopy]
      ensures bytesToCopy < |data| ==> bufferLength == 0
    {
      hide Absorbed;
      hide Compress;
      var bufferBytesLeft := 64 - bufferLength;
      bytesToCopy := bufferBytesLeft;
      if bytesToCopy > |data| {
        bytesToCopy := |data|;
      }
      ghost var total, h, rest := totalLength, hash[..], buffer[..bufferLength];
      var piece := data[..bytesToCopy];
      CopyIn(piece);
      if bufferLength == 64 {
        AbsorbBlock(message, total, h, rest, piece);
        Guts(buffer[..64]);
        bufferLength := 0;
        assert buffer[..0] == [];
      } else {
        AbsorbSome(message, total, h, rest, piece);
      }
      message := message + piece;
    }

    /** A whole block straight from the data. */
    method TakeBlock(block: Block)
      requires Valid() && bufferLength == 0
      modifies this, hash
      ensures Valid() && bufferLength == 0 && message == old(message) + block
    {
      hide Absorbed;
      hide Compress;
      assert buffer[..0] + block == block && buffer[..0] == [];
      AbsorbBlock(message, totalLength, hash[..], buffer[..0], block);
      totalLength := (totalLength + 512) % TWO_TO_THE_64;
      Guts(block);
      message := message + block;
    }

    /** The second part: all whole blocks there are. */
    method TakeBlocks(data: seq<bv8>) returns (taken: nat)
      requires Valid() && (bufferLength > 0 ==> data == [])
      modifies this, hash
      ensures Valid() && |data| - 64 < taken <= |data| && bufferLength == old(bufferLength)
      ensures message == old(message) + data[..taken]
    {
      hide Valid;
      taken := 0;
      assert message + data[..0] == message;
      while |data| - taken > 63
        invariant 0 <= taken <= |data|
        invariant Valid() && bufferLength == old(bufferLength)
        invariant message == old(message) + data[..taken]
      {
        var block := data[taken..taken + 64];
        assert data[..taken] + block == data[..taken + 64];
        TakeBlock(block);
        taken := taken + 64;
      }
    }

    /** The last part: what does not fill a block is kept. */
    method KeepTail(tail: seq<bv8>)
      requires Valid() && bufferLength + |tail| < 64
      modifies this, buffer
      ensures Valid() && message == old(message) + tail
    {
      hide Absorbed;
      ghost var total, h, rest := totalLength, hash[..], buffer[..bufferLength];
      CopyIn(tail);
      AbsorbSome(message, total, h, rest, tail);
      message := message + tail;
    }

    /** Feeds in some more bytes. */
    method Update(data: seq<bv8>)
      requires Valid()
      modifies this, hash, buffer
      ensures Valid() && message == old(message) + data
    {
      hide Valid;
      var pos := 0;
      if bufferLength > 0 {
        pos := TopUp(data);
      }
      assert old(message) + data[..0] == old(message);
      var taken := TakeBlocks(data[pos..]);
      assert data[..pos] + data[pos..][..taken] == data[..pos + taken];
      pos := pos + taken;
      assert data[..pos] + data[pos..] == data;
      if pos < |data| {
        KeepTail(data[pos..]);
      }
    }

    /** The hash of everything fed in; only now is the destination written. */
    method Finalize(dest: array<bv8>)
      requires Valid() && dest.Length >= 32 && dest != buffer
      modifies this, hash, buffer, dest
      ensures dest[..32] == HashOf(old(message))
      ensures forall k :: 32 <= k < dest.Length ==> dest[k] == old(dest[k])
    {
      hide Absorbed;
      ghost var m := message;
      var bytesToPad := 120 - bufferLength;
      if bytesToPad > 64 {
        bytesToPad := bytesToPad - 64;
      }
      LengthIsPadded(m, totalLength, hash[..], buffer[..bufferLength], bytesToPad);
      var lengthPad := SwappedLength(totalLength);
      Update(([0x80] + Zeros(63))[..bytesToPad]);
      Update(lengthPad);
      AllDigested(m, message, totalLength, hash[..], buffer[..bufferLength]);
      WriteHash(dest);
    }

    method PutWord(dest: array<bv8>, at: nat, bytes: seq<bv8>)
      requires |bytes| == 4 && at + 4 <= dest.Length
      modifies dest
      ensures dest[..at + 4] == old(dest[..at]) + bytes
      ensures forall k :: at + 4 <= k < dest.Length ==> dest[k] == old(dest[k])
    {
      dest[at], dest[at + 1], dest[at + 2], dest[at + 3] := bytes[0], bytes[1], bytes[2], bytes[3];
    }

    method WriteHash(dest: array<bv8>)
      requires hash.Length == 8 && dest.Length >= 32
      modifies dest
      ensures dest[..32] == HashBytes(hash[..])
      ensures forall k :: 32 <= k < dest.Length ==> dest[k] == old(dest[k])
    {
      hide BytesOf;
      hide Store;
      hide ByteSwap;
      var i := 0;
      assert hash[..0] == [] && dest[..0] == [];
      while i < 8
        invariant 0 <= i <= 8
        invariant dest[..4 * i] == HashBytes(hash[..i])
        invariant forall k :: 4 * i <= k < dest.Length ==> dest[k] == old(dest[k])
      {
        var bytes := Store(ByteSwap(hash[i]));
        StoreSwapped(hash[i]);
        PutWord(dest, 4 * i, bytes);
        assert hash[..i + 1] == hash[..i] + [hash[i]];
        HashBytesNext(hash[..i], hash[i]);
        i := i + 1;
      }
      assert hash[..8] == hash[..];
    }
  }

  lemma {:induction false} HashBytesNext(h: seq<bv32>, w: bv32)
    ensures HashBytes(h + [w]) == HashBytes(h) + BytesOf(w)
    decreases |h|
  {
    hide BytesOf;
    if h == [] {
      assert h + [w] == [w] && [w][1..] == [];
      assert BytesOf(w) + [] == [] + BytesOf(w);
    } else {
      assert (h + [w])[1..] == h[1..] + [w];
      HashBytesNext(h[1..], w);
    }
  }

  /** The total length with its bytes reversed, as it lies in memory. */
  function SwappedLength(x: nat): (s: seq<bv8>)
    requires x < TWO_TO_THE_64
    ensures |s| == 8
  {
    var a, b := WordOf(x / TWO_TO_THE_32), WordOf(x % TWO_TO_THE_32);
    // (ByteSwap(b) << 32) | ByteSwap(a): the low half is stored first
    Store(ByteSwap(a)) + Store(ByteSwap(b))
  }

  lemma SwappedLengthIsBigEndian(m: seq<bv8>, total: nat, h: seq<bv32>, rest: seq<bv8>)
    requires Absorbed(m, total, h, rest)
    ensures total < TWO_TO_THE_64 && SwappedLength(total) == LengthBytes(|m|)
  {
    hide Digest;
    hide Store;
    hide ByteSwap;
    hide BytesOf;
    hide WordOf;
    StoreSwapped(WordOf(total / TWO_TO_THE_32));
    StoreSwapped(WordOf(total % TWO_TO_THE_32));
  }

  /** Reversed and stored, the length is in big-endian order, and there is as much padding as there should be. */
  lemma LengthIsPadded(m: seq<bv8>, total: nat, h: seq<bv32>, rest: seq<bv8>, bytesToPad: nat)
    requires Absorbed(m, total, h, rest)
    requires bytesToPad == (if 120 - |rest| > 64 then 56 - |rest| else 120 - |rest|)
    ensures total < TWO_TO_THE_64 && 1 <= bytesToPad <= 64
    ensures m + ([0x80] + Zeros(63))[..bytesToPad] + SwappedLength(total) == m + Padding(|m|)
  {
    hide Digest;
    hide SwappedLength;
    hide LengthBytes;
    SwappedLengthIsBigEndian(m, total, h, rest);
    assert bytesToPad == 1 + ZeroCount(|m|);
    assert ([0x80] + Zeros(63))[..bytesToPad] == [0x80] + Zeros(ZeroCount(|m|));
    assert m + ([0x80] + Zeros(ZeroCount(|m|))) + LengthBytes(|m|)
      == m + ([0x80] + Zeros(ZeroCount(|m|)) + LengthBytes(|m|));
  }

  lemma AllDigested(m: seq<bv8>, padded: seq<bv8>, total: nat, h: seq<bv32>, rest: seq<bv8>)
    requires Absorbed(padded, total, h, rest) && padded == m + Padding(|m|)
    ensures HashBytes(h) == HashOf(m)
  {
    hide Digest;
    hide HashBytes;
    hide Padding;
    PaddingFits(|m|);
    assert padded[..|padded|] == padded;
  }

  /** The one-shot function; input and destination may be the same array. */
  method ComputeSha256(input: array<bv8>, size: nat, dest: array<bv8>)
    requires size <= input.Length && dest.Length >= 32
    modifies dest
    ensures dest[..32] == HashOf(old(input[..size]))
    ensures forall k :: 32 <= k < dest.Length ==> dest[k] == old(dest[k])
  {
    hide *;
    var sc := new Context();
    sc.Update(input[..size]);
    assert [] + old(input[..size]) == old(input[..size]);
    sc.Finalize(dest);
  }

  /** A hash hashed again in place, as addresses and transactions do it. */
  method HashAgain(hash1: array<bv8>)
    requires hash1.Length == 32
    modifies hash1
    ensures hash1[..] == HashOf(old(hash1[..]))
  {
    hide HashOf;
    assert hash1[..32] == hash1[..];
    ComputeSha256(hash1, 32, hash1);
    assert hash1[..32] == hash1[..];
  }

  function Flatten(pieces: seq<seq<bv8>>): seq<bv8> {
    if pieces == [] then [] else Flatten(pieces[..|pieces| - 1]) + pieces[|pieces| - 1]
  }

  /** However a message is cut into updates, the hash is that of the whole. */
  method HashPieces(pieces: seq<seq<bv8>>, dest: array<bv8>)
    requires dest.Length >= 32
    modifies dest
    ensures dest[..32] == HashOf(Flatten(pieces))
  {
    hide Context.Valid;
    hide HashOf;
    var sc := new Context();
    var i := 0;
    while i < |pieces|
      invariant 0 <= i <= |pieces|
      invariant sc.Valid() && fresh(sc) && fresh(sc.hash) && fresh(sc.buffer)
      invariant sc.message == Flatten(pieces[..i])
    {
      assert pieces[..i + 1][..i] == pieces[..i];
      sc.Update(pieces[i]);
      i := i + 1;
    }
    assert pieces[..|pieces|] == pieces;
    sc.Finalize(dest);
  }
}
