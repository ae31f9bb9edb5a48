/**
 SHA-256 as FIPS 180-4 defines it: the functions of section 4.1.2, the padding of section 5.1.1 and
 the computation of section 6.2.2, on messages of whole bytes.
 */
module Sha256 {
  import opened Word

  // ---------------------------------------------------------------------------------------------
  // Words

  function Add(x: bv32, y: bv32): bv32 {
    x + y
  }

  function Rotr(x: bv32, n: bv6): bv32
    requires 0 < n < 32
  {
    (x >> n) | (x << (32 - n))
  }

  /** The bits of y where x is set, of z elsewhere. */
  function Choose(x: bv32, y: bv32, z: bv32): bv32 {
    (x & y) ^ (!x & z)
  }

  function Majority(x: bv32, y: bv32, z: bv32): bv32 {
    (x & y) ^ (x & z) ^ (y & z)
  }

  function BigSigma0(x: bv32): bv32 {
    Rotr(x, 2) ^ Rotr(x, 13) ^ Rotr(x, 22)
  }

  function BigSigma1(x: bv32): bv32 {
    Rotr(x, 6) ^ Rotr(x, 11) ^ Rotr(x, 25)
  }

  function SmallSigma0(x: bv32): bv32 {
    Rotr(x, 7) ^ Rotr(x, 18) ^ (x >> 3)
  }

  function SmallSigma1(x: bv32): bv32 {
    Rotr(x, 17) ^ Rotr(x, 19) ^ (x >> 10)
  }

  const K_0: seq<bv32> := [
    0x428a2f98, 0x71374491, 0xb5c0fbcf, 0xe9b5dba5, 0x3956c25b, 0x59f111f1, 0x923f82a4, 0xab1c5ed5,
    0xd807aa98, 0x12835b01, 0x243185be, 0x550c7dc3, 0x72be5d74, 0x80deb1fe, 0x9bdc06a7, 0xc19bf174]
  const K_1: seq<bv32> := [
    0xe49b69c1, 0xefbe4786, 0x0fc19dc6, 0x240ca1cc, 0x2de92c6f, 0x4a7484aa, 0x5cb0a9dc, 0x76f988da,
    0x983e5152, 0xa831c66d, 0xb00327c8, 0xbf597fc7, 0xc6e00bf3, 0xd5a79147, 0x06ca6351, 0x14292967]
  const K_2: seq<bv32> := [
    0x27b70a85, 0x2e1b2138, 0x4d2c6dfc, 0x53380d13, 0x650a7354, 0x766a0abb, 0x81c2c92e, 0x92722c85,
    0xa2bfe8a1, 0xa81a664b, 0xc24b8b70, 0xc76c51a3, 0xd192e819, 0xd6990624, 0xf40e3585, 0x106aa070]
  const K_3: seq<bv32> := [
    0x19a4c116, 0x1e376c08, 0x2748774c, 0x34b0bcb5, 0x391c0cb3, 0x4ed8aa4a, 0x5b9cca4f, 0x682e6ff3,
    0x748f82ee, 0x78a5636f, 0x84c87814, 0x8cc70208, 0x90befffa, 0xa4506ceb, 0xbef9a3f7, 0xc67178f2]

  /** The constant of a round. */
  function K(t: nat): bv32
    requires t < 64
  {
    if t < 16 then K_0[t] else if t < 32 then K_1[t - 16] else if t < 48 then K_2[t - 32] else K_3[t - 48]
  }

  const INITIAL: seq<bv32> := [
    0x6a09e667, 0xbb67ae85, 0x3c6ef372, 0xa54ff53a, 0x510e527f, 0x9b05688c, 0x1f83d9ab, 0x5be0cd19]

  /** A word from four bytes, the highest first. */
  function BigEndian(a: bv8, b: bv8, c: bv8, d: bv8): bv32 {
    ((a as bv32) << 24) | ((b as bv32) << 16) | ((c as bv32) << 8) | (d as bv32)
  }

  /** The four bytes of a word, the highest first. */
  function BytesOf(w: bv32): (s: seq<bv8>)
    ensures |s| == 4
  {
    [(w >> 24) as bv8, ((w >> 16) & 0xFF) as bv8, ((w >> 8) & 0xFF) as bv8, (w & 0xFF) as bv8]
  }

  // ---------------------------------------------------------------------------------------------
  // Where the constants come from

  const PRIMES_0: seq<nat> := [2, 3, 5, 7, 11, 13, 17, 19, 23, 29, 31, 37, 41, 43, 47, 53]
  const PRIMES_1: seq<nat> := [59, 61, 67, 71, 73, 79, 83, 89, 97, 101, 103, 107, 109, 113, 127, 131]
  const PRIMES_2: seq<nat> := [137, 139, 149, 151, 157, 163, 167, 173, 179, 181, 191, 193, 197, 199, 211, 223]
  const PRIMES_3: seq<nat> := [227, 229, 233, 239, 241, 251, 257, 263, 269, 271, 277, 281, 283, 293, 307, 311]

  function Prime(t: nat): nat
    requires t < 64
  {
    if t < 16 then PRIMES_0[t]
    else if t < 32 then PRIMES_1[t - 16]
    else if t < 48 then PRIMES_2[t - 32]
    else PRIMES_3[t - 48]
  }

  function Square(n: int): int {
    n * n
  }

  function Cube(n: int): int {
    n * n * n
  }

  /** k holds the first 32 bits of the fractional part of the square root of p, whose whole part is given. */
  predicate SquareRootBits(p: nat, whole: nat, k: bv32) {
    var n := whole * 0x1_0000_0000 + k as int;
    Square(n) <= p * 0x1_0000_0000_0000_0000 < Square(n + 1)
  }

  /** Likewise for the cube root. */
  predicate CubeRootBits(p: nat, whole: nat, k: bv32) {
    var n := whole * 0x1_0000_0000 + k as int;
    Cube(n) <= p * 0x1_0000_0000_0000_0000_0000_0000 < Cube(n + 1)
  }

  function CubeRootWhole(p: nat): nat {
    if p < 8 then 1 else if p < 27 then 2 else if p < 64 then 3 else if p < 125 then 4 else if p < 216 then 5 else 6
  }

  lemma Roots0(t: nat)
    requires 0 <= t < 8
    ensures CubeRootBits(Prime(t), CubeRootWhole(Prime(t)), K(t))
  {
    if t < 4 {
      assert t == 0 || t == 1 || t == 2 || t == 3;
    } else {
      assert t == 4 || t == 5 || t == 6 || t == 7;
    }
  }

  lemma Roots1(t: nat)
    requires 8 <= t < 16
    ensures CubeRootBits(Prime(t), CubeRootWhole(Prime(t)), K(t))
  {
    if t < 12 {
      assert t == 8 || t == 9 || t == 10 || t == 11;
    } else {
      assert t == 12 || t == 13 || t == 14 || t == 15;
    }
  }

  lemma Roots2(t: nat)
    requires 16 <= t < 24
    ensures CubeRootBits(Prime(t), CubeRootWhole(Prime(t)), K(t))
  {
    if t < 20 {
      assert t == 16 || t == 17 || t == 18 || t == 19;
    } else {
      assert t == 20 || t == 21 || t == 22 || t == 23;
    }
  }

  lemma Roots3(t: nat)
    requires 24 <= t < 32
    ensures CubeRootBits(Prime(t), CubeRootWhole(Prime(t)), K(t))
  {
    if t < 28 {
      assert t == 24 || t == 25 || t == 26 || t == 27;
    } else {
      assert t == 28 || t == 29 || t == 30 || t == 31;
    }
  }

  lemma Roots4(t: nat)
    requires 32 <= t < 40
    ensures CubeRootBits(Prime(t), CubeRootWhole(Prime(t)), K(t))
  {
    if t < 36 {
      assert t == 32 || t == 33 || t == 34 || t == 35;
    } else {
      assert t == 36 || t == 37 || t == 38 || t == 39;
    }
  }

  lemma Roots5(t: nat)
    requires 40 <= t < 48
    ensures CubeRootBits(Prime(t), CubeRootWhole(Prime(t)), K(t))
  {
    if t < 44 {
      assert t == 40 || t == 41 || t == 42 || t == 43;
    } else {
      assert t == 44 || t == 45 || t == 46 || t == 47;
    }
  }

  lemma Roots6(t: nat)
    requires 48 <= t < 56
    ensures CubeRootBits(Prime(t), CubeRootWhole(Prime(t)), K(t))
  {
    if t < 52 {
      assert t == 48 || t == 49 || t == 50 || t == 51;
    } else {
      assert t == 52 || t == 53 || t == 54 || t == 55;
    }
  }

  lemma Roots7(t: nat)
    requires 56 <= t < 64
    ensures CubeRootBits(Prime(t), CubeRootWhole(Prime(t)), K(t))
  {
    if t < 60 {
      assert t == 56 || t == 57 || t == 58 || t == 59;
    } else {
      assert t == 60 || t == 61 || t == 62 || t == 63;
    }
  }

  /** Section 4.2.2: the round constants are the cube roots of the listed primes, their whole parts cut off. */
  lemma ConstantsAreCubeRoots(t: nat)
    requires t < 64
    ensures CubeRootBits(Prime(t), CubeRootWhole(Prime(t)), K(t))
  {
    hide *;
    if t < 32 {
      if t < 8 { Roots0(t); } else if t < 16 { Roots1(t); } else if t < 24 { Roots2(t); } else { Roots3(t); }
    } else {
      if t < 40 { Roots4(t); } else if t < 48 { Roots5(t); } else if t < 56 { Roots6(t); } else { Roots7(t); }
    }
  }

  /** Section 5.3.3: the initial hash holds the square roots of the first eight listed primes, likewise. */
  lemma InitialIsSquareRoots(i: nat)
    requires i < 8
    ensures SquareRootBits(Prime(i), i / 2 + 1, INITIAL[i])
  {
  }

  // ---------------------------------------------------------------------------------------------
  // One block

  type Block = b: seq<bv8> | |b| == 64 witness seq(64, i => 0)

  type State = h: seq<bv32> | |h| == 8 witness INITIAL

  /** The message schedule. */
  function W(block: Block, t: nat): bv32
    requires t < 64
  {
    if t < 16 then BigEndian(block[4 * t], block[4 * t + 1], block[4 * t + 2], block[4 * t + 3])
    else Add(Add(Add(SmallSigma1(W(block, t - 2)), W(block, t - 7)), SmallSigma0(W(block, t - 15))), W(block, t - 16))
  }

  /** The eight working variables. */
  datatype Vars = Vars(a: bv32, b: bv32, c: bv32, d: bv32, e: bv32, f: bv32, g: bv32, h: bv32)

  function Round(v: Vars, k: bv32, w: bv32): Vars {
    var t1 := Add(Add(Add(Add(v.h, BigSigma1(v.e)), Choose(v.e, v.f, v.g)), k), w);
    var t2 := Add(BigSigma0(v.a), Majority(v.a, v.b, v.c));
    Vars(Add(t1, t2), v.a, v.b, v.c, Add(v.d, t1), v.e, v.f, v.g)
  }

  /** The variables after t rounds. */
  function Rounds(h: State, block: Block, t: nat): Vars
    requires t <= 64
  {
    if t == 0 then Vars(h[0], h[1], h[2], h[3], h[4], h[5], h[6], h[7])
    else Round(Rounds(h, block, t - 1), K(t - 1), W(block, t - 1))
  }

  function Compress(h: State, block: Block): State {
    var v := Rounds(h, block, 64);
    [Add(h[0], v.a), Add(h[1], v.b), Add(h[2], v.c), Add(h[3], v.d),
     Add(h[4], v.e), Add(h[5], v.f), Add(h[6], v.g), Add(h[7], v.h)]
  }

  // ---------------------------------------------------------------------------------------------
  // Whole messages

  /** Folds the compression over consecutive blocks. */
  function Digest(h: State, bytes: seq<bv8>): State
    requires |bytes| % 64 == 0
    decreases |bytes|
  {
    if bytes == [] then h else Digest(Compress(h, bytes[..64]), bytes[64..])
  }

  function Zeros(n: nat): (s: seq<bv8>)
    ensures |s| == n
  {
    seq(n, i => 0)
  }

  /** How many zero bytes follow the byte 0x80 after n message bytes: the fewest that leave room for the length. */
  function ZeroCount(n: nat): nat {
    (119 - n % 64) % 64
  }

  function AppendBit(x: bv8, bit: nat): bv8 {
    if bit == 0 then x << 1 else (x << 1) | 1
  }

  /** The low eight bits of a number. */
  function ByteOf(n: nat): bv8 {
    if n == 0 then 0 else AppendBit(ByteOf(n / 2), n % 2)
  }

  function WordOf(n: nat): bv32
    requires n < TWO_TO_THE_32
  {
    BigEndian(ByteOf(n / 0x100_0000), ByteOf(n / 0x1_0000), ByteOf(n / 0x100), ByteOf(n))
  }

  /** The message length in bits, as 64 bits, high byte first. */
  function LengthBytes(n: nat): (s: seq<bv8>)
    ensures |s| == 8
  {
    var bits := 8 * n % TWO_TO_THE_64;
    BytesOf(WordOf(bits / TWO_TO_THE_32)) + BytesOf(WordOf(bits % TWO_TO_THE_32))
  }

  function Padding(n: nat): seq<bv8> {
    [0x80] + Zeros(ZeroCount(n)) + LengthBytes(n)
  }

  /** Bytes as a number, high byte first. */
  function NumberOf(bytes: seq<bv8>): nat {
    if bytes == [] then 0 else 256 * NumberOf(bytes[..|bytes| - 1]) + bytes[|bytes| - 1] as nat
  }

  lemma BytesOfBigEndian(a: bv8, b: bv8, c: bv8, d: bv8)
    ensures BytesOf(BigEndian(a, b, c, d)) == [a, b, c, d]
  {
  }

  lemma ShiftIsDouble(x: bv8)
    ensures (x << 1) as nat == if x as nat < 128 then 2 * x as nat else 2 * x as nat - 256
  {
    hide *;
  }

  lemma NextIsOneMore(x: bv8)
    ensures ((x << 1) | 1) as nat == (x << 1) as nat + 1
  {
    hide *;
  }

  lemma AppendBitIsNumber(x: bv8, bit: nat)
    requires bit < 2
    ensures AppendBit(x, bit) as nat == (if x as nat < 128 then 2 * x as nat else 2 * x as nat - 256) + bit
  {
    ShiftIsDouble(x);
    NextIsOneMore(x);
  }

  lemma Halves(n: nat)
    ensures n % 256 == (if n / 2 % 256 < 128 then 2 * (n / 2 % 256) else 2 * (n / 2 % 256) - 256) + n % 2
  {
  }

  lemma {:induction false} ByteIsNumber(n: nat)
    ensures ByteOf(n) as nat == n % 256
  {
    hide AppendBit;
    if n > 0 {
      ByteIsNumber(n / 2);
      AppendBitIsNumber(ByteOf(n / 2), n % 2);
      Halves(n);
    }
  }

  lemma NumberOfMore(high: seq<bv8>, last: bv8)
    ensures NumberOf(high + [last]) == 256 * NumberOf(high) + last as nat
  {
    assert (high + [last])[..|high|] == high;
  }

  lemma NumberOfFour(high: seq<bv8>, a: bv8, b: bv8, c: bv8, d: bv8)
    ensures NumberOf(high + [a, b, c, d])
         == TWO_TO_THE_32 * NumberOf(high) + 0x100_0000 * a as nat + 0x1_0000 * b as nat + 0x100 * c as nat + d as nat
  {
    hide NumberOf;
    NumberOfMore(high, a);
    NumberOfMore(high + [a], b);
    NumberOfMore(high + [a] + [b], c);
    NumberOfMore(high + [a] + [b] + [c], d);
    assert high + [a] + [b] + [c] + [d] == high + [a, b, c, d];
  }

  lemma WordIsFourBytes(n: nat)
    requires n < TWO_TO_THE_32
    ensures BytesOf(WordOf(n)) == [ByteOf(n / 0x100_0000), ByteOf(n / 0x1_0000), ByteOf(n / 0x100), ByteOf(n)]
  {
    hide ByteOf, BytesOf, BigEndian;
    BytesOfBigEndian(ByteOf(n / 0x100_0000), ByteOf(n / 0x1_0000), ByteOf(n / 0x100), ByteOf(n));
  }

  lemma FourDigits(n: nat, a: nat, b: nat, c: nat)
    requires n < TWO_TO_THE_32 && a == n / 0x100_0000 && b == n / 0x1_0000 && c == n / 0x100
    ensures 0x100_0000 * (a % 256) + 0x1_0000 * (b % 256) + 0x100 * (c % 256) + n % 256 == n
  {
    assert a % 256 == a;
    assert b == 256 * a + b % 256;
    assert c == 256 * b + c % 256;
  }

  lemma FourBytes(high: seq<bv8>, n: nat)
    requires n < TWO_TO_THE_32
    ensures NumberOf(high + BytesOf(WordOf(n))) == TWO_TO_THE_32 * NumberOf(high) + n
  {
    hide *;
    var a, b, c := n / 0x100_0000, n / 0x1_0000, n / 0x100;
    WordIsFourBytes(n);
    NumberOfFour(high, ByteOf(a), ByteOf(b), ByteOf(c), ByteOf(n));
    ByteIsNumber(a);
    ByteIsNumber(b);
    ByteIsNumber(c);
    ByteIsNumber(n);
    FourDigits(n, a, b, c);
  }

  /** The last eight bytes are the length in bits, modulo 2^64. */
  lemma LengthIsNumber(n: nat)
    ensures NumberOf(LengthBytes(n)) == 8 * n % TWO_TO_THE_64
  {
    hide BytesOf;
    hide WordOf;
    var bits := 8 * n % TWO_TO_THE_64;
    FourBytes([], bits / TWO_TO_THE_32);
    assert [] + BytesOf(WordOf(bits / TWO_TO_THE_32)) == BytesOf(WordOf(bits / TWO_TO_THE_32));
    FourBytes(BytesOf(WordOf(bits / TWO_TO_THE_32)), bits % TWO_TO_THE_32);
  }

  /** Section 5.1.1: a one bit, zero bits, and the length in bits as 64 bits, high byte first. */
  lemma PaddingMeaning(n: nat)
    ensures var p := Padding(n);
      && 9 <= |p| <= 72 && p[0] == 0x80
      && (forall i :: 1 <= i < |p| - 8 ==> p[i] == 0)
      && NumberOf(p[|p| - 8..]) == 8 * n % TWO_TO_THE_64
  {
    hide LengthBytes;
    hide NumberOf;
    LengthIsNumber(n);
    var p := Padding(n);
    assert p[|p| - 8..] == LengthBytes(n);
  }

  lemma Rounded(q: nat, r: nat)
    requires r < 64
    ensures (64 * q + r + 9 + (119 - r) % 64) % 64 == 0
  {
    if r <= 55 {
      assert 64 * q + r + 9 + (55 - r) == 64 * (q + 1);
    } else {
      assert 64 * q + r + 9 + (119 - r) == 64 * (q + 2);
    }
  }

  /** The padding completes a block. */
  lemma PaddingFits(n: nat)
    ensures (n + |Padding(n)|) % 64 == 0
  {
    Rounded(n / 64, n % 64);
  }

  /** No fewer zero bytes would do. */
  lemma PaddingIsLeast(n: nat, z: nat)
    requires (n + 1 + z + 8) % 64 == 0
    ensures z >= ZeroCount(n)
  {
    var q, r, k := n / 64, n % 64, (n + 9 + z) / 64;
    Least(q, r, z, k);
  }

  lemma Least(q: nat, r: nat, z: nat, k: nat)
    requires r < 64 && 64 * q + r + 9 + z == 64 * k
    ensures z >= (119 - r) % 64
  {
  }

  function HashBytes(h: seq<bv32>): seq<bv8> {
    if h == [] then [] else BytesOf(h[0]) + HashBytes(h[1..])
  }

  lemma PaddedFits(message: seq<bv8>)
    ensures |message + Padding(|message|)| % 64 == 0
  {
    hide Padding;
    PaddingFits(|message|);
  }

  function HashOf(message: seq<bv8>): seq<bv8> {
    PaddedFits(message);
    HashBytes(Digest(INITIAL, message + Padding(|message|)))
  }

  /** Blocks can be digested in any portions. */
  lemma {:induction false} DigestConcat(h: State, a: seq<bv8>, b: seq<bv8>)
    requires |a| % 64 == 0 && |b| % 64 == 0
    ensures Digest(h, a + b) == Digest(Digest(h, a), b)
    decreases |a|
  {
    hide Compress;
    if a == [] {
      assert a + b == b;
    } else {
      assert (a + b)[..64] == a[..64] && (a + b)[64..] == a[64..] + b;
      DigestConcat(Compress(h, a[..64]), a[64..], b);
    }
  }

  lemma DigestBlock(h: State, a: seq<bv8>, block: Block)
    requires |a| % 64 == 0
    ensures Digest(h, a + block) == Compress(Digest(h, a), block)
  {
    hide Compress;
    DigestConcat(h, a, block);
    assert block[..64] == block && block[64..] == [];
  }
}
