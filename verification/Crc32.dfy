/**
 The table-driven CRC-32 of src/CRC32.cpp, and the division of polynomials over two elements that it
 stands for: the register holds a remainder, lowest power in the highest bit.
 */
module Crc32 {

  const POLYNOMIAL: bv32 := 0xEDB88320

  function Xor(a: bv32, b: bv32): bv32 {
    a ^ b
  }

  predicate Odd(r: bv32) {
    r & 1 == 1
  }

  function Half(r: bv32): bv32 {
    r >> 1
  }

  /** Multiplies the remainder by x. */
  function Step(r: bv32): bv32 {
    if Odd(r) then Xor(Half(r), POLYNOMIAL) else Half(r)
  }

  function Bit(b: bool): bv32 {
    if b then 1 else 0
  }

  /** The remainder after some more message bits, one at a time. */
  function Remainder(bits: seq<bool>, seed: bv32): bv32 {
    if bits == [] then seed else Remainder(bits[1..], Step(Xor(seed, Bit(bits[0]))))
  }

  predicate HasBit(byte: bv8, mask: bv8) {
    byte & mask != 0
  }

  /** The bits of a byte in the order they count, low bit first. */
  function BitsOf(byte: bv8): seq<bool> {
    [HasBit(byte, 0x01), HasBit(byte, 0x02), HasBit(byte, 0x04), HasBit(byte, 0x08),
     HasBit(byte, 0x10), HasBit(byte, 0x20), HasBit(byte, 0x40), HasBit(byte, 0x80)]
  }

  function Bits(bytes: seq<bv8>): seq<bool> {
    if bytes == [] then [] else BitsOf(bytes[0]) + Bits(bytes[1..])
  }

  // ---------------------------------------------------------------------------------------------
  // The table

  const ROW_0: seq<bv32> := [
    0x00000000, 0x77073096, 0xee0e612c, 0x990951ba, 0x076dc419, 0x706af48f, 0xe963a535, 0x9e6495a3,
    0x0edb8832, 0x79dcb8a4, 0xe0d5e91e, 0x97d2d988, 0x09b64c2b, 0x7eb17cbd, 0xe7b82d07, 0x90bf1d91]
  const ROW_1: seq<bv32> := [
    0x1db71064, 0x6ab020f2, 0xf3b97148, 0x84be41de, 0x1adad47d, 0x6ddde4eb, 0xf4d4b551, 0x83d385c7,
    0x136c9856, 0x646ba8c0, 0xfd62f97a, 0x8a65c9ec, 0x14015c4f, 0x63066cd9, 0xfa0f3d63, 0x8d080df5]
  const ROW_2: seq<bv32> := [
    0x3b6e20c8, 0x4c69105e, 0xd56041e4, 0xa2677172, 0x3c03e4d1, 0x4b04d447, 0xd20d85fd, 0xa50ab56b,
    0x35b5a8fa, 0x42b2986c, 0xdbbbc9d6, 0xacbcf940, 0x32d86ce3, 0x45df5c75, 0xdcd60dcf, 0xabd13d59]
  const ROW_3: seq<bv32> := [
    0x26d930ac, 0x51de003a, 0xc8d75180, 0xbfd06116, 0x21b4f4b5, 0x56b3c423, 0xcfba9599, 0xb8bda50f,
    0x2802b89e, 0x5f058808, 0xc60cd9b2, 0xb10be924, 0x2f6f7c87, 0x58684c11, 0xc1611dab, 0xb6662d3d]
  const ROW_4: seq<bv32> := [
    0x76dc4190, 0x01db7106, 0x98d220bc, 0xefd5102a, 0x71b18589, 0x06b6b51f, 0x9fbfe4a5, 0xe8b8d433,
    0x7807c9a2, 0x0f00f934, 0x9609a88e, 0xe10e9818, 0x7f6a0dbb, 0x086d3d2d, 0x91646c97, 0xe6635c01]
  const ROW_5: seq<bv32> := [
    0x6b6b51f4, 0x1c6c6162, 0x856530d8, 0xf262004e, 0x6c0695ed, 0x1b01a57b, 0x8208f4c1, 0xf50fc457,
    0x65b0d9c6, 0x12b7e950, 0x8bbeb8ea, 0xfcb9887c, 0x62dd1ddf, 0x15da2d49, 0x8cd37cf3, 0xfbd44c65]
  const ROW_6: seq<bv32> := [
    0x4db26158, 0x3ab551ce, 0xa3bc0074, 0xd4bb30e2, 0x4adfa541, 0x3dd895d7, 0xa4d1c46d, 0xd3d6f4fb,
    0x4369e96a, 0x346ed9fc, 0xad678846, 0xda60b8d0, 0x44042d73, 0x33031de5, 0xaa0a4c5f, 0xdd0d7cc9]
  const ROW_7: seq<bv32> := [
    0x5005713c, 0x270241aa, 0xbe0b1010, 0xc90c2086, 0x5768b525, 0x206f85b3, 0xb966d409, 0xce61e49f,
    0x5edef90e, 0x29d9c998, 0xb0d09822, 0xc7d7a8b4, 0x59b33d17, 0x2eb40d81, 0xb7bd5c3b, 0xc0ba6cad]
  const ROW_8: seq<bv32> := [
    0xedb88320, 0x9abfb3b6, 0x03b6e20c, 0x74b1d29a, 0xead54739, 0x9dd277af, 0x04db2615, 0x73dc1683,
    0xe3630b12, 0x94643b84, 0x0d6d6a3e, 0x7a6a5aa8, 0xe40ecf0b, 0x9309ff9d, 0x0a00ae27, 0x7d079eb1]
  const ROW_9: seq<bv32> := [
    0xf00f9344, 0x8708a3d2, 0x1e01f268, 0x6906c2fe, 0xf762575d, 0x806567cb, 0x196c3671, 0x6e6b06e7,
    0xfed41b76, 0x89d32be0, 0x10da7a5a, 0x67dd4acc, 0xf9b9df6f, 0x8ebeeff9, 0x17b7be43, 0x60b08ed5]
  const ROW_A: seq<bv32> := [
    0xd6d6a3e8, 0xa1d1937e, 0x38d8c2c4, 0x4fdff252, 0xd1bb67f1, 0xa6bc5767, 0x3fb506dd, 0x48b2364b,
    0xd80d2bda, 0xaf0a1b4c, 0x36034af6, 0x41047a60, 0xdf60efc3, 0xa867df55, 0x316e8eef, 0x4669be79]
  const ROW_B: seq<bv32> := [
    0xcb61b38c, 0xbc66831a, 0x256fd2a0, 0x5268e236, 0xcc0c7795, 0xbb0b4703, 0x220216b9, 0x5505262f,
    0xc5ba3bbe, 0xb2bd0b28, 0x2bb45a92, 0x5cb36a04, 0xc2d7ffa7, 0xb5d0cf31, 0x2cd99e8b, 0x5bdeae1d]
  const ROW_C: seq<bv32> := [
    0x9b64c2b0, 0xec63f226, 0x756aa39c, 0x026d930a, 0x9c0906a9, 0xeb0e363f, 0x72076785, 0x05005713,
    0x95bf4a82, 0xe2b87a14, 0x7bb12bae, 0x0cb61b38, 0x92d28e9b, 0xe5d5be0d, 0x7cdcefb7, 0x0bdbdf21]
  const ROW_D: seq<bv32> := [
    0x86d3d2d4, 0xf1d4e242, 0x68ddb3f8, 0x1fda836e, 0x81be16cd, 0xf6b9265b, 0x6fb077e1, 0x18b74777,
    0x88085ae6, 0xff0f6a70, 0x66063bca, 0x11010b5c, 0x8f659eff, 0xf862ae69, 0x616bffd3, 0x166ccf45]
  const ROW_E: seq<bv32> := [
    0xa00ae278, 0xd70dd2ee, 0x4e048354, 0x3903b3c2, 0xa7672661, 0xd06016f7, 0x4969474d, 0x3e6e77db,
    0xaed16a4a, 0xd9d65adc, 0x40df0b66, 0x37d83bf0, 0xa9bcae53, 0xdebb9ec5, 0x47b2cf7f, 0x30b5ffe9]
  const ROW_F: seq<bv32> := [
    0xbdbdf21c, 0xcabac28a, 0x53b39330, 0x24b4a3a6, 0xbad03605, 0xcdd70693, 0x54de5729, 0x23d967bf,
    0xb3667a2e, 0xc4614ab8, 0x5d681b02, 0x2a6f2b94, 0xb40bbe37, 0xc30c8ea1, 0x5a05df1b, 0x2d02ef8d]

  /** The table, row by row. */
  function Row(k: nat): (r: seq<bv32>)
    requires k < 16
    ensures |r| == 16
  {
    if k < 8 then
      if k == 0 then ROW_0 else if k == 1 then ROW_1 else if k == 2 then ROW_2 else if k == 3 then ROW_3
      else if k == 4 then ROW_4 else if k == 5 then ROW_5 else if k == 6 then ROW_6 else ROW_7
    else
      if k == 8 then ROW_8 else if k == 9 then ROW_9 else if k == 10 then ROW_A else if k == 11 then ROW_B
      else if k == 12 then ROW_C else if k == 13 then ROW_D else if k == 14 then ROW_E else ROW_F
  }

  function Table(i: bv8): bv32 {
    Row(i as nat / 16)[i as nat % 16]
  }

  /** Eight steps at once. */
  function Steps8(r: bv32): bv32 {
    Step(Step(Step(Step(Step(Step(Step(Step(r))))))))
  }

  lemma LowEntries0()
    ensures Steps8(0) == ROW_0[0] && Steps8(1) == ROW_0[1] && Steps8(2) == ROW_0[2] && Steps8(3) == ROW_0[3]
  {
    hide Step;
    StepZero();
    LowEntry1();
    LowEntry2();
    LowEntry3();
  }

  lemma StepZero()
    ensures Step(0) == 0
  {
  }

  lemma LowEntry1()
    ensures Steps8(1) == ROW_0[1]
  {
  }

  lemma LowEntry2()
    ensures Steps8(2) == ROW_0[2]
  {
  }

  lemma LowEntry3()
    ensures Steps8(3) == ROW_0[3]
  {
  }

  lemma LowEntries1()
    ensures Steps8(4) == ROW_0[4] && Steps8(5) == ROW_0[5] && Steps8(6) == ROW_0[6] && Steps8(7) == ROW_0[7]
  {
  }

  lemma LowEntries2()
    ensures Steps8(8) == ROW_0[8] && Steps8(9) == ROW_0[9] && Steps8(10) == ROW_0[10] && Steps8(11) == ROW_0[11]
  {
  }

  lemma LowEntries3()
    ensures Steps8(12) == ROW_0[12] && Steps8(13) == ROW_0[13] && Steps8(14) == ROW_0[14] && Steps8(15) == ROW_0[15]
  {
  }

  lemma HighEntries0()
    ensures Steps8(0x00) == ROW_0[0] && Steps8(0x10) == ROW_1[0] && Steps8(0x20) == ROW_2[0] && Steps8(0x30) == ROW_3[0]
  {
  }

  lemma HighEntries1()
    ensures Steps8(0x40) == ROW_4[0] && Steps8(0x50) == ROW_5[0] && Steps8(0x60) == ROW_6[0] && Steps8(0x70) == ROW_7[0]
  {
  }

  lemma HighEntries2()
    ensures Steps8(0x80) == ROW_8[0] && Steps8(0x90) == ROW_9[0] && Steps8(0xA0) == ROW_A[0] && Steps8(0xB0) == ROW_B[0]
  {
  }

  lemma HighEntries3()
    ensures Steps8(0xC0) == ROW_C[0] && Steps8(0xD0) == ROW_D[0] && Steps8(0xE0) == ROW_E[0] && Steps8(0xF0) == ROW_F[0]
  {
  }

  lemma LowEntry(l: bv8)
    requires l < 16
    ensures ROW_0[l as nat] == Steps8(l as bv32)
  {
    hide Steps8;
    if l < 8 {
      LowEntries0();
      LowEntries1();
      assert l == 0 || l == 1 || l == 2 || l == 3 || l == 4 || l == 5 || l == 6 || l == 7;
    } else {
      LowEntries2();
      LowEntries3();
      assert l == 8 || l == 9 || l == 10 || l == 11 || l == 12 || l == 13 || l == 14 || l == 15;
    }
  }

  lemma HighEntry(h: bv8)
    requires h < 16
    ensures Row(h as nat)[0] == Steps8((h as bv32) << 4)
  {
    hide Steps8;
    if h < 8 {
      HighEntries0();
      HighEntries1();
      assert h == 0 || h == 1 || h == 2 || h == 3 || h == 4 || h == 5 || h == 6 || h == 7;
    } else {
      HighEntries2();
      HighEntries3();
      assert h == 8 || h == 9 || h == 10 || h == 11 || h == 12 || h == 13 || h == 14 || h == 15;
    }
  }

  /** The entries differ from those of the first row by the first entry. */
  predicate Offset(row: seq<bv32>)
    requires |row| == 16
  {
    && row[0] == Xor(row[0], ROW_0[0]) && row[1] == Xor(row[0], ROW_0[1])
    && row[2] == Xor(row[0], ROW_0[2]) && row[3] == Xor(row[0], ROW_0[3])
    && row[4] == Xor(row[0], ROW_0[4]) && row[5] == Xor(row[0], ROW_0[5])
    && row[6] == Xor(row[0], ROW_0[6]) && row[7] == Xor(row[0], ROW_0[7])
    && row[8] == Xor(row[0], ROW_0[8]) && row[9] == Xor(row[0], ROW_0[9])
    && row[10] == Xor(row[0], ROW_0[10]) && row[11] == Xor(row[0], ROW_0[11])
    && row[12] == Xor(row[0], ROW_0[12]) && row[13] == Xor(row[0], ROW_0[13])
    && row[14] == Xor(row[0], ROW_0[14]) && row[15] == Xor(row[0], ROW_0[15])
  }

  lemma OffsetAt(row: seq<bv32>, l: nat)
    requires |row| == 16 && Offset(row) && l < 16
    ensures row[l] == Xor(row[0], ROW_0[l])
  {
    hide Xor;
    assert l == 0 || l == 1 || l == 2 || l == 3 || l == 4 || l == 5 || l == 6 || l == 7 || l == 8 || l == 9 || l == 10
      || l == 11 || l == 12 || l == 13 || l == 14 || l == 15;
  }

  lemma Rows0()
    ensures Offset(ROW_0) && Offset(ROW_1) && Offset(ROW_2) && Offset(ROW_3)
  {
  }

  lemma Rows1()
    ensures Offset(ROW_4) && Offset(ROW_5) && Offset(ROW_6) && Offset(ROW_7)
  {
  }

  lemma Rows2()
    ensures Offset(ROW_8) && Offset(ROW_9) && Offset(ROW_A) && Offset(ROW_B)
  {
  }

  lemma Rows3()
    ensures Offset(ROW_C) && Offset(ROW_D) && Offset(ROW_E) && Offset(ROW_F)
  {
  }

  lemma RowOffset(h: nat)
    requires h < 16
    ensures Offset(Row(h))
  {
    hide Offset;
    if h < 8 {
      if h < 4 { Rows0(); } else { Rows1(); }
    } else {
      if h < 12 { Rows2(); } else { Rows3(); }
    }
  }

  lemma Nibbles(i: bv8)
    ensures i >> 4 < 16 && i & 15 < 16
    ensures i as nat / 16 == (i >> 4) as nat && i as nat % 16 == (i & 15) as nat
  {
  }

  lemma FromNibbles(i: bv8)
    ensures i as bv32 == Xor(((i >> 4) as bv32) << 4, (i & 15) as bv32)
  {
  }

  lemma Steps8Linear(a: bv32, b: bv32)
    ensures Steps8(Xor(a, b)) == Xor(Steps8(a), Steps8(b))
  {
    hide Steps8;
    Steps8IsStepN(a);
    Steps8IsStepN(b);
    Steps8IsStepN(Xor(a, b));
    StepNLinear(8, a, b);
  }

  /** Every table entry is eight steps on its index. */
  lemma TableIsSteps(i: bv8)
    ensures Table(i) == Steps8(i as bv32)
  {
    hide Steps8;
    hide Xor;
    hide Row;
    hide Offset;
    Nibbles(i);
    FromNibbles(i);
    var h, l := i >> 4, i & 15;
    HighEntry(h);
    LowEntry(l);
    RowOffset(h as nat);
    OffsetAt(Row(h as nat), l as nat);
    Steps8Linear((h as bv32) << 4, l as bv32);
  }

  // ---------------------------------------------------------------------------------------------
  // Words as vectors of bits

  lemma XorAssoc(a: bv32, b: bv32, c: bv32)
    ensures Xor(a, Xor(b, c)) == Xor(Xor(a, b), c)
  {
  }

  lemma XorZero(a: bv32)
    ensures Xor(a, 0) == a && Xor(0, a) == a && Xor(a, a) == 0
  {
  }

  lemma XorCancels(a: bv32, b: bv32, c: bv32)
    requires Xor(a, c) == Xor(b, c)
    ensures a == b
  {
    assert (a ^ c) ^ c == a && (b ^ c) ^ c == b;
  }

  lemma XorCancelsLeft(a: bv32, b: bv32, c: bv32)
    requires Xor(c, a) == Xor(c, b)
    ensures a == b
  {
    assert c ^ (c ^ a) == a && c ^ (c ^ b) == b;
  }

  lemma XorCommutes(a: bv32, b: bv32)
    ensures Xor(a, b) == Xor(b, a)
  {
  }

  lemma XorExchange(a: bv32, b: bv32, c: bv32, d: bv32)
    ensures Xor(Xor(a, b), Xor(c, d)) == Xor(Xor(a, c), Xor(b, d))
  {
    hide Xor;
    XorAssoc(Xor(a, b), c, d);
    XorAssoc(a, b, c);
    XorCommutes(b, c);
    XorAssoc(a, c, b);
    XorAssoc(Xor(a, c), b, d);
  }

  lemma HalfXor(a: bv32, b: bv32)
    ensures Half(Xor(a, b)) == Xor(Half(a), Half(b))
  {
  }

  lemma OddXor(a: bv32, b: bv32)
    ensures Odd(Xor(a, b)) <==> Odd(a) != Odd(b)
  {
    assert (a ^ b) & 1 == (a & 1) ^ (b & 1);
    OneBit(a);
    OneBit(b);
  }

  lemma OneBit(a: bv32)
    ensures a & 1 == 0 || a & 1 == 1
  {
  }

  // ---------------------------------------------------------------------------------------------
  // Steps are linear and can be undone

  lemma StepLinear(a: bv32, b: bv32)
    ensures Step(Xor(a, b)) == Xor(Step(a), Step(b))
  {
    hide Xor;
    hide Odd;
    hide Half;
    var p, q, r := Half(a), Half(b), POLYNOMIAL;
    HalfXor(a, b);
    OddXor(a, b);
    XorExchange(p, r, q, r);
    XorExchange(p, r, q, 0);
    XorExchange(p, 0, q, r);
    XorZero(p);
    XorZero(q);
    XorZero(r);
    XorZero(Xor(p, q));
  }

  /** The top bit of a remainder tells whether the polynomial was subtracted. */
  lemma TopTells(a: bv32)
    ensures TopClear(Half(a)) && !TopClear(Xor(Half(a), POLYNOMIAL))
  {
  }

  predicate TopClear(u: bv32) {
    u & 0x8000_0000 == 0
  }

  lemma HalfInjective(a: bv32, b: bv32)
    requires Half(a) == Half(b) && (Odd(a) <==> Odd(b))
    ensures a == b
  {
    OneBit(a);
    OneBit(b);
    assert a == ((a >> 1) << 1) | (a & 1);
    assert b == ((b >> 1) << 1) | (b & 1);
  }

  /** So a step can be undone. */
  lemma StepInjective(a: bv32, b: bv32)
    requires Step(a) == Step(b)
    ensures a == b
  {
    hide Xor;
    hide Odd;
    hide Half;
    hide TopClear;
    TopTells(a);
    TopTells(b);
    assert Odd(a) <==> Odd(b);
    if Odd(a) {
      XorCancels(Half(a), Half(b), POLYNOMIAL);
    }
    HalfInjective(a, b);
  }

  function Double(u: bv32): bv32 {
    u << 1
  }

  lemma HalfDouble(u: bv32)
    requires TopClear(u)
    ensures Half(Double(u)) == u && !Odd(Double(u))
  {
  }

  /** Putting a word one place up and stepping puts it back. */
  lemma StepDouble(a: bv32, u: bv32)
    requires TopClear(u)
    ensures Step(Double(u)) == u && Step(Xor(a, Double(u))) == Xor(Step(a), u)
  {
    hide Xor;
    hide Odd;
    hide Half;
    hide Double;
    HalfDouble(u);
    StepLinear(a, Double(u));
  }

  function StepN(n: nat, r: bv32): bv32 {
    if n == 0 then r else StepN(n - 1, Step(r))
  }

  lemma {:induction false} StepNInjective(n: nat, a: bv32, b: bv32)
    requires StepN(n, a) == StepN(n, b)
    ensures a == b
    decreases n
  {
    hide Step;
    if n > 0 {
      StepNInjective(n - 1, Step(a), Step(b));
      StepInjective(a, b);
    }
  }

  lemma {:induction false} StepNLinear(n: nat, a: bv32, b: bv32)
    ensures StepN(n, Xor(a, b)) == Xor(StepN(n, a), StepN(n, b))
    decreases n
  {
    hide Step;
    hide Xor;
    if n > 0 {
      StepLinear(a, b);
      StepNLinear(n - 1, Step(a), Step(b));
    }
  }

  lemma Steps8IsStepN(r: bv32)
    ensures StepN(8, r) == Steps8(r)
  {
    hide Step;
    var r2 := Step(Step(r));
    var r4 := Step(Step(r2));
    var r6 := Step(Step(r4));
    StepTwice(8, r);
    StepTwice(6, r2);
    StepTwice(4, r4);
    StepTwice(2, r6);
  }

  lemma StepTwice(n: nat, r: bv32)
    requires n >= 2
    ensures StepN(n, r) == StepN(n - 2, Step(Step(r)))
    ensures StepN(0, r) == r
  {
    hide Step;
    assert StepN(n, r) == StepN(n - 1, Step(r));
  }

  // ---------------------------------------------------------------------------------------------
  // Up to 32 bits at once

  /** The bits as a word, the first lowest. */
  function Word(bits: seq<bool>): bv32 {
    if bits == [] then 0 else Xor(Bit(bits[0]), Double(Word(bits[1..])))
  }

  /** The lowest n bits. */
  function Mask(n: nat): bv32 {
    if n == 0 then 0 else Xor(1, Double(Mask(n - 1)))
  }

  predicate Within(w: bv32, m: bv32) {
    w & m == w
  }

  lemma WithinStep(b: bool, w: bv32, m: bv32)
    requires Within(w, m)
    ensures Within(Xor(Bit(b), Double(w)), Xor(1, Double(m)))
  {
    hide Within;
    hide Xor;
    hide Double;
    WithinDouble(w, m);
    DoubleIsEven(w);
    DoubleIsEven(m);
    if b {
      WithinOne(Double(w), Double(m));
    } else {
      WithinOdd(w, m);
      XorZero(Double(w));
    }
  }

  lemma DoubleIsEven(w: bv32)
    ensures !Odd(Double(w))
  {
  }

  lemma WithinDouble(w: bv32, m: bv32)
    requires Within(w, m)
    ensures Within(Double(w), Double(m))
  {
  }

  lemma WithinOne(w: bv32, m: bv32)
    requires Within(w, m) && !Odd(w) && !Odd(m)
    ensures Within(Xor(1, w), Xor(1, m))
  {
  }

  lemma WithinOdd(w: bv32, m: bv32)
    requires Within(Double(w), Double(m))
    ensures Within(Double(w), Xor(1, Double(m)))
  {
  }

  lemma {:induction false} WordInMask(bits: seq<bool>)
    ensures Within(Word(bits), Mask(|bits|))
    decreases |bits|
  {
    if bits != [] {
      hide Within;
      hide Xor;
      hide Double;
      hide Bit;
      WordInMask(bits[1..]);
      WithinStep(bits[0], Word(bits[1..]), Mask(|bits| - 1));
    }
  }

  lemma {:induction false} MaskGrows(n: nat, k: nat)
    requires n <= k
    ensures Within(Mask(n), Mask(k))
    decreases n
  {
    if n > 0 {
      hide Within;
      hide Xor;
      hide Double;
      MaskGrows(n - 1, k - 1);
      WithinStep(true, Mask(n - 1), Mask(k - 1));
    } else {
      ZeroWithin(Mask(k));
    }
  }

  lemma ZeroWithin(m: bv32)
    ensures Within(0, m)
  {
  }

  lemma Mask31()
    ensures Mask(31) == 0x7FFF_FFFF
  {
    assert Mask(4) == 0xF;
    assert Mask(8) == 0xFF;
    assert Mask(12) == 0xFFF;
    assert Mask(16) == 0xFFFF;
    assert Mask(20) == 0xF_FFFF;
    assert Mask(24) == 0xFF_FFFF;
    assert Mask(28) == 0xFFF_FFFF;
  }

  lemma TopIsClear(bits: seq<bool>)
    requires |bits| <= 31
    ensures TopClear(Word(bits))
  {
    hide *;
    WordInMask(bits);
    MaskGrows(|bits|, 31);
    Mask31();
    WithinIsClear(Word(bits), Mask(|bits|));
  }

  lemma WithinIsClear(w: bv32, m: bv32)
    requires Within(w, m) && Within(m, 0x7FFF_FFFF)
    ensures TopClear(w)
  {
  }

  /** Feeding up to 32 bits one by one is feeding them all at once and then stepping. */
  lemma {:induction false} RemainderIsSteps(bits: seq<bool>, seed: bv32)
    requires |bits| <= 32
    ensures Remainder(bits, seed) == StepN(|bits|, Xor(seed, Word(bits)))
    decreases |bits|
  {
    hide Step;
    hide Xor;
    hide Double;
    hide Bit;
    hide TopClear;
    XorZero(seed);
    if bits != [] {
      var b, w := Bit(bits[0]), Word(bits[1..]);
      TopIsClear(bits[1..]);
      StepDouble(Xor(seed, b), w);
      XorAssoc(seed, b, Double(w));
      RemainderIsSteps(bits[1..], Step(Xor(seed, b)));
    }
  }

  lemma {:induction false} WordInjective(a: seq<bool>, b: seq<bool>)
    requires |a| == |b| <= 32 && Word(a) == Word(b)
    ensures a == b
    decreases |a|
  {
    if a != [] {
      hide Xor;
      hide Double;
      hide Bit;
      hide TopClear;
      TopIsClear(a[1..]);
      TopIsClear(b[1..]);
      LowBit(a[0], Word(a[1..]));
      LowBit(b[0], Word(b[1..]));
      WordInjective(a[1..], b[1..]);
      assert a == [a[0]] + a[1..] && b == [b[0]] + b[1..];
    }
  }

  lemma LowBit(b: bool, w: bv32)
    requires TopClear(w)
    ensures Odd(Xor(Bit(b), Double(w))) <==> b
    ensures Half(Xor(Bit(b), Double(w))) == w
  {
    hide Xor;
    hide Double;
    HalfDouble(w);
    if b {
      OnTop(w);
    } else {
      XorZero(Double(w));
    }
  }

  lemma OnTop(w: bv32)
    ensures Half(Xor(1, Double(w))) == Half(Double(w))
    ensures Odd(Xor(1, Double(w)))
  {
  }

  function Join(b: bool, w: bv32): bv32 {
    Xor(Bit(b), Double(w))
  }

  lemma WordFrom(bits: seq<bool>, k: nat)
    requires k <= |bits|
    ensures Word(bits[k..]) == if k == |bits| then 0 else Join(bits[k], Word(bits[k + 1..]))
  {
    if k < |bits| {
      assert bits[k..][1..] == bits[k + 1..];
    }
  }

  lemma WordOf8(s: seq<bool>)
    requires |s| == 8
    ensures Word(s) == Join(s[0], Join(s[1], Join(s[2], Join(s[3], Join(s[4], Join(s[5], Join(s[6], Join(s[7], 0))))))))
  {
    hide *;
    WordFrom(s, 8);
    WordFrom(s, 7);
    WordFrom(s, 6);
    WordFrom(s, 5);
    WordFrom(s, 4);
    WordFrom(s, 3);
    WordFrom(s, 2);
    WordFrom(s, 1);
    WordFrom(s, 0);
    assert s[0..] == s;
  }

  lemma WordOfByte(byte: bv8)
    ensures Word(BitsOf(byte)) == byte as bv32
  {
    hide Word;
    hide Join;
    WordOf8(BitsOf(byte));
    ByteOf8(byte);
  }

  lemma ByteOf8(byte: bv8)
    ensures byte as bv32 == Join(HasBit(byte, 0x01),
      Join(HasBit(byte, 0x02), Join(HasBit(byte, 0x04), Join(HasBit(byte, 0x08),
      Join(HasBit(byte, 0x10), Join(HasBit(byte, 0x20), Join(HasBit(byte, 0x40), Join(HasBit(byte, 0x80), 0))))))))
  {
  }

  // ---------------------------------------------------------------------------------------------
  // A byte at a time

  lemma {:induction false} RemainderConcat(a: seq<bool>, b: seq<bool>, seed: bv32)
    ensures Remainder(a + b, seed) == Remainder(b, Remainder(a, seed))
    decreases |a|
  {
    hide Step;
    if a == [] {
      assert a + b == b;
    } else {
      assert (a + b)[1..] == a[1..] + b;
      RemainderConcat(a[1..], b, Step(Xor(seed, Bit(a[0]))));
    }
  }

  lemma {:induction false} BitsConcat(a: seq<bv8>, b: seq<bv8>)
    ensures Bits(a + b) == Bits(a) + Bits(b)
    decreases |a|
  {
    hide BitsOf;
    if a == [] {
      assert a + b == b;
    } else {
      assert (a + b)[1..] == a[1..] + b;
      BitsConcat(a[1..], b);
    }
  }

  function Low(r: bv32): bv32 {
    r & 0xFF
  }

  function High(r: bv32): bv32 {
    r >> 8
  }

  function Widened(byte: bv8): bv32 {
    byte as bv32
  }

  function LowByte(r: bv32): bv8 {
    (r & 0xFF) as bv8
  }

  /** What the loop does with one byte. */
  function Next(crc: bv32, byte: bv8): bv32 {
    Xor(Table(LowByte(Xor(crc, Widened(byte)))), High(crc))
  }

  lemma LowByteIsLow(r: bv32)
    ensures Widened(LowByte(r)) == Low(r)
  {
  }

  lemma HighOfXor(crc: bv32, byte: bv8)
    ensures High(Xor(crc, Widened(byte))) == High(crc)
  {
  }

  /** A byte's place, eight up. */
  function Up8(u: bv32): bv32 {
    Double(Double(Double(Double(Double(Double(Double(Double(u))))))))
  }

  lemma LowAndHigh(r: bv32)
    ensures r == Xor(Low(r), Up8(High(r)))
  {
    DoubledEight(High(r));
    Recombine(r);
  }

  lemma DoubledEight(u: bv32)
    ensures Up8(u) == u << 8
  {
  }

  lemma Recombine(r: bv32)
    ensures r == (r & 0xFF) ^ ((r >> 8) << 8)
  {
  }

  predicate Clear(u: bv32, m: bv32) {
    u & m == 0
  }

  lemma HighIsClear(r: bv32)
    ensures Clear(High(r), 0xFF00_0000)
  {
  }

  lemma ClearAfterDouble(u: bv32)
    ensures Clear(u, 0xFF00_0000) ==> TopClear(u) && Clear(Double(u), 0xFE00_0000)
    ensures Clear(u, 0xFE00_0000) ==> TopClear(u) && Clear(Double(u), 0xFC00_0000)
    ensures Clear(u, 0xFC00_0000) ==> TopClear(u) && Clear(Double(u), 0xF800_0000)
    ensures Clear(u, 0xF800_0000) ==> TopClear(u) && Clear(Double(u), 0xF000_0000)
    ensures Clear(u, 0xF000_0000) ==> TopClear(u) && Clear(Double(u), 0xE000_0000)
    ensures Clear(u, 0xE000_0000) ==> TopClear(u) && Clear(Double(u), 0xC000_0000)
    ensures Clear(u, 0xC000_0000) ==> TopClear(u) && Clear(Double(u), 0x8000_0000)
    ensures Clear(u, 0x8000_0000) ==> TopClear(u)
  {
  }

  /** Eight steps shift the higher bytes down unchanged. */
  lemma ShiftedDown(u: bv32)
    requires Clear(u, 0xFF00_0000)
    ensures Steps8(Up8(u)) == u
  {
    hide Clear;
    hide TopClear;
    hide Double;
    hide Step;
    var u1 := Double(u);
    var u2 := Double(u1);
    var u3 := Double(u2);
    var u4 := Double(u3);
    var u5 := Double(u4);
    var u6 := Double(u5);
    var u7 := Double(u6);
    ClearAfterDouble(u);
    ClearAfterDouble(u1);
    ClearAfterDouble(u2);
    ClearAfterDouble(u3);
    ClearAfterDouble(u4);
    ClearAfterDouble(u5);
    ClearAfterDouble(u6);
    ClearAfterDouble(u7);
    StepDouble(0, u);
    StepDouble(0, u1);
    StepDouble(0, u2);
    StepDouble(0, u3);
    StepDouble(0, u4);
    StepDouble(0, u5);
    StepDouble(0, u6);
    StepDouble(0, u7);
  }

  lemma Steps8Splits(r: bv32)
    ensures Steps8(r) == Xor(Steps8(Low(r)), High(r))
  {
    hide *;
    var low, high := Low(r), High(r);
    LowAndHigh(r);
    HighIsClear(r);
    Steps8IsStepN(r);
    Steps8IsStepN(low);
    Steps8IsStepN(Up8(high));
    StepNLinear(8, low, Up8(high));
    ShiftedDown(high);
  }

  lemma TableOfLowByte(r: bv32)
    ensures Table(LowByte(r)) == Steps8(Low(r))
  {
    hide Steps8;
    hide Table;
    hide LowByte;
    hide Low;
    TableIsSteps(LowByte(r));
    LowByteIsLow(r);
  }

  lemma NextIsSteps(crc: bv32, byte: bv8)
    ensures Next(crc, byte) == StepN(8, Xor(crc, Widened(byte)))
  {
    hide Xor;
    hide Table;
    hide LowByte;
    hide High;
    hide Low;
    hide Steps8;
    hide StepN;
    var r := Xor(crc, Widened(byte));
    TableOfLowByte(r);
    HighOfXor(crc, byte);
    Steps8Splits(r);
    Steps8IsStepN(r);
  }

  /** One table look-up is eight steps of the division. */
  lemma NextIsRemainder(crc: bv32, byte: bv8)
    ensures Next(crc, byte) == Remainder(BitsOf(byte), crc)
  {
    hide Xor;
    hide Next;
    hide StepN;
    hide Remainder;
    hide Word;
    NextIsSteps(crc, byte);
    WordOfByte(byte);
    RemainderIsSteps(BitsOf(byte), crc);
  }

  /** The division of a whole buffer. */
  function Crc(bytes: seq<bv8>, seed: bv32): bv32 {
    Remainder(Bits(bytes), seed)
  }

  /** The CRC of two parts is the CRC of the second, seeded with that of the first. */
  lemma CrcConcat(a: seq<bv8>, b: seq<bv8>, seed: bv32)
    ensures Crc(a + b, seed) == Crc(b, Crc(a, seed))
  {
    hide Bits;
    hide Remainder;
    BitsConcat(a, b);
    RemainderConcat(Bits(a), Bits(b), seed);
  }

  lemma BitsOfOne(byte: bv8)
    ensures Bits([byte]) == BitsOf(byte)
  {
    assert Bits([byte]) == BitsOf(byte) + Bits([byte][1..]);
  }

  lemma CrcNext(bytes: seq<bv8>, byte: bv8, seed: bv32)
    ensures Crc(bytes + [byte], seed) == Next(Crc(bytes, seed), byte)
  {
    hide Next;
    hide Remainder;
    hide Bits;
    hide BitsOf;
    CrcConcat(bytes, [byte], seed);
    NextIsRemainder(Crc(bytes, seed), byte);
    BitsOfOne(byte);
  }

  lemma Empty(seed: bv32)
    ensures Crc([], seed) == seed
  {
  }

  /** The loop: the buffer's division, table entry by table entry. */
  method CRC32(buffer: array<bv8>, len: nat, seed: bv32) returns (crc: bv32)
    requires len <= buffer.Length
    ensures crc == Crc(buffer[..len], seed)
  {
    hide Crc;
    hide Table;
    hide LowByte;
    hide Widened;
    hide High;
    hide Xor;
    crc := seed;
    var i := 0;
    assert buffer[..0] == [];
    Empty(seed);
    while i < len
      invariant 0 <= i <= len
      invariant crc == Crc(buffer[..i], seed)
    {
      assert buffer[..i + 1] == buffer[..i] + [buffer[i]];
      CrcNext(buffer[..i], buffer[i], seed);
      crc := Xor(Table(LowByte(Xor(crc, Widened(buffer[i])))), High(crc));
      i := i + 1;
    }
  }

  // ---------------------------------------------------------------------------------------------
  // What a CRC detects

  lemma {:induction false} RemainderInjective(bits: seq<bool>, a: bv32, b: bv32)
    requires Remainder(bits, a) == Remainder(bits, b)
    ensures a == b
    decreases |bits|
  {
    hide Step;
    hide Xor;
    hide Bit;
    if bits != [] {
      var c := Bit(bits[0]);
      RemainderInjective(bits[1..], Step(Xor(a, c)), Step(Xor(b, c)));
      StepInjective(Xor(a, c), Xor(b, c));
      XorCancels(a, b, c);
    }
  }

  /** Different seeds give different results. */
  lemma SeedMatters(bytes: seq<bv8>, s: bv32, t: bv32)
    requires s != t
    ensures Crc(bytes, s) != Crc(bytes, t)
  {
    if Crc(bytes, s) == Crc(bytes, t) {
      RemainderInjective(Bits(bytes), s, t);
    }
  }

  lemma SameAfter(bits: seq<bool>, a: seq<bool>, b: seq<bool>, s: bv32)
    requires |a| == |b| <= 32 && Remainder(bits, Remainder(a, s)) == Remainder(bits, Remainder(b, s))
    ensures a == b
  {
    hide *;
    RemainderInjective(bits, Remainder(a, s), Remainder(b, s));
    RemainderIsSteps(a, s);
    RemainderIsSteps(b, s);
    StepNInjective(|a|, Xor(s, Word(a)), Xor(s, Word(b)));
    XorCancelsLeft(Word(a), Word(b), s);
    WordInjective(a, b);
  }

  /** A burst, that is changes within 32 neighbouring bits, always changes the remainder. */
  lemma BurstChangesRemainder(before: seq<bool>, a: seq<bool>, b: seq<bool>, after: seq<bool>, seed: bv32)
    requires |a| == |b| <= 32 && a != b
    ensures Remainder(before + a + after, seed) != Remainder(before + b + after, seed)
  {
    hide *;
    RemainderConcat(before, a, seed);
    RemainderConcat(before, b, seed);
    RemainderConcat(before + a, after, seed);
    RemainderConcat(before + b, after, seed);
    if Remainder(before + a + after, seed) == Remainder(before + b + after, seed) {
      SameAfter(after, a, b, Remainder(before, seed));
    }
  }

  lemma WidenedInjective(a: bv8, b: bv8)
    requires a as bv32 == b as bv32
    ensures a == b
  {
  }

  lemma BitsOfInjective(a: bv8, b: bv8)
    requires BitsOf(a) == BitsOf(b)
    ensures a == b
  {
    hide BitsOf;
    hide Word;
    WordOfByte(a);
    WordOfByte(b);
    WidenedInjective(a, b);
  }

  lemma {:induction false} BitsInjective(a: seq<bv8>, b: seq<bv8>)
    requires |a| == |b| && Bits(a) == Bits(b)
    ensures a == b
    decreases |a|
  {
    if a != [] {
      hide Bits;
      hide BitsOf;
      BitsStart(a);
      BitsStart(b);
      BitsOfInjective(a[0], b[0]);
      BitsInjective(a[1..], b[1..]);
      assert a == [a[0]] + a[1..] && b == [b[0]] + b[1..];
    }
  }

  lemma BitsStart(a: seq<bv8>)
    requires a != []
    ensures |Bits(a)| >= 8 && Bits(a)[..8] == BitsOf(a[0]) && Bits(a)[8..] == Bits(a[1..])
  {
  }

  lemma EightBits(byte: bv8)
    ensures |BitsOf(byte)| == 8
  {
  }

  lemma {:induction false} BitsLength(a: seq<bv8>)
    ensures |Bits(a)| == 8 * |a|
    decreases |a|
  {
    hide BitsOf;
    if a != [] {
      EightBits(a[0]);
      BitsLength(a[1..]);
    }
  }

  /** Changing up to four neighbouring bytes of a buffer, one for instance, always changes the CRC. */
  lemma ChangedBytesDetected(before: seq<bv8>, a: seq<bv8>, b: seq<bv8>, after: seq<bv8>, seed: bv32)
    requires |a| == |b| <= 4 && a != b
    ensures Crc(before + a + after, seed) != Crc(before + b + after, seed)
  {
    hide Bits;
    hide Remainder;
    BitsConcat(before, a);
    BitsConcat(before, b);
    BitsConcat(before + a, after);
    BitsConcat(before + b, after);
    BitsLength(a);
    BitsLength(b);
    if Bits(a) == Bits(b) {
      BitsInjective(a, b);
    }
    BurstChangesRemainder(Bits(before), Bits(a), Bits(b), Bits(after), seed);
  }

  // ---------------------------------------------------------------------------------------------
  // Linearity

  function Xor8(x: bv8, y: bv8): bv8 {
    x ^ y
  }

  function XorBytes(a: seq<bv8>, b: seq<bv8>): (c: seq<bv8>)
    requires |a| == |b|
    ensures |c| == |a|
  {
    if a == [] then [] else [Xor8(a[0], b[0])] + XorBytes(a[1..], b[1..])
  }

  lemma WidenedXor(x: bv8, y: bv8)
    ensures Widened(Xor8(x, y)) == Xor(Widened(x), Widened(y))
  {
  }

  lemma NextLinear(c: bv32, d: bv32, x: bv8, y: bv8)
    ensures Next(Xor(c, d), Xor8(x, y)) == Xor(Next(c, x), Next(d, y))
  {
    hide *;
    NextIsSteps(c, x);
    NextIsSteps(d, y);
    NextIsSteps(Xor(c, d), Xor8(x, y));
    WidenedXor(x, y);
    XorExchange(c, d, Widened(x), Widened(y));
    StepNLinear(8, Xor(c, Widened(x)), Xor(d, Widened(y)));
  }

  lemma CrcFromFront(bytes: seq<bv8>, seed: bv32)
    requires bytes != []
    ensures Crc(bytes, seed) == Crc(bytes[1..], Next(seed, bytes[0]))
  {
    hide *;
    assert [bytes[0]] + bytes[1..] == bytes;
    assert [] + [bytes[0]] == [bytes[0]];
    CrcConcat([bytes[0]], bytes[1..], seed);
    CrcNext([], bytes[0], seed);
    Empty(seed);
  }

  /** The CRC is linear over exclusive or, in the buffer and the seed together. */
  lemma {:induction false} CrcLinear(a: seq<bv8>, b: seq<bv8>, s: bv32, t: bv32)
    requires |a| == |b|
    ensures Crc(XorBytes(a, b), Xor(s, t)) == Xor(Crc(a, s), Crc(b, t))
    decreases |a|
  {
    hide Crc;
    hide Next;
    hide Xor;
    hide Xor8;
    if a == [] {
      Empty(s);
      Empty(t);
      Empty(Xor(s, t));
    } else {
      CrcFromFront(a, s);
      CrcFromFront(b, t);
      CrcFromFront(XorBytes(a, b), Xor(s, t));
      assert XorBytes(a, b)[1..] == XorBytes(a[1..], b[1..]);
      NextLinear(s, t, a[0], b[0]);
      CrcLinear(a[1..], b[1..], Next(s, a[0]), Next(t, b[0]));
    }
  }

  // ---------------------------------------------------------------------------------------------
  // A buffer followed by its own CRC

  /** The four bytes of a word, low byte first. */
  function BytesOf(w: bv32): seq<bv8> {
    [LowByte(w), LowByte(High(w)), LowByte(High(High(w))), LowByte(High(High(High(w))))]
  }

  lemma OwnLowByte(r: bv32)
    ensures LowByte(Xor(r, Widened(LowByte(r)))) == 0
  {
  }

  lemma TableStartsWithZero()
    ensures Table(0) == 0
  {
  }

  /** Its own low byte shifts out of a remainder and leaves nothing. */
  lemma NextOfLowByte(crc: bv32)
    ensures Next(crc, LowByte(crc)) == High(crc)
  {
    hide Table;
    hide LowByte;
    hide Widened;
    hide High;
    hide Xor;
    OwnLowByte(crc);
    TableStartsWithZero();
    XorZero(High(crc));
  }

  lemma FourBytesHigh(r: bv32)
    ensures High(High(High(High(r)))) == 0
  {
  }

  /** A buffer with its own CRC appended, low byte first, has CRC zero. */
  lemma OwnCrcGivesZero(bytes: seq<bv8>, seed: bv32)
    ensures Crc(bytes + BytesOf(Crc(bytes, seed)), seed) == 0
  {
    hide Crc;
    hide Next;
    hide LowByte;
    hide High;
    var c0 := Crc(bytes, seed);
    var c1 := High(c0);
    var c2 := High(c1);
    var c3 := High(c2);
    NextOfLowByte(c0);
    NextOfLowByte(c1);
    NextOfLowByte(c2);
    NextOfLowByte(c3);
    FourBytesHigh(c0);
    var s1 := bytes + [LowByte(c0)];
    var s2 := s1 + [LowByte(c1)];
    var s3 := s2 + [LowByte(c2)];
    CrcNext(bytes, LowByte(c0), seed);
    CrcNext(s1, LowByte(c1), seed);
    CrcNext(s2, LowByte(c2), seed);
    CrcNext(s3, LowByte(c3), seed);
    assert bytes + BytesOf(c0) == s3 + [LowByte(c3)];
  }

  // ---------------------------------------------------------------------------------------------
  // An example

  lemma Digits1()
    ensures Next(0xffffffff, 0x31) == 0x7c231048
    ensures Next(0x7c231048, 0x32) == 0xb0acbb32
    ensures Next(0xb0acbb32, 0x33) == 0x77b79c2d
  {
  }

  lemma Digits2()
    ensures Next(0x77b79c2d, 0x34) == 0x641c1f5c
    ensures Next(0x641c1f5c, 0x35) == 0x340ac5e3
    ensures Next(0x340ac5e3, 0x36) == 0xf68d2c9e
  {
  }

  lemma Digits3()
    ensures Next(0xf68d2c9e, 0x37) == 0xaffc9660
    ensures Next(0xaffc9660, 0x38) == 0x651f2550
    ensures Next(0x651f2550, 0x39) == 0x340bc6d9
  {
  }

  const ONE_TO_NINE: seq<bv8> := [0x31, 0x32, 0x33, 0x34, 0x35, 0x36, 0x37, 0x38, 0x39]

  lemma NextDigit(k: nat, seed: bv32, crc: bv32, next: bv32)
    requires k < 9 && Crc(ONE_TO_NINE[..k], seed) == crc && Next(crc, ONE_TO_NINE[k]) == next
    ensures Crc(ONE_TO_NINE[..k + 1], seed) == next
  {
    hide Crc, Next;
    CrcNext(ONE_TO_NINE[..k], ONE_TO_NINE[k], seed);
    assert ONE_TO_NINE[..k] + [ONE_TO_NINE[k]] == ONE_TO_NINE[..k + 1];
  }

  /** The digits 1 to 9, begun with all ones: the customary check value 0xCBF43926, complemented. */
  lemma CheckValue()
    ensures Crc(ONE_TO_NINE, 0xFFFF_FFFF) == 0x340B_C6D9
  {
    hide Next, Crc;
    Digits1();
    Digits2();
    Digits3();
    Empty(0xFFFF_FFFF);
    assert ONE_TO_NINE[..0] == [] && ONE_TO_NINE[..9] == ONE_TO_NINE;
    NextDigit(0, 0xFFFF_FFFF, 0xffffffff, 0x7c231048);
    NextDigit(1, 0xFFFF_FFFF, 0x7c231048, 0xb0acbb32);
    NextDigit(2, 0xFFFF_FFFF, 0xb0acbb32, 0x77b79c2d);
    NextDigit(3, 0xFFFF_FFFF, 0x77b79c2d, 0x641c1f5c);
    NextDigit(4, 0xFFFF_FFFF, 0x641c1f5c, 0x340ac5e3);
    NextDigit(5, 0xFFFF_FFFF, 0x340ac5e3, 0xf68d2c9e);
    NextDigit(6, 0xFFFF_FFFF, 0xf68d2c9e, 0xaffc9660);
    NextDigit(7, 0xFFFF_FFFF, 0xaffc9660, 0x651f2550);
    NextDigit(8, 0xFFFF_FFFF, 0x651f2550, 0x340bc6d9);
  }
}
