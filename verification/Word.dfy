/**
 The sizes of machine words, and sums that wrap at 64 bits.
 */
module Word {
  const TWO_TO_THE_31 := 0x8000_0000
  const TWO_TO_THE_32 := 0x1_0000_0000
  const TWO_TO_THE_63 := 0x8000_0000_0000_0000
  const TWO_TO_THE_64 := 0x1_0000_0000_0000_0000

  newtype int32 = x: int | -0x8000_0000 <= x < 0x8000_0000

  lemma Wraps(q: nat, r: nat)
    ensures (q * TWO_TO_THE_64 + r) % TWO_TO_THE_64 == r % TWO_TO_THE_64
  {
  }

  /** Wrapping early or late makes no difference. */
  lemma AddWrapped(a: nat, b: nat)
    ensures (a % TWO_TO_THE_64 + b) % TWO_TO_THE_64 == (a + b) % TWO_TO_THE_64
  {
    var q, r := a / TWO_TO_THE_64, a % TWO_TO_THE_64;
    assert a + b == q * TWO_TO_THE_64 + (r + b);
    Wraps(q, r + b);
  }
}
