/**
 The example of one block that the standard gives: the hash of the three bytes "abc", followed word by word
 and round by round.
 */
module Sha256Example {
  import opened Word
  import opened Sha256

  const ABC: seq<bv8> := [0x61, 0x62, 0x63]

  /** The one block of the message, padding included. */
  predicate IsPadded(b: Block) {
    b == ABC + Padding(|ABC|)
  }

  lemma NextRound(b: Block, t: nat)
    requires t < 64
    ensures Rounds(INITIAL, b, t + 1) == Round(Rounds(INITIAL, b, t), K(t), W(b, t))
  {
    hide Round, K, W;
  }

  lemma NextWord(b: Block, t: nat, x: bv32, y: bv32, z: bv32, w: bv32)
    requires 16 <= t < 64 && W(b, t - 2) == x && W(b, t - 7) == y
    requires W(b, t - 15) == z && W(b, t - 16) == w
    ensures W(b, t) == Add(Add(Add(SmallSigma1(x), y), SmallSigma0(z)), w)
  {
    hide Add, SmallSigma0, SmallSigma1;
  }

  // ---------------------------------------------------------------------------------------------
  // The message schedule

  lemma ByteOfTwentyFour()
    ensures ByteOf(24) == 24
  {
  }

  lemma ByteOfZero()
    ensures ByteOf(0) == 0
  {
  }

  /** Twenty-four bits. */
  lemma LengthOfExample()
    ensures LengthBytes(|ABC|) == [0, 0, 0, 0, 0, 0, 0, 24]
  {
    hide BytesOf, WordOf, ByteOf;
    WordIsFourBytes(0);
    WordIsFourBytes(24);
    ByteOfTwentyFour();
    ByteOfZero();
  }

  lemma Zeroes(b: Block, t: nat)
    requires IsPadded(b) && 1 <= t < 15
    ensures W(b, t) == 0
  {
    hide LengthBytes;
    LengthOfExample();
    assert b[4 * t] == 0 && b[4 * t + 1] == 0 && b[4 * t + 2] == 0 && b[4 * t + 3] == 0;
  }

  lemma FirstWords(b: Block)
    requires IsPadded(b)
    ensures W(b, 0) == 0x61626380 && W(b, 15) == 24
    ensures forall t :: 1 <= t < 15 ==> W(b, t) == 0
  {
    hide LengthBytes;
    LengthOfExample();
    assert b[0] == 0x61 && b[1] == 0x62 && b[2] == 0x63 && b[3] == 0x80;
    assert b[60] == 0 && b[61] == 0 && b[62] == 0 && b[63] == 24;
    forall t | 1 <= t < 15
      ensures W(b, t) == 0
    {
      Zeroes(b, t);
    }
  }

  lemma Words16(b: Block)
    requires IsPadded(b)
    ensures W(b, 16) == 0x61626380 && W(b, 17) == 0x000f0000
    ensures W(b, 18) == 0x7da86405 && W(b, 19) == 0x600003c6
  {
    hide W, IsPadded;
    FirstWords(b);
    NextWord(b, 16, 0x00000000, 0x00000000, 0x00000000, 0x61626380);
    NextWord(b, 17, 0x00000018, 0x00000000, 0x00000000, 0x00000000);
    NextWord(b, 18, 0x61626380, 0x00000000, 0x00000000, 0x00000000);
    NextWord(b, 19, 0x000f0000, 0x00000000, 0x00000000, 0x00000000);
  }

  lemma Words20(b: Block)
    requires IsPadded(b)
    ensures W(b, 20) == 0x3e9d7b78 && W(b, 21) == 0x0183fc00
    ensures W(b, 22) == 0x12dcbfdb && W(b, 23) == 0xe2e2c38e
  {
    hide W, IsPadded;
    FirstWords(b);
    Words16(b);
    NextWord(b, 20, 0x7da86405, 0x00000000, 0x00000000, 0x00000000);
    NextWord(b, 21, 0x600003c6, 0x00000000, 0x00000000, 0x00000000);
    NextWord(b, 22, 0x3e9d7b78, 0x00000018, 0x00000000, 0x00000000);
    NextWord(b, 23, 0x0183fc00, 0x61626380, 0x00000000, 0x00000000);
  }

  lemma Words24(b: Block)
    requires IsPadded(b)
    ensures W(b, 24) == 0xc8215c1a && W(b, 25) == 0xb73679a2
    ensures W(b, 26) == 0xe5bc3909 && W(b, 27) == 0x32663c5b
  {
    hide W, IsPadded;
    FirstWords(b);
    Words16(b);
    Words20(b);
    NextWord(b, 24, 0x12dcbfdb, 0x000f0000, 0x00000000, 0x00000000);
    NextWord(b, 25, 0xe2e2c38e, 0x7da86405, 0x00000000, 0x00000000);
    NextWord(b, 26, 0xc8215c1a, 0x600003c6, 0x00000000, 0x00000000);
    NextWord(b, 27, 0xb73679a2, 0x3e9d7b78, 0x00000000, 0x00000000);
  }

  lemma Words28(b: Block)
    requires IsPadded(b)
    ensures W(b, 28) == 0x9d209d67 && W(b, 29) == 0xec8726cb
    ensures W(b, 30) == 0x702138a4 && W(b, 31) == 0xd3b7973b
  {
    hide W, IsPadded;
    FirstWords(b);
    Words16(b);
    Words20(b);
    Words24(b);
    NextWord(b, 28, 0xe5bc3909, 0x0183fc00, 0x00000000, 0x00000000);
    NextWord(b, 29, 0x32663c5b, 0x12dcbfdb, 0x00000000, 0x00000000);
    NextWord(b, 30, 0x9d209d67, 0xe2e2c38e, 0x00000018, 0x00000000);
    NextWord(b, 31, 0xec8726cb, 0xc8215c1a, 0x61626380, 0x00000018);
  }

  lemma Words32(b: Block)
    requires IsPadded(b)
    ensures W(b, 32) == 0x93f5997f && W(b, 33) == 0x3b68ba73
    ensures W(b, 34) == 0xaff4ffc1 && W(b, 35) == 0xf10a5c62
  {
    hide W, IsPadded;
    Words16(b);
    Words20(b);
    Words24(b);
    Words28(b);
    NextWord(b, 32, 0x702138a4, 0xb73679a2, 0x000f0000, 0x61626380);
    NextWord(b, 33, 0xd3b7973b, 0xe5bc3909, 0x7da86405, 0x000f0000);
    NextWord(b, 34, 0x93f5997f, 0x32663c5b, 0x600003c6, 0x7da86405);
    NextWord(b, 35, 0x3b68ba73, 0x9d209d67, 0x3e9d7b78, 0x600003c6);
  }

  lemma Words36(b: Block)
    requires IsPadded(b)
    ensures W(b, 36) == 0x0a8b3996 && W(b, 37) == 0x72af830a
    ensures W(b, 38) == 0x9409e33e && W(b, 39) == 0x24641522
  {
    hide W, IsPadded;
    Words20(b);
    Words24(b);
    Words28(b);
    Words32(b);
    NextWord(b, 36, 0xaff4ffc1, 0xec8726cb, 0x0183fc00, 0x3e9d7b78);
    NextWord(b, 37, 0xf10a5c62, 0x702138a4, 0x12dcbfdb, 0x0183fc00);
    NextWord(b, 38, 0x0a8b3996, 0xd3b7973b, 0xe2e2c38e, 0x12dcbfdb);
    NextWord(b, 39, 0x72af830a, 0x93f5997f, 0xc8215c1a, 0xe2e2c38e);
  }

  lemma Words40(b: Block)
    requires IsPadded(b)
    ensures W(b, 40) == 0x9f47bf94 && W(b, 41) == 0xf0a64f5a
    ensures W(b, 42) == 0x3e246a79 && W(b, 43) == 0x27333ba3
  {
    hide W, IsPadded;
    Words24(b);
    Words28(b);
    Words32(b);
    Words36(b);
    NextWord(b, 40, 0x9409e33e, 0x3b68ba73, 0xb73679a2, 0xc8215c1a);
    NextWord(b, 41, 0x24641522, 0xaff4ffc1, 0xe5bc3909, 0xb73679a2);
    NextWord(b, 42, 0x9f47bf94, 0xf10a5c62, 0x32663c5b, 0xe5bc3909);
    NextWord(b, 43, 0xf0a64f5a, 0x0a8b3996, 0x9d209d67, 0x32663c5b);
  }

  lemma Words44(b: Block)
    requires IsPadded(b)
    ensures W(b, 44) == 0x0c4763f2 && W(b, 45) == 0x840abf27
    ensures W(b, 46) == 0x7a290d5d && W(b, 47) == 0x065c43da
  {
    hide W, IsPadded;
    Words28(b);
    Words32(b);
    Words36(b);
    Words40(b);
    NextWord(b, 44, 0x3e246a79, 0x72af830a, 0xec8726cb, 0x9d209d67);
    NextWord(b, 45, 0x27333ba3, 0x9409e33e, 0x702138a4, 0xec8726cb);
    NextWord(b, 46, 0x0c4763f2, 0x24641522, 0xd3b7973b, 0x702138a4);
    NextWord(b, 47, 0x840abf27, 0x9f47bf94, 0x93f5997f, 0xd3b7973b);
  }

  lemma Words48(b: Block)
    requires IsPadded(b)
    ensures W(b, 48) == 0xfb3e89cb && W(b, 49) == 0xcc7617db
    ensures W(b, 50) == 0xb9e66c34 && W(b, 51) == 0xa9993667
  {
    hide W, IsPadded;
    Words32(b);
    Words36(b);
    Words40(b);
    Words44(b);
    NextWord(b, 48, 0x7a290d5d, 0xf0a64f5a, 0x3b68ba73, 0x93f5997f);
    NextWord(b, 49, 0x065c43da, 0x3e246a79, 0xaff4ffc1, 0x3b68ba73);
    NextWord(b, 50, 0xfb3e89cb, 0x27333ba3, 0xf10a5c62, 0xaff4ffc1);
    NextWord(b, 51, 0xcc7617db, 0x0c4763f2, 0x0a8b3996, 0xf10a5c62);
  }

  lemma Words52(b: Block)
    requires IsPadded(b)
    ensures W(b, 52) == 0x84badedd && W(b, 53) == 0xc21462bc
    ensures W(b, 54) == 0x1487472c && W(b, 55) == 0xb20f7a99
  {
    hide W, IsPadded;
    Words36(b);
    Words40(b);
    Words44(b);
    Words48(b);
    NextWord(b, 52, 0xb9e66c34, 0x840abf27, 0x72af830a, 0x0a8b3996);
    NextWord(b, 53, 0xa9993667, 0x7a290d5d, 0x9409e33e, 0x72af830a);
    NextWord(b, 54, 0x84badedd, 0x065c43da, 0x24641522, 0x9409e33e);
    NextWord(b, 55, 0xc21462bc, 0xfb3e89cb, 0x9f47bf94, 0x24641522);
  }

  lemma Words56(b: Block)
    requires IsPadded(b)
    ensures W(b, 56) == 0xef57b9cd && W(b, 57) == 0xebe6b238
    ensures W(b, 58) == 0x9fe3095e && W(b, 59) == 0x78bc8d4b
  {
    hide W, IsPadded;
    Words40(b);
    Words44(b);
    Words48(b);
    Words52(b);
    NextWord(b, 56, 0x1487472c, 0xcc7617db, 0xf0a64f5a, 0x9f47bf94);
    NextWord(b, 57, 0xb20f7a99, 0xb9e66c34, 0x3e246a79, 0xf0a64f5a);
    NextWord(b, 58, 0xef57b9cd, 0xa9993667, 0x27333ba3, 0x3e246a79);
    NextWord(b, 59, 0xebe6b238, 0x84badedd, 0x0c4763f2, 0x27333ba3);
  }

  lemma Words60(b: Block)
    requires IsPadded(b)
    ensures W(b, 60) == 0xa43fcf15 && W(b, 61) == 0x668b2ff8
    ensures W(b, 62) == 0xeeaba2cc && W(b, 63) == 0x12b1edeb
  {
    hide W, IsPadded;
    Words44(b);
    Words48(b);
    Words52(b);
    Words56(b);
    NextWord(b, 60, 0x9fe3095e, 0xc21462bc, 0x840abf27, 0x0c4763f2);
    NextWord(b, 61, 0x78bc8d4b, 0x1487472c, 0x7a290d5d, 0x840abf27);
    NextWord(b, 62, 0xa43fcf15, 0xb20f7a99, 0x065c43da, 0x7a290d5d);
    NextWord(b, 63, 0x668b2ff8, 0xef57b9cd, 0xfb3e89cb, 0x065c43da);
  }

  // ---------------------------------------------------------------------------------------------
  // The sixty-four rounds

  lemma FirstState(b: Block)
    ensures Rounds(INITIAL, b, 0)
      == Vars(0x6a09e667, 0xbb67ae85, 0x3c6ef372, 0xa54ff53a,
           0x510e527f, 0x9b05688c, 0x1f83d9ab, 0x5be0cd19)
  {
  }

  lemma Rounds2(b: Block)
    requires IsPadded(b)
    ensures Rounds(INITIAL, b, 2)
      == Vars(0x5a6ad9ad, 0x5d6aebcd, 0x6a09e667, 0xbb67ae85,
           0x78ce7989, 0xfa2a4622, 0x510e527f, 0x9b05688c)
  {
    hide W, Rounds, IsPadded;
    FirstState(b);
    FirstWords(b);
    NextRound(b, 0);
    NextRound(b, 1);
  }

  lemma Rounds4(b: Block)
    requires IsPadded(b)
    ensures Rounds(INITIAL, b, 4)
      == Vars(0xd550f666, 0xc8c347a7, 0x5a6ad9ad, 0x5d6aebcd,
           0x24e00850, 0xf92939eb, 0x78ce7989, 0xfa2a4622)
  {
    hide W, Rounds, IsPadded;
    Rounds2(b);
    FirstWords(b);
    NextRound(b, 2);
    NextRound(b, 3);
  }

  lemma Rounds6(b: Block)
    requires IsPadded(b)
    ensures Rounds(INITIAL, b, 6)
      == Vars(0x2b4209f5, 0x04409a6a, 0xd550f666, 0xc8c347a7,
           0x714260ad, 0x43ada245, 0x24e00850, 0xf92939eb)
  {
    hide W, Rounds, IsPadded;
    Rounds4(b);
    FirstWords(b);
    NextRound(b, 4);
    NextRound(b, 5);
  }

  lemma Rounds8(b: Block)
    requires IsPadded(b)
    ensures Rounds(INITIAL, b, 8)
      == Vars(0x85a07b5f, 0xe5030380, 0x2b4209f5, 0x04409a6a,
           0x0c657a79, 0x9b27a401, 0x714260ad, 0x43ada245)
  {
    hide W, Rounds, IsPadded;
    Rounds6(b);
    FirstWords(b);
    NextRound(b, 6);
    NextRound(b, 7);
  }

  lemma Rounds10(b: Block)
    requires IsPadded(b)
    ensures Rounds(INITIAL, b, 10)
      == Vars(0x8c87346b, 0x8e04ecb9, 0x85a07b5f, 0xe5030380,
           0x1cc92596, 0x32ca2d8c, 0x0c657a79, 0x9b27a401)
  {
    hide W, Rounds, IsPadded;
    Rounds8(b);
    FirstWords(b);
    NextRound(b, 8);
    NextRound(b, 9);
  }

  lemma Rounds12(b: Block)
    requires IsPadded(b)
    ensures Rounds(INITIAL, b, 12)
      == Vars(0xf71fc5a9, 0x4798a3f4, 0x8c87346b, 0x8e04ecb9,
           0x816fd6e9, 0x436b23e8, 0x1cc92596, 0x32ca2d8c)
  {
    hide W, Rounds, IsPadded;
    Rounds10(b);
    FirstWords(b);
    NextRound(b, 10);
    NextRound(b, 11);
  }

  lemma Rounds14(b: Block)
    requires IsPadded(b)
    ensures Rounds(INITIAL, b, 14)
      == Vars(0xd932eb16, 0x87912990, 0xf71fc5a9, 0x4798a3f4,
           0x745a48de, 0x1e578218, 0x816fd6e9, 0x436b23e8)
  {
    hide W, Rounds, IsPadded;
    Rounds12(b);
    FirstWords(b);
    NextRound(b, 12);
    NextRound(b, 13);
  }

  lemma Rounds16(b: Block)
    requires IsPadded(b)
    ensures Rounds(INITIAL, b, 16)
      == Vars(0xb0fa238e, 0xc0645fde, 0xd932eb16, 0x87912990,
           0x07590dcd, 0x0b92f20c, 0x745a48de, 0x1e578218)
  {
    hide W, Rounds, IsPadded;
    Rounds14(b);
    FirstWords(b);
    NextRound(b, 14);
    NextRound(b, 15);
  }

  lemma Rounds18(b: Block)
    requires IsPadded(b)
    ensures Rounds(INITIAL, b, 18)
      == Vars(0xc2fbd9d1, 0x21da9a9b, 0xb0fa238e, 0xc0645fde,
           0x846ee454, 0x8034229c, 0x07590dcd, 0x0b92f20c)
  {
    hide W, Rounds, IsPadded;
    Rounds16(b);
    Words16(b);
    NextRound(b, 16);
    NextRound(b, 17);
  }

  lemma Rounds20(b: Block)
    requires IsPadded(b)
    ensures Rounds(INITIAL, b, 20)
      == Vars(0xe1f20c33, 0xfe777bbf, 0xc2fbd9d1, 0x21da9a9b,
           0xb0638179, 0xcc899961, 0x846ee454, 0x8034229c)
  {
    hide W, Rounds, IsPadded;
    Rounds18(b);
    Words16(b);
    NextRound(b, 18);
    NextRound(b, 19);
  }

  lemma Rounds22(b: Block)
    requires IsPadded(b)
    ensures Rounds(INITIAL, b, 22)
      == Vars(0xc2606d6d, 0x9dc68b63, 0xe1f20c33, 0xfe777bbf,
           0xe1257970, 0x8ada8930, 0xb0638179, 0xcc899961)
  {
    hide W, Rounds, IsPadded;
    Rounds20(b);
    Words20(b);
    NextRound(b, 20);
    NextRound(b, 21);
  }

  lemma Rounds24(b: Block)
    requires IsPadded(b)
    ensures Rounds(INITIAL, b, 24)
      == Vars(0xc5d53d8d, 0xa7a3623f, 0xc2606d6d, 0x9dc68b63,
           0xaa47c347, 0x49f5114a, 0xe1257970, 0x8ada8930)
  {
    hide W, Rounds, IsPadded;
    Rounds22(b);
    Words20(b);
    NextRound(b, 22);
    NextRound(b, 23);
  }

  lemma Rounds26(b: Block)
    requires IsPadded(b)
    ensures Rounds(INITIAL, b, 26)
      == Vars(0xcde8037d, 0x1c2c2838, 0xc5d53d8d, 0xa7a3623f,
           0x14383d8e, 0x2823ef91, 0xaa47c347, 0x49f5114a)
  {
    hide W, Rounds, IsPadded;
    Rounds24(b);
    Words24(b);
    NextRound(b, 24);
    NextRound(b, 25);
  }

  lemma Rounds28(b: Block)
    requires IsPadded(b)
    ensures Rounds(INITIAL, b, 28)
      == Vars(0x77d37528, 0xb62ec4bc, 0xcde8037d, 0x1c2c2838,
           0xedffbff8, 0xc74c6516, 0x14383d8e, 0x2823ef91)
  {
    hide W, Rounds, IsPadded;
    Rounds26(b);
    Words24(b);
    NextRound(b, 26);
    NextRound(b, 27);
  }

  lemma Rounds30(b: Block)
    requires IsPadded(b)
    ensures Rounds(INITIAL, b, 30)
      == Vars(0xa0060b30, 0x363482c9, 0x77d37528, 0xb62ec4bc,
           0xade79437, 0x6112a3b7, 0xedffbff8, 0xc74c6516)
  {
    hide W, Rounds, IsPadded;
    Rounds28(b);
    Words28(b);
    NextRound(b, 28);
    NextRound(b, 29);
  }

  lemma Rounds32(b: Block)
    requires IsPadded(b)
    ensures Rounds(INITIAL, b, 32)
      == Vars(0x73b33bf5, 0xea992a22, 0xa0060b30, 0x363482c9,
           0xba591112, 0x0109ab3a, 0xade79437, 0x6112a3b7)
  {
    hide W, Rounds, IsPadded;
    Rounds30(b);
    Words28(b);
    NextRound(b, 30);
    NextRound(b, 31);
  }

  lemma Rounds34(b: Block)
    requires IsPadded(b)
    ensures Rounds(INITIAL, b, 34)
      == Vars(0xfe604df5, 0x98e12507, 0x73b33bf5, 0xea992a22,
           0x59249dd3, 0x9cd9f5f6, 0xba591112, 0x0109ab3a)
  {
    hide W, Rounds, IsPadded;
    Rounds32(b);
    Words32(b);
    NextRound(b, 32);
    NextRound(b, 33);
  }

  lemma Rounds36(b: Block)
    requires IsPadded(b)
    ensures Rounds(INITIAL, b, 36)
      == Vars(0x65a0cfe4, 0xa9a7738c, 0xfe604df5, 0x98e12507,
           0xf4b002d6, 0x085f3833, 0x59249dd3, 0x9cd9f5f6)
  {
    hide W, Rounds, IsPadded;
    Rounds34(b);
    Words32(b);
    NextRound(b, 34);
    NextRound(b, 35);
  }

  lemma Rounds38(b: Block)
    requires IsPadded(b)
    ensures Rounds(INITIAL, b, 38)
      == Vars(0x34df1604, 0x41a65cb1, 0x65a0cfe4, 0xa9a7738c,
           0xa507a53d, 0x0772a26b, 0xf4b002d6, 0x085f3833)
  {
    hide W, Rounds, IsPadded;
    Rounds36(b);
    Words36(b);
    NextRound(b, 36);
    NextRound(b, 37);
  }

  lemma Rounds40(b: Block)
    requires IsPadded(b)
    ensures Rounds(INITIAL, b, 40)
      == Vars(0x79ea687a, 0x6dc57a8a, 0x34df1604, 0x41a65cb1,
           0x1efbc0a0, 0xf0781bc8, 0xa507a53d, 0x0772a26b)
  {
    hide W, Rounds, IsPadded;
    Rounds38(b);
    Words36(b);
    NextRound(b, 38);
    NextRound(b, 39);
  }

  lemma Rounds42(b: Block)
    requires IsPadded(b)
    ensures Rounds(INITIAL, b, 42)
      == Vars(0xdf46652f, 0xd6670766, 0x79ea687a, 0x6dc57a8a,
           0x838b2711, 0x26352d63, 0x1efbc0a0, 0xf0781bc8)
  {
    hide W, Rounds, IsPadded;
    Rounds40(b);
    Words40(b);
    NextRound(b, 40);
    NextRound(b, 41);
  }

  lemma Rounds44(b: Block)
    requires IsPadded(b)
    ensures Rounds(INITIAL, b, 44)
      == Vars(0x9d4baf93, 0x17aa0dfe, 0xdf46652f, 0xd6670766,
           0xfda24c2e, 0xdecd4715, 0x838b2711, 0x26352d63)
  {
    hide W, Rounds, IsPadded;
    Rounds42(b);
    Words40(b);
    NextRound(b, 42);
    NextRound(b, 43);
  }

  lemma Rounds46(b: Block)
    requires IsPadded(b)
    ensures Rounds(INITIAL, b, 46)
      == Vars(0x72ab4b91, 0x26628815, 0x9d4baf93, 0x17aa0dfe,
           0xb7755da1, 0xa80f11f0, 0xfda24c2e, 0xdecd4715)
  {
    hide W, Rounds, IsPadded;
    Rounds44(b);
    Words44(b);
    NextRound(b, 44);
    NextRound(b, 45);
  }

  lemma Rounds48(b: Block)
    requires IsPadded(b)
    ensures Rounds(INITIAL, b, 48)
      == Vars(0x4172328d, 0xa14c14b0, 0x72ab4b91, 0x26628815,
           0xfecf0bc6, 0xd57b94a9, 0xb7755da1, 0xa80f11f0)
  {
    hide W, Rounds, IsPadded;
    Rounds46(b);
    Words44(b);
    NextRound(b, 46);
    NextRound(b, 47);
  }

  lemma Rounds50(b: Block)
    requires IsPadded(b)
    ensures Rounds(INITIAL, b, 50)
      == Vars(0xf11bfaa8, 0x05757ceb, 0x4172328d, 0xa14c14b0,
           0x6e5c390c, 0xbd714038, 0xfecf0bc6, 0xd57b94a9)
  {
    hide W, Rounds, IsPadded;
    Rounds48(b);
    Words48(b);
    NextRound(b, 48);
    NextRound(b, 49);
  }

  lemma Rounds52(b: Block)
    requires IsPadded(b)
    ensures Rounds(INITIAL, b, 52)
      == Vars(0x886e7a22, 0x7a0508a1, 0xf11bfaa8, 0x05757ceb,
           0x49231c1e, 0x52f1ccf7, 0x6e5c390c, 0xbd714038)
  {
    hide W, Rounds, IsPadded;
    Rounds50(b);
    Words48(b);
    NextRound(b, 50);
    NextRound(b, 51);
  }

  lemma Rounds54(b: Block)
    requires IsPadded(b)
    ensures Rounds(INITIAL, b, 54)
      == Vars(0xf5702fdb, 0x101fd28f, 0x886e7a22, 0x7a0508a1,
           0x9f4787c3, 0x529e7d00, 0x49231c1e, 0x52f1ccf7)
  {
    hide W, Rounds, IsPadded;
    Rounds52(b);
    Words52(b);
    NextRound(b, 52);
    NextRound(b, 53);
  }

  lemma Rounds56(b: Block)
    requires IsPadded(b)
    ensures Rounds(INITIAL, b, 56)
      == Vars(0x38cc9913, 0x3ec45cdb, 0xf5702fdb, 0x101fd28f,
           0x54cb266b, 0xe50e1b4f, 0x9f4787c3, 0x529e7d00)
  {
    hide W, Rounds, IsPadded;
    Rounds54(b);
    Words52(b);
    NextRound(b, 54);
    NextRound(b, 55);
  }

  lemma Rounds58(b: Block)
    requires IsPadded(b)
    ensures Rounds(INITIAL, b, 58)
      == Vars(0xc062d46f, 0xfcd1887b, 0x38cc9913, 0x3ec45cdb,
           0x7e44008e, 0x9b5e906c, 0x54cb266b, 0xe50e1b4f)
  {
    hide W, Rounds, IsPadded;
    Rounds56(b);
    Words56(b);
    NextRound(b, 56);
    NextRound(b, 57);
  }

  lemma Rounds60(b: Block)
    requires IsPadded(b)
    ensures Rounds(INITIAL, b, 60)
      == Vars(0xb6ae8fff, 0xffb70472, 0xc062d46f, 0xfcd1887b,
           0xb21bad3d, 0x6d83bfc6, 0x7e44008e, 0x9b5e906c)
  {
    hide W, Rounds, IsPadded;
    Rounds58(b);
    Words56(b);
    NextRound(b, 58);
    NextRound(b, 59);
  }

  lemma Rounds62(b: Block)
    requires IsPadded(b)
    ensures Rounds(INITIAL, b, 62)
      == Vars(0x04d24d6c, 0xb85e2ce9, 0xb6ae8fff, 0xffb70472,
           0x948d25b6, 0x961f4894, 0xb21bad3d, 0x6d83bfc6)
  {
    hide W, Rounds, IsPadded;
    Rounds60(b);
    Words60(b);
    NextRound(b, 60);
    NextRound(b, 61);
  }

  lemma Rounds64(b: Block)
    requires IsPadded(b)
    ensures Rounds(INITIAL, b, 64)
      == Vars(0x506e3058, 0xd39a2165, 0x04d24d6c, 0xb85e2ce9,
           0x5ef50f24, 0xfb121210, 0x948d25b6, 0x961f4894)
  {
    hide W, Rounds, IsPadded;
    Rounds62(b);
    Words60(b);
    NextRound(b, 62);
    NextRound(b, 63);
  }

  // ---------------------------------------------------------------------------------------------
  // The hash

  lemma CompressedExample(b: Block)
    requires IsPadded(b)
    ensures Compress(INITIAL, b) == [
      0xba7816bf, 0x8f01cfea, 0x414140de, 0x5dae2223,
      0xb00361a3, 0x96177a9c, 0xb410ff61, 0xf20015ad]
  {
    hide Rounds, IsPadded;
    Rounds64(b);
  }

  lemma DigestedExample(b: Block)
    requires IsPadded(b)
    ensures Digest(INITIAL, b) == Compress(INITIAL, b)
  {
    hide Compress, IsPadded;
    DigestBlock(INITIAL, [], b);
    assert [] + b == b;
  }

  lemma {:induction false} HashBytesOfPart(h: State, i: nat)
    requires i < 8
    ensures HashBytes(h[i..]) == BytesOf(h[i]) + HashBytes(h[i + 1..])
  {
    hide BytesOf;
    assert h[i..][1..] == h[i + 1..];
  }

  lemma HashBytesOfState(h: State)
    ensures HashBytes(h) == BytesOf(h[0]) + (BytesOf(h[1]) + (BytesOf(h[2]) + (BytesOf(h[3])
                          + (BytesOf(h[4]) + (BytesOf(h[5]) + (BytesOf(h[6]) + BytesOf(h[7])))))))
  {
    assert h[0..] == h && HashBytes(h[8..]) == [];
    hide BytesOf, HashBytes;
    HashBytesOfPart(h, 0);
    HashBytesOfPart(h, 1);
    HashBytesOfPart(h, 2);
    HashBytesOfPart(h, 3);
    HashBytesOfPart(h, 4);
    HashBytesOfPart(h, 5);
    HashBytesOfPart(h, 6);
    HashBytesOfPart(h, 7);
    assert BytesOf(h[7]) + [] == BytesOf(h[7]);
  }


  lemma BytesOfFirstFour()
    ensures BytesOf(0xba7816bf) == [0xba, 0x78, 0x16, 0xbf]
    ensures BytesOf(0x8f01cfea) == [0x8f, 0x01, 0xcf, 0xea]
    ensures BytesOf(0x414140de) == [0x41, 0x41, 0x40, 0xde]
    ensures BytesOf(0x5dae2223) == [0x5d, 0xae, 0x22, 0x23]
  {
  }

  lemma BytesOfLastFour()
    ensures BytesOf(0xb00361a3) == [0xb0, 0x03, 0x61, 0xa3]
    ensures BytesOf(0x96177a9c) == [0x96, 0x17, 0x7a, 0x9c]
    ensures BytesOf(0xb410ff61) == [0xb4, 0x10, 0xff, 0x61]
    ensures BytesOf(0xf20015ad) == [0xf2, 0x00, 0x15, 0xad]
  {
  }

  /** The example: what "abc" hashes to. */
  lemma HashOfAbc()
    ensures HashOf(ABC) == [
      0xba, 0x78, 0x16, 0xbf, 0x8f, 0x01, 0xcf, 0xea,
      0x41, 0x41, 0x40, 0xde, 0x5d, 0xae, 0x22, 0x23,
      0xb0, 0x03, 0x61, 0xa3, 0x96, 0x17, 0x7a, 0x9c,
      0xb4, 0x10, 0xff, 0x61, 0xf2, 0x00, 0x15, 0xad]
  {
    hide LengthBytes, Digest, Compress, HashBytes, BytesOf;
    PaddedFits(ABC);
    LengthOfExample();
    assert |Padding(|ABC|)| == 61;
    var b: Block := ABC + Padding(|ABC|);
    DigestedExample(b);
    CompressedExample(b);
    HashBytesOfState(Compress(INITIAL, b));
    BytesOfFirstFour();
    BytesOfLastFour();
  }
}
