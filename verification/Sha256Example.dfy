/** The example of a one-block message: the digest of "abc", worked out step by step. */
module Sha256Example {
  import opened Sha256Spec
  import opened WordValues

  const ABC: Bytes := [0x61, 0x62, 0x63]

  const PADDED: Bytes := [0x61, 0x62, 0x63, 0x80] + Zeros(59) + [24]

  lemma Padded()
    ensures Pad(ABC) == PADDED
  {
    assert BitLength(3) == 24;
    assert BigEndian64(24) == [0, 0, 0, 0, 0, 0, 0, 24];
  }

  lemma MessageWords(b: Bytes, t: nat)
    requires b == PADDED && t < 16
    ensures W(b, t) == if t == 0 then 0x61626380 else if t == 15 then 0x00000018 else 0
  {
    hide FirstHighest;
    WordsOfBytes();
    if t == 0 {
      assert b[0] == 0x61 && b[1] == 0x62 && b[2] == 0x63 && b[3] == 0x80;
    } else {
      assert b[4 * t] == 0 && b[4 * t + 1] == 0 && b[4 * t + 2] == 0 && b[4 * t + 3] == if t == 15 then 24 else 0;
    }
  }

  lemma WordsOfBytes()
    ensures FirstHighest(0x61, 0x62, 0x63, 0x80) == 0x61626380
    ensures FirstHighest(0, 0, 0, 0) == 0 && FirstHighest(0, 0, 0, 24) == 0x00000018
  {
  }

  lemma ScheduleStep(b: Bytes, t: nat)
    requires b == PADDED && 16 <= t
    ensures W(b, t) == Plus(Plus(Plus(SmallSigma1(W(b, t - 2)), W(b, t - 7)), SmallSigma0(W(b, t - 15))),
                                 W(b, t - 16))
  {
    hide MessageWord, SmallSigma0, SmallSigma1, Plus;
  }

  lemma RoundStep(b: Bytes, t: nat)
    requires b == PADDED && t < 64
    ensures Rounds(INITIAL, b, t + 1) == Round(Rounds(INITIAL, b, t), K(t), W(b, t))
  {
    hide Round, K, W;
  }

  // ----- words and rounds 0 to 7

  lemma Words0(b: Bytes)
    requires b == PADDED
    ensures W(b, 0) == 0x61626380 && W(b, 1) == 0x00000000
    ensures W(b, 2) == 0x00000000 && W(b, 3) == 0x00000000
    ensures W(b, 4) == 0x00000000 && W(b, 5) == 0x00000000
    ensures W(b, 6) == 0x00000000 && W(b, 7) == 0x00000000
  {
    hide W;
    MessageWords(b, 0);
    MessageWords(b, 1);
    MessageWords(b, 2);
    MessageWords(b, 3);
    MessageWords(b, 4);
    MessageWords(b, 5);
    MessageWords(b, 6);
    MessageWords(b, 7);
  }

  lemma RoundSums0()
    ensures Round(Words(0x6a09e667, 0xbb67ae85, 0x3c6ef372, 0xa54ff53a, 0x510e527f, 0x9b05688c, 0x1f83d9ab, 0x5be0cd19),
                  0x428a2f98, 0x61626380)
            == Words(0x5d6aebcd, 0x6a09e667, 0xbb67ae85, 0x3c6ef372, 0xfa2a4622, 0x510e527f, 0x9b05688c, 0x1f83d9ab)
    ensures Round(Words(0x5d6aebcd, 0x6a09e667, 0xbb67ae85, 0x3c6ef372, 0xfa2a4622, 0x510e527f, 0x9b05688c, 0x1f83d9ab),
                  0x71374491, 0x00000000)
            == Words(0x5a6ad9ad, 0x5d6aebcd, 0x6a09e667, 0xbb67ae85, 0x78ce7989, 0xfa2a4622, 0x510e527f, 0x9b05688c)
    ensures Round(Words(0x5a6ad9ad, 0x5d6aebcd, 0x6a09e667, 0xbb67ae85, 0x78ce7989, 0xfa2a4622, 0x510e527f, 0x9b05688c),
                  0xb5c0fbcf, 0x00000000)
            == Words(0xc8c347a7, 0x5a6ad9ad, 0x5d6aebcd, 0x6a09e667, 0xf92939eb, 0x78ce7989, 0xfa2a4622, 0x510e527f)
    ensures Round(Words(0xc8c347a7, 0x5a6ad9ad, 0x5d6aebcd, 0x6a09e667, 0xf92939eb, 0x78ce7989, 0xfa2a4622, 0x510e527f),
                  0xe9b5dba5, 0x00000000)
            == Words(0xd550f666, 0xc8c347a7, 0x5a6ad9ad, 0x5d6aebcd, 0x24e00850, 0xf92939eb, 0x78ce7989, 0xfa2a4622)
    ensures Round(Words(0xd550f666, 0xc8c347a7, 0x5a6ad9ad, 0x5d6aebcd, 0x24e00850, 0xf92939eb, 0x78ce7989, 0xfa2a4622),
                  0x3956c25b, 0x00000000)
            == Words(0x04409a6a, 0xd550f666, 0xc8c347a7, 0x5a6ad9ad, 0x43ada245, 0x24e00850, 0xf92939eb, 0x78ce7989)
    ensures Round(Words(0x04409a6a, 0xd550f666, 0xc8c347a7, 0x5a6ad9ad, 0x43ada245, 0x24e00850, 0xf92939eb, 0x78ce7989),
                  0x59f111f1, 0x00000000)
            == Words(0x2b4209f5, 0x04409a6a, 0xd550f666, 0xc8c347a7, 0x714260ad, 0x43ada245, 0x24e00850, 0xf92939eb)
    ensures Round(Words(0x2b4209f5, 0x04409a6a, 0xd550f666, 0xc8c347a7, 0x714260ad, 0x43ada245, 0x24e00850, 0xf92939eb),
                  0x923f82a4, 0x00000000)
            == Words(0xe5030380, 0x2b4209f5, 0x04409a6a, 0xd550f666, 0x9b27a401, 0x714260ad, 0x43ada245, 0x24e00850)
    ensures Round(Words(0xe5030380, 0x2b4209f5, 0x04409a6a, 0xd550f666, 0x9b27a401, 0x714260ad, 0x43ada245, 0x24e00850),
                  0xab1c5ed5, 0x00000000)
            == Words(0x85a07b5f, 0xe5030380, 0x2b4209f5, 0x04409a6a, 0x0c657a79, 0x9b27a401, 0x714260ad, 0x43ada245)
  {
  }

  lemma Rounds0(b: Bytes)
    requires b == PADDED
    ensures Rounds(INITIAL, b, 8)
            == Words(0x85a07b5f, 0xe5030380, 0x2b4209f5, 0x04409a6a, 0x0c657a79, 0x9b27a401, 0x714260ad, 0x43ada245)
  {
    hide W, Round, Rounds;
    NoRounds(b);
    Words0(b);
    RoundSums0();
    RoundStep(b, 0);
    RoundStep(b, 1);
    RoundStep(b, 2);
    RoundStep(b, 3);
    RoundStep(b, 4);
    RoundStep(b, 5);
    RoundStep(b, 6);
    RoundStep(b, 7);
  }

  // ----- words and rounds 8 to 15

  lemma Words1(b: Bytes)
    requires b == PADDED
    ensures W(b, 8) == 0x00000000 && W(b, 9) == 0x00000000
    ensures W(b, 10) == 0x00000000 && W(b, 11) == 0x00000000
    ensures W(b, 12) == 0x00000000 && W(b, 13) == 0x00000000
    ensures W(b, 14) == 0x00000000 && W(b, 15) == 0x00000018
  {
    hide W;
    MessageWords(b, 8);
    MessageWords(b, 9);
    MessageWords(b, 10);
    MessageWords(b, 11);
    MessageWords(b, 12);
    MessageWords(b, 13);
    MessageWords(b, 14);
    MessageWords(b, 15);
  }

  lemma RoundSums1()
    ensures Round(Words(0x85a07b5f, 0xe5030380, 0x2b4209f5, 0x04409a6a, 0x0c657a79, 0x9b27a401, 0x714260ad, 0x43ada245),
                  0xd807aa98, 0x00000000)
            == Words(0x8e04ecb9, 0x85a07b5f, 0xe5030380, 0x2b4209f5, 0x32ca2d8c, 0x0c657a79, 0x9b27a401, 0x714260ad)
    ensures Round(Words(0x8e04ecb9, 0x85a07b5f, 0xe5030380, 0x2b4209f5, 0x32ca2d8c, 0x0c657a79, 0x9b27a401, 0x714260ad),
                  0x12835b01, 0x00000000)
            == Words(0x8c87346b, 0x8e04ecb9, 0x85a07b5f, 0xe5030380, 0x1cc92596, 0x32ca2d8c, 0x0c657a79, 0x9b27a401)
    ensures Round(Words(0x8c87346b, 0x8e04ecb9, 0x85a07b5f, 0xe5030380, 0x1cc92596, 0x32ca2d8c, 0x0c657a79, 0x9b27a401),
                  0x243185be, 0x00000000)
            == Words(0x4798a3f4, 0x8c87346b, 0x8e04ecb9, 0x85a07b5f, 0x436b23e8, 0x1cc92596, 0x32ca2d8c, 0x0c657a79)
    ensures Round(Words(0x4798a3f4, 0x8c87346b, 0x8e04ecb9, 0x85a07b5f, 0x436b23e8, 0x1cc92596, 0x32ca2d8c, 0x0c657a79),
                  0x550c7dc3, 0x00000000)
            == Words(0xf71fc5a9, 0x4798a3f4, 0x8c87346b, 0x8e04ecb9, 0x816fd6e9, 0x436b23e8, 0x1cc92596, 0x32ca2d8c)
    ensures Round(Words(0xf71fc5a9, 0x4798a3f4, 0x8c87346b, 0x8e04ecb9, 0x816fd6e9, 0x436b23e8, 0x1cc92596, 0x32ca2d8c),
                  0x72be5d74, 0x00000000)
            == Words(0x87912990, 0xf71fc5a9, 0x4798a3f4, 0x8c87346b, 0x1e578218, 0x816fd6e9, 0x436b23e8, 0x1cc92596)
    ensures Round(Words(0x87912990, 0xf71fc5a9, 0x4798a3f4, 0x8c87346b, 0x1e578218, 0x816fd6e9, 0x436b23e8, 0x1cc92596),
                  0x80deb1fe, 0x00000000)
            == Words(0xd932eb16, 0x87912990, 0xf71fc5a9, 0x4798a3f4, 0x745a48de, 0x1e578218, 0x816fd6e9, 0x436b23e8)
    ensures Round(Words(0xd932eb16, 0x87912990, 0xf71fc5a9, 0x4798a3f4, 0x745a48de, 0x1e578218, 0x816fd6e9, 0x436b23e8),
                  0x9bdc06a7, 0x00000000)
            == Words(0xc0645fde, 0xd932eb16, 0x87912990, 0xf71fc5a9, 0x0b92f20c, 0x745a48de, 0x1e578218, 0x816fd6e9)
    ensures Round(Words(0xc0645fde, 0xd932eb16, 0x87912990, 0xf71fc5a9, 0x0b92f20c, 0x745a48de, 0x1e578218, 0x816fd6e9),
                  0xc19bf174, 0x00000018)
            == Words(0xb0fa238e, 0xc0645fde, 0xd932eb16, 0x87912990, 0x07590dcd, 0x0b92f20c, 0x745a48de, 0x1e578218)
  {
  }

  lemma Rounds1(b: Bytes)
    requires b == PADDED
    ensures Rounds(INITIAL, b, 16)
            == Words(0xb0fa238e, 0xc0645fde, 0xd932eb16, 0x87912990, 0x07590dcd, 0x0b92f20c, 0x745a48de, 0x1e578218)
  {
    hide W, Round, Rounds;
    Rounds0(b);
    Words1(b);
    RoundSums1();
    RoundStep(b, 8);
    RoundStep(b, 9);
    RoundStep(b, 10);
    RoundStep(b, 11);
    RoundStep(b, 12);
    RoundStep(b, 13);
    RoundStep(b, 14);
    RoundStep(b, 15);
  }

  // ----- words and rounds 16 to 23

  lemma Sums2()
    ensures Plus(Plus(Plus(SmallSigma1(0x00000000), 0x00000000), SmallSigma0(0x00000000)), 0x61626380) == 0x61626380
    ensures Plus(Plus(Plus(SmallSigma1(0x00000018), 0x00000000), SmallSigma0(0x00000000)), 0x00000000) == 0x000f0000
    ensures Plus(Plus(Plus(SmallSigma1(0x61626380), 0x00000000), SmallSigma0(0x00000000)), 0x00000000) == 0x7da86405
    ensures Plus(Plus(Plus(SmallSigma1(0x000f0000), 0x00000000), SmallSigma0(0x00000000)), 0x00000000) == 0x600003c6
    ensures Plus(Plus(Plus(SmallSigma1(0x7da86405), 0x00000000), SmallSigma0(0x00000000)), 0x00000000) == 0x3e9d7b78
    ensures Plus(Plus(Plus(SmallSigma1(0x600003c6), 0x00000000), SmallSigma0(0x00000000)), 0x00000000) == 0x0183fc00
    ensures Plus(Plus(Plus(SmallSigma1(0x3e9d7b78), 0x00000018), SmallSigma0(0x00000000)), 0x00000000) == 0x12dcbfdb
    ensures Plus(Plus(Plus(SmallSigma1(0x0183fc00), 0x61626380), SmallSigma0(0x00000000)), 0x00000000) == 0xe2e2c38e
  {
  }

  lemma Words2(b: Bytes)
    requires b == PADDED
    ensures W(b, 16) == 0x61626380 && W(b, 17) == 0x000f0000
    ensures W(b, 18) == 0x7da86405 && W(b, 19) == 0x600003c6
    ensures W(b, 20) == 0x3e9d7b78 && W(b, 21) == 0x0183fc00
    ensures W(b, 22) == 0x12dcbfdb && W(b, 23) == 0xe2e2c38e
  {
    hide W, Plus, SmallSigma0, SmallSigma1;
    Words0(b);
    Words1(b);
    Sums2();
    ScheduleStep(b, 16);
    ScheduleStep(b, 17);
    ScheduleStep(b, 18);
    ScheduleStep(b, 19);
    ScheduleStep(b, 20);
    ScheduleStep(b, 21);
    ScheduleStep(b, 22);
    ScheduleStep(b, 23);
  }

  lemma RoundSums2()
    ensures Round(Words(0xb0fa238e, 0xc0645fde, 0xd932eb16, 0x87912990, 0x07590dcd, 0x0b92f20c, 0x745a48de, 0x1e578218),
                  0xe49b69c1, 0x61626380)
            == Words(0x21da9a9b, 0xb0fa238e, 0xc0645fde, 0xd932eb16, 0x8034229c, 0x07590dcd, 0x0b92f20c, 0x745a48de)
    ensures Round(Words(0x21da9a9b, 0xb0fa238e, 0xc0645fde, 0xd932eb16, 0x8034229c, 0x07590dcd, 0x0b92f20c, 0x745a48de),
                  0xefbe4786, 0x000f0000)
            == Words(0xc2fbd9d1, 0x21da9a9b, 0xb0fa238e, 0xc0645fde, 0x846ee454, 0x8034229c, 0x07590dcd, 0x0b92f20c)
    ensures Round(Words(0xc2fbd9d1, 0x21da9a9b, 0xb0fa238e, 0xc0645fde, 0x846ee454, 0x8034229c, 0x07590dcd, 0x0b92f20c),
                  0x0fc19dc6, 0x7da86405)
            == Words(0xfe777bbf, 0xc2fbd9d1, 0x21da9a9b, 0xb0fa238e, 0xcc899961, 0x846ee454, 0x8034229c, 0x07590dcd)
    ensures Round(Words(0xfe777bbf, 0xc2fbd9d1, 0x21da9a9b, 0xb0fa238e, 0xcc899961, 0x846ee454, 0x8034229c, 0x07590dcd),
                  0x240ca1cc, 0x600003c6)
            == Words(0xe1f20c33, 0xfe777bbf, 0xc2fbd9d1, 0x21da9a9b, 0xb0638179, 0xcc899961, 0x846ee454, 0x8034229c)
    ensures Round(Words(0xe1f20c33, 0xfe777bbf, 0xc2fbd9d1, 0x21da9a9b, 0xb0638179, 0xcc899961, 0x846ee454, 0x8034229c),
                  0x2de92c6f, 0x3e9d7b78)
            == Words(0x9dc68b63, 0xe1f20c33, 0xfe777bbf, 0xc2fbd9d1, 0x8ada8930, 0xb0638179, 0xcc899961, 0x846ee454)
    ensures Round(Words(0x9dc68b63, 0xe1f20c33, 0xfe777bbf, 0xc2fbd9d1, 0x8ada8930, 0xb0638179, 0xcc899961, 0x846ee454),
                  0x4a7484aa, 0x0183fc00)
            == Words(0xc2606d6d, 0x9dc68b63, 0xe1f20c33, 0xfe777bbf, 0xe1257970, 0x8ada8930, 0xb0638179, 0xcc899961)
    ensures Round(Words(0xc2606d6d, 0x9dc68b63, 0xe1f20c33, 0xfe777bbf, 0xe1257970, 0x8ada8930, 0xb0638179, 0xcc899961),
                  0x5cb0a9dc, 0x12dcbfdb)
            == Words(0xa7a3623f, 0xc2606d6d, 0x9dc68b63, 0xe1f20c33, 0x49f5114a, 0xe1257970, 0x8ada8930, 0xb0638179)
    ensures Round(Words(0xa7a3623f, 0xc2606d6d, 0x9dc68b63, 0xe1f20c33, 0x49f5114a, 0xe1257970, 0x8ada8930, 0xb0638179),
                  0x76f988da, 0xe2e2c38e)
            == Words(0xc5d53d8d, 0xa7a3623f, 0xc2606d6d, 0x9dc68b63, 0xaa47c347, 0x49f5114a, 0xe1257970, 0x8ada8930)
  {
  }

  lemma Rounds2(b: Bytes)
    requires b == PADDED
    ensures Rounds(INITIAL, b, 24)
            == Words(0xc5d53d8d, 0xa7a3623f, 0xc2606d6d, 0x9dc68b63, 0xaa47c347, 0x49f5114a, 0xe1257970, 0x8ada8930)
  {
    hide W, Round, Rounds;
    Rounds1(b);
    Words2(b);
    RoundSums2();
    RoundStep(b, 16);
    RoundStep(b, 17);
    RoundStep(b, 18);
    RoundStep(b, 19);
    RoundStep(b, 20);
    RoundStep(b, 21);
    RoundStep(b, 22);
    RoundStep(b, 23);
  }

  // ----- words and rounds 24 to 31

  lemma Sums3()
    ensures Plus(Plus(Plus(SmallSigma1(0x12dcbfdb), 0x000f0000), SmallSigma0(0x00000000)), 0x00000000) == 0xc8215c1a
    ensures Plus(Plus(Plus(SmallSigma1(0xe2e2c38e), 0x7da86405), SmallSigma0(0x00000000)), 0x00000000) == 0xb73679a2
    ensures Plus(Plus(Plus(SmallSigma1(0xc8215c1a), 0x600003c6), SmallSigma0(0x00000000)), 0x00000000) == 0xe5bc3909
    ensures Plus(Plus(Plus(SmallSigma1(0xb73679a2), 0x3e9d7b78), SmallSigma0(0x00000000)), 0x00000000) == 0x32663c5b
    ensures Plus(Plus(Plus(SmallSigma1(0xe5bc3909), 0x0183fc00), SmallSigma0(0x00000000)), 0x00000000) == 0x9d209d67
    ensures Plus(Plus(Plus(SmallSigma1(0x32663c5b), 0x12dcbfdb), SmallSigma0(0x00000000)), 0x00000000) == 0xec8726cb
    ensures Plus(Plus(Plus(SmallSigma1(0x9d209d67), 0xe2e2c38e), SmallSigma0(0x00000018)), 0x00000000) == 0x702138a4
    ensures Plus(Plus(Plus(SmallSigma1(0xec8726cb), 0xc8215c1a), SmallSigma0(0x61626380)), 0x00000018) == 0xd3b7973b
  {
  }

  lemma Words3(b: Bytes)
    requires b == PADDED
    ensures W(b, 24) == 0xc8215c1a && W(b, 25) == 0xb73679a2
    ensures W(b, 26) == 0xe5bc3909 && W(b, 27) == 0x32663c5b
    ensures W(b, 28) == 0x9d209d67 && W(b, 29) == 0xec8726cb
    ensures W(b, 30) == 0x702138a4 && W(b, 31) == 0xd3b7973b
  {
    hide W, Plus, SmallSigma0, SmallSigma1;
    Words1(b);
    Words2(b);
    Sums3();
    ScheduleStep(b, 24);
    ScheduleStep(b, 25);
    ScheduleStep(b, 26);
    ScheduleStep(b, 27);
    ScheduleStep(b, 28);
    ScheduleStep(b, 29);
    ScheduleStep(b, 30);
    ScheduleStep(b, 31);
  }

  lemma RoundSums3()
    ensures Round(Words(0xc5d53d8d, 0xa7a3623f, 0xc2606d6d, 0x9dc68b63, 0xaa47c347, 0x49f5114a, 0xe1257970, 0x8ada8930),
                  0x983e5152, 0xc8215c1a)
            == Words(0x1c2c2838, 0xc5d53d8d, 0xa7a3623f, 0xc2606d6d, 0x2823ef91, 0xaa47c347, 0x49f5114a, 0xe1257970)
    ensures Round(Words(0x1c2c2838, 0xc5d53d8d, 0xa7a3623f, 0xc2606d6d, 0x2823ef91, 0xaa47c347, 0x49f5114a, 0xe1257970),
                  0xa831c66d, 0xb73679a2)
            == Words(0xcde8037d, 0x1c2c2838, 0xc5d53d8d, 0xa7a3623f, 0x14383d8e, 0x2823ef91, 0xaa47c347, 0x49f5114a)
    ensures Round(Words(0xcde8037d, 0x1c2c2838, 0xc5d53d8d, 0xa7a3623f, 0x14383d8e, 0x2823ef91, 0xaa47c347, 0x49f5114a),
                  0xb00327c8, 0xe5bc3909)
            == Words(0xb62ec4bc, 0xcde8037d, 0x1c2c2838, 0xc5d53d8d, 0xc74c6516, 0x14383d8e, 0x2823ef91, 0xaa47c347)
    ensures Round(Words(0xb62ec4bc, 0xcde8037d, 0x1c2c2838, 0xc5d53d8d, 0xc74c6516, 0x14383d8e, 0x2823ef91, 0xaa47c347),
                  0xbf597fc7, 0x32663c5b)
            == Words(0x77d37528, 0xb62ec4bc, 0xcde8037d, 0x1c2c2838, 0xedffbff8, 0xc74c6516, 0x14383d8e, 0x2823ef91)
    ensures Round(Words(0x77d37528, 0xb62ec4bc, 0xcde8037d, 0x1c2c2838, 0xedffbff8, 0xc74c6516, 0x14383d8e, 0x2823ef91),
                  0xc6e00bf3, 0x9d209d67)
            == Words(0x363482c9, 0x77d37528, 0xb62ec4bc, 0xcde8037d, 0x6112a3b7, 0xedffbff8, 0xc74c6516, 0x14383d8e)
    ensures Round(Words(0x363482c9, 0x77d37528, 0xb62ec4bc, 0xcde8037d, 0x6112a3b7, 0xedffbff8, 0xc74c6516, 0x14383d8e),
                  0xd5a79147, 0xec8726cb)
            == Words(0xa0060b30, 0x363482c9, 0x77d37528, 0xb62ec4bc, 0xade79437, 0x6112a3b7, 0xedffbff8, 0xc74c6516)
    ensures Round(Words(0xa0060b30, 0x363482c9, 0x77d37528, 0xb62ec4bc, 0xade79437, 0x6112a3b7, 0xedffbff8, 0xc74c6516),
                  0x06ca6351, 0x702138a4)
            == Words(0xea992a22, 0xa0060b30, 0x363482c9, 0x77d37528, 0x0109ab3a, 0xade79437, 0x6112a3b7, 0xedffbff8)
    ensures Round(Words(0xea992a22, 0xa0060b30, 0x363482c9, 0x77d37528, 0x0109ab3a, 0xade79437, 0x6112a3b7, 0xedffbff8),
                  0x14292967, 0xd3b7973b)
            == Words(0x73b33bf5, 0xea992a22, 0xa0060b30, 0x363482c9, 0xba591112, 0x0109ab3a, 0xade79437, 0x6112a3b7)
  {
  }

  lemma Rounds3(b: Bytes)
    requires b == PADDED
    ensures Rounds(INITIAL, b, 32)
            == Words(0x73b33bf5, 0xea992a22, 0xa0060b30, 0x363482c9, 0xba591112, 0x0109ab3a, 0xade79437, 0x6112a3b7)
  {
    hide W, Round, Rounds;
    Rounds2(b);
    Words3(b);
    RoundSums3();
    RoundStep(b, 24);
    RoundStep(b, 25);
    RoundStep(b, 26);
    RoundStep(b, 27);
    RoundStep(b, 28);
    RoundStep(b, 29);
    RoundStep(b, 30);
    RoundStep(b, 31);
  }

  // ----- words and rounds 32 to 39

  lemma Sums4()
    ensures Plus(Plus(Plus(SmallSigma1(0x702138a4), 0xb73679a2), SmallSigma0(0x000f0000)), 0x61626380) == 0x93f5997f
    ensures Plus(Plus(Plus(SmallSigma1(0xd3b7973b), 0xe5bc3909), SmallSigma0(0x7da86405)), 0x000f0000) == 0x3b68ba73
    ensures Plus(Plus(Plus(SmallSigma1(0x93f5997f), 0x32663c5b), SmallSigma0(0x600003c6)), 0x7da86405) == 0xaff4ffc1
    ensures Plus(Plus(Plus(SmallSigma1(0x3b68ba73), 0x9d209d67), SmallSigma0(0x3e9d7b78)), 0x600003c6) == 0xf10a5c62
    ensures Plus(Plus(Plus(SmallSigma1(0xaff4ffc1), 0xec8726cb), SmallSigma0(0x0183fc00)), 0x3e9d7b78) == 0x0a8b3996
    ensures Plus(Plus(Plus(SmallSigma1(0xf10a5c62), 0x702138a4), SmallSigma0(0x12dcbfdb)), 0x0183fc00) == 0x72af830a
    ensures Plus(Plus(Plus(SmallSigma1(0x0a8b3996), 0xd3b7973b), SmallSigma0(0xe2e2c38e)), 0x12dcbfdb) == 0x9409e33e
    ensures Plus(Plus(Plus(SmallSigma1(0x72af830a), 0x93f5997f), SmallSigma0(0xc8215c1a)), 0xe2e2c38e) == 0x24641522
  {
  }

  lemma Words4(b: Bytes)
    requires b == PADDED
    ensures W(b, 32) == 0x93f5997f && W(b, 33) == 0x3b68ba73
    ensures W(b, 34) == 0xaff4ffc1 && W(b, 35) == 0xf10a5c62
    ensures W(b, 36) == 0x0a8b3996 && W(b, 37) == 0x72af830a
    ensures W(b, 38) == 0x9409e33e && W(b, 39) == 0x24641522
  {
    hide W, Plus, SmallSigma0, SmallSigma1;
    Words2(b);
    Words3(b);
    Sums4();
    ScheduleStep(b, 32);
    ScheduleStep(b, 33);
    ScheduleStep(b, 34);
    ScheduleStep(b, 35);
    ScheduleStep(b, 36);
    ScheduleStep(b, 37);
    ScheduleStep(b, 38);
    ScheduleStep(b, 39);
  }

  lemma RoundSums4()
    ensures Round(Words(0x73b33bf5, 0xea992a22, 0xa0060b30, 0x363482c9, 0xba591112, 0x0109ab3a, 0xade79437, 0x6112a3b7),
                  0x27b70a85, 0x93f5997f)
            == Words(0x98e12507, 0x73b33bf5, 0xea992a22, 0xa0060b30, 0x9cd9f5f6, 0xba591112, 0x0109ab3a, 0xade79437)
    ensures Round(Words(0x98e12507, 0x73b33bf5, 0xea992a22, 0xa0060b30, 0x9cd9f5f6, 0xba591112, 0x0109ab3a, 0xade79437),
                  0x2e1b2138, 0x3b68ba73)
            == Words(0xfe604df5, 0x98e12507, 0x73b33bf5, 0xea992a22, 0x59249dd3, 0x9cd9f5f6, 0xba591112, 0x0109ab3a)
    ensures Round(Words(0xfe604df5, 0x98e12507, 0x73b33bf5, 0xea992a22, 0x59249dd3, 0x9cd9f5f6, 0xba591112, 0x0109ab3a),
                  0x4d2c6dfc, 0xaff4ffc1)
            == Words(0xa9a7738c, 0xfe604df5, 0x98e12507, 0x73b33bf5, 0x085f3833, 0x59249dd3, 0x9cd9f5f6, 0xba591112)
    ensures Round(Words(0xa9a7738c, 0xfe604df5, 0x98e12507, 0x73b33bf5, 0x085f3833, 0x59249dd3, 0x9cd9f5f6, 0xba591112),
                  0x53380d13, 0xf10a5c62)
            == Words(0x65a0cfe4, 0xa9a7738c, 0xfe604df5, 0x98e12507, 0xf4b002d6, 0x085f3833, 0x59249dd3, 0x9cd9f5f6)
    ensures Round(Words(0x65a0cfe4, 0xa9a7738c, 0xfe604df5, 0x98e12507, 0xf4b002d6, 0x085f3833, 0x59249dd3, 0x9cd9f5f6),
                  0x650a7354, 0x0a8b3996)
            == Words(0x41a65cb1, 0x65a0cfe4, 0xa9a7738c, 0xfe604df5, 0x0772a26b, 0xf4b002d6, 0x085f3833, 0x59249dd3)
    ensures Round(Words(0x41a65cb1, 0x65a0cfe4, 0xa9a7738c, 0xfe604df5, 0x0772a26b, 0xf4b002d6, 0x085f3833, 0x59249dd3),
                  0x766a0abb, 0x72af830a)
            == Words(0x34df1604, 0x41a65cb1, 0x65a0cfe4, 0xa9a7738c, 0xa507a53d, 0x0772a26b, 0xf4b002d6, 0x085f3833)
    ensures Round(Words(0x34df1604, 0x41a65cb1, 0x65a0cfe4, 0xa9a7738c, 0xa507a53d, 0x0772a26b, 0xf4b002d6, 0x085f3833),
                  0x81c2c92e, 0x9409e33e)
            == Words(0x6dc57a8a, 0x34df1604, 0x41a65cb1, 0x65a0cfe4, 0xf0781bc8, 0xa507a53d, 0x0772a26b, 0xf4b002d6)
    ensures Round(Words(0x6dc57a8a, 0x34df1604, 0x41a65cb1, 0x65a0cfe4, 0xf0781bc8, 0xa507a53d, 0x0772a26b, 0xf4b002d6),
                  0x92722c85, 0x24641522)
            == Words(0x79ea687a, 0x6dc57a8a, 0x34df1604, 0x41a65cb1, 0x1efbc0a0, 0xf0781bc8, 0xa507a53d, 0x0772a26b)
  {
  }

  lemma Rounds4(b: Bytes)
    requires b == PADDED
    ensures Rounds(INITIAL, b, 40)
            == Words(0x79ea687a, 0x6dc57a8a, 0x34df1604, 0x41a65cb1, 0x1efbc0a0, 0xf0781bc8, 0xa507a53d, 0x0772a26b)
  {
    hide W, Round, Rounds;
    Rounds3(b);
    Words4(b);
    RoundSums4();
    RoundStep(b, 32);
    RoundStep(b, 33);
    RoundStep(b, 34);
    RoundStep(b, 35);
    RoundStep(b, 36);
    RoundStep(b, 37);
    RoundStep(b, 38);
    RoundStep(b, 39);
  }

  // ----- words and rounds 40 to 47

  lemma Sums5()
    ensures Plus(Plus(Plus(SmallSigma1(0x9409e33e), 0x3b68ba73), SmallSigma0(0xb73679a2)), 0xc8215c1a) == 0x9f47bf94
    ensures Plus(Plus(Plus(SmallSigma1(0x24641522), 0xaff4ffc1), SmallSigma0(0xe5bc3909)), 0xb73679a2) == 0xf0a64f5a
    ensures Plus(Plus(Plus(SmallSigma1(0x9f47bf94), 0xf10a5c62), SmallSigma0(0x32663c5b)), 0xe5bc3909) == 0x3e246a79
    ensures Plus(Plus(Plus(SmallSigma1(0xf0a64f5a), 0x0a8b3996), SmallSigma0(0x9d209d67)), 0x32663c5b) == 0x27333ba3
    ensures Plus(Plus(Plus(SmallSigma1(0x3e246a79), 0x72af830a), SmallSigma0(0xec8726cb)), 0x9d209d67) == 0x0c4763f2
    ensures Plus(Plus(Plus(SmallSigma1(0x27333ba3), 0x9409e33e), SmallSigma0(0x702138a4)), 0xec8726cb) == 0x840abf27
    ensures Plus(Plus(Plus(SmallSigma1(0x0c4763f2), 0x24641522), SmallSigma0(0xd3b7973b)), 0x702138a4) == 0x7a290d5d
    ensures Plus(Plus(Plus(SmallSigma1(0x840abf27), 0x9f47bf94), SmallSigma0(0x93f5997f)), 0xd3b7973b) == 0x065c43da
  {
  }

  lemma Words5(b: Bytes)
    requires b == PADDED
    ensures W(b, 40) == 0x9f47bf94 && W(b, 41) == 0xf0a64f5a
    ensures W(b, 42) == 0x3e246a79 && W(b, 43) == 0x27333ba3
    ensures W(b, 44) == 0x0c4763f2 && W(b, 45) == 0x840abf27
    ensures W(b, 46) == 0x7a290d5d && W(b, 47) == 0x065c43da
  {
    hide W, Plus, SmallSigma0, SmallSigma1;
    Words3(b);
    Words4(b);
    Sums5();
    ScheduleStep(b, 40);
    ScheduleStep(b, 41);
    ScheduleStep(b, 42);
    ScheduleStep(b, 43);
    ScheduleStep(b, 44);
    ScheduleStep(b, 45);
    ScheduleStep(b, 46);
    ScheduleStep(b, 47);
  }

  lemma RoundSums5()
    ensures Round(Words(0x79ea687a, 0x6dc57a8a, 0x34df1604, 0x41a65cb1, 0x1efbc0a0, 0xf0781bc8, 0xa507a53d, 0x0772a26b),
                  0xa2bfe8a1, 0x9f47bf94)
            == Words(0xd6670766, 0x79ea687a, 0x6dc57a8a, 0x34df1604, 0x26352d63, 0x1efbc0a0, 0xf0781bc8, 0xa507a53d)
    ensures Round(Words(0xd6670766, 0x79ea687a, 0x6dc57a8a, 0x34df1604, 0x26352d63, 0x1efbc0a0, 0xf0781bc8, 0xa507a53d),
                  0xa81a664b, 0xf0a64f5a)
            == Words(0xdf46652f, 0xd6670766, 0x79ea687a, 0x6dc57a8a, 0x838b2711, 0x26352d63, 0x1efbc0a0, 0xf0781bc8)
    ensures Round(Words(0xdf46652f, 0xd6670766, 0x79ea687a, 0x6dc57a8a, 0x838b2711, 0x26352d63, 0x1efbc0a0, 0xf0781bc8),
                  0xc24b8b70, 0x3e246a79)
            == Words(0x17aa0dfe, 0xdf46652f, 0xd6670766, 0x79ea687a, 0xdecd4715, 0x838b2711, 0x26352d63, 0x1efbc0a0)
    ensures Round(Words(0x17aa0dfe, 0xdf46652f, 0xd6670766, 0x79ea687a, 0xdecd4715, 0x838b2711, 0x26352d63, 0x1efbc0a0),
                  0xc76c51a3, 0x27333ba3)
            == Words(0x9d4baf93, 0x17aa0dfe, 0xdf46652f, 0xd6670766, 0xfda24c2e, 0xdecd4715, 0x838b2711, 0x26352d63)
    ensures Round(Words(0x9d4baf93, 0x17aa0dfe, 0xdf46652f, 0xd6670766, 0xfda24c2e, 0xdecd4715, 0x838b2711, 0x26352d63),
                  0xd192e819, 0x0c4763f2)
            == Words(0x26628815, 0x9d4baf93, 0x17aa0dfe, 0xdf46652f, 0xa80f11f0, 0xfda24c2e, 0xdecd4715, 0x838b2711)
    ensures Round(Words(0x26628815, 0x9d4baf93, 0x17aa0dfe, 0xdf46652f, 0xa80f11f0, 0xfda24c2e, 0xdecd4715, 0x838b2711),
                  0xd6990624, 0x840abf27)
            == Words(0x72ab4b91, 0x26628815, 0x9d4baf93, 0x17aa0dfe, 0xb7755da1, 0xa80f11f0, 0xfda24c2e, 0xdecd4715)
    ensures Round(Words(0x72ab4b91, 0x26628815, 0x9d4baf93, 0x17aa0dfe, 0xb7755da1, 0xa80f11f0, 0xfda24c2e, 0xdecd4715),
                  0xf40e3585, 0x7a290d5d)
            == Words(0xa14c14b0, 0x72ab4b91, 0x26628815, 0x9d4baf93, 0xd57b94a9, 0xb7755da1, 0xa80f11f0, 0xfda24c2e)
    ensures Round(Words(0xa14c14b0, 0x72ab4b91, 0x26628815, 0x9d4baf93, 0xd57b94a9, 0xb7755da1, 0xa80f11f0, 0xfda24c2e),
                  0x106aa070, 0x065c43da)
            == Words(0x4172328d, 0xa14c14b0, 0x72ab4b91, 0x26628815, 0xfecf0bc6, 0xd57b94a9, 0xb7755da1, 0xa80f11f0)
  {
  }

  lemma Rounds5(b: Bytes)
    requires b == PADDED
    ensures Rounds(INITIAL, b, 48)
            == Words(0x4172328d, 0xa14c14b0, 0x72ab4b91, 0x26628815, 0xfecf0bc6, 0xd57b94a9, 0xb7755da1, 0xa80f11f0)
  {
    hide W, Round, Rounds;
    Rounds4(b);
    Words5(b);
    RoundSums5();
    RoundStep(b, 40);
    RoundStep(b, 41);
    RoundStep(b, 42);
    RoundStep(b, 43);
    RoundStep(b, 44);
    RoundStep(b, 45);
    RoundStep(b, 46);
    RoundStep(b, 47);
  }

  // ----- words and rounds 48 to 55

  lemma Sums6()
    ensures Plus(Plus(Plus(SmallSigma1(0x7a290d5d), 0xf0a64f5a), SmallSigma0(0x3b68ba73)), 0x93f5997f) == 0xfb3e89cb
    ensures Plus(Plus(Plus(SmallSigma1(0x065c43da), 0x3e246a79), SmallSigma0(0xaff4ffc1)), 0x3b68ba73) == 0xcc7617db
    ensures Plus(Plus(Plus(SmallSigma1(0xfb3e89cb), 0x27333ba3), SmallSigma0(0xf10a5c62)), 0xaff4ffc1) == 0xb9e66c34
    ensures Plus(Plus(Plus(SmallSigma1(0xcc7617db), 0x0c4763f2), SmallSigma0(0x0a8b3996)), 0xf10a5c62) == 0xa9993667
    ensures Plus(Plus(Plus(SmallSigma1(0xb9e66c34), 0x840abf27), SmallSigma0(0x72af830a)), 0x0a8b3996) == 0x84badedd
    ensures Plus(Plus(Plus(SmallSigma1(0xa9993667), 0x7a290d5d), SmallSigma0(0x9409e33e)), 0x72af830a) == 0xc21462bc
    ensures Plus(Plus(Plus(SmallSigma1(0x84badedd), 0x065c43da), SmallSigma0(0x24641522)), 0x9409e33e) == 0x1487472c
    ensures Plus(Plus(Plus(SmallSigma1(0xc21462bc), 0xfb3e89cb), SmallSigma0(0x9f47bf94)), 0x24641522) == 0xb20f7a99
  {
  }

  lemma Words6(b: Bytes)
    requires b == PADDED
    ensures W(b, 48) == 0xfb3e89cb && W(b, 49) == 0xcc7617db
    ensures W(b, 50) == 0xb9e66c34 && W(b, 51) == 0xa9993667
    ensures W(b, 52) == 0x84badedd && W(b, 53) == 0xc21462bc
    ensures W(b, 54) == 0x1487472c && W(b, 55) == 0xb20f7a99
  {
    hide W, Plus, SmallSigma0, SmallSigma1;
    Words4(b);
    Words5(b);
    Sums6();
    ScheduleStep(b, 48);
    ScheduleStep(b, 49);
    ScheduleStep(b, 50);
    ScheduleStep(b, 51);
    ScheduleStep(b, 52);
    ScheduleStep(b, 53);
    ScheduleStep(b, 54);
    ScheduleStep(b, 55);
  }

  lemma RoundSums6()
    ensures Round(Words(0x4172328d, 0xa14c14b0, 0x72ab4b91, 0x26628815, 0xfecf0bc6, 0xd57b94a9, 0xb7755da1, 0xa80f11f0),
                  0x19a4c116, 0xfb3e89cb)
            == Words(0x05757ceb, 0x4172328d, 0xa14c14b0, 0x72ab4b91, 0xbd714038, 0xfecf0bc6, 0xd57b94a9, 0xb7755da1)
    ensures Round(Words(0x05757ceb, 0x4172328d, 0xa14c14b0, 0x72ab4b91, 0xbd714038, 0xfecf0bc6, 0xd57b94a9, 0xb7755da1),
                  0x1e376c08, 0xcc7617db)
            == Words(0xf11bfaa8, 0x05757ceb, 0x4172328d, 0xa14c14b0, 0x6e5c390c, 0xbd714038, 0xfecf0bc6, 0xd57b94a9)
    ensures Round(Words(0xf11bfaa8, 0x05757ceb, 0x4172328d, 0xa14c14b0, 0x6e5c390c, 0xbd714038, 0xfecf0bc6, 0xd57b94a9),
                  0x2748774c, 0xb9e66c34)
            == Words(0x7a0508a1, 0xf11bfaa8, 0x05757ceb, 0x4172328d, 0x52f1ccf7, 0x6e5c390c, 0xbd714038, 0xfecf0bc6)
    ensures Round(Words(0x7a0508a1, 0xf11bfaa8, 0x05757ceb, 0x4172328d, 0x52f1ccf7, 0x6e5c390c, 0xbd714038, 0xfecf0bc6),
                  0x34b0bcb5, 0xa9993667)
            == Words(0x886e7a22, 0x7a0508a1, 0xf11bfaa8, 0x05757ceb, 0x49231c1e, 0x52f1ccf7, 0x6e5c390c, 0xbd714038)
    ensures Round(Words(0x886e7a22, 0x7a0508a1, 0xf11bfaa8, 0x05757ceb, 0x49231c1e, 0x52f1ccf7, 0x6e5c390c, 0xbd714038),
                  0x391c0cb3, 0x84badedd)
            == Words(0x101fd28f, 0x886e7a22, 0x7a0508a1, 0xf11bfaa8, 0x529e7d00, 0x49231c1e, 0x52f1ccf7, 0x6e5c390c)
    ensures Round(Words(0x101fd28f, 0x886e7a22, 0x7a0508a1, 0xf11bfaa8, 0x529e7d00, 0x49231c1e, 0x52f1ccf7, 0x6e5c390c),
                  0x4ed8aa4a, 0xc21462bc)
            == Words(0xf5702fdb, 0x101fd28f, 0x886e7a22, 0x7a0508a1, 0x9f4787c3, 0x529e7d00, 0x49231c1e, 0x52f1ccf7)
    ensures Round(Words(0xf5702fdb, 0x101fd28f, 0x886e7a22, 0x7a0508a1, 0x9f4787c3, 0x529e7d00, 0x49231c1e, 0x52f1ccf7),
                  0x5b9cca4f, 0x1487472c)
            == Words(0x3ec45cdb, 0xf5702fdb, 0x101fd28f, 0x886e7a22, 0xe50e1b4f, 0x9f4787c3, 0x529e7d00, 0x49231c1e)
    ensures Round(Words(0x3ec45cdb, 0xf5702fdb, 0x101fd28f, 0x886e7a22, 0xe50e1b4f, 0x9f4787c3, 0x529e7d00, 0x49231c1e),
                  0x682e6ff3, 0xb20f7a99)
            == Words(0x38cc9913, 0x3ec45cdb, 0xf5702fdb, 0x101fd28f, 0x54cb266b, 0xe50e1b4f, 0x9f4787c3, 0x529e7d00)
  {
  }

  lemma Rounds6(b: Bytes)
    requires b == PADDED
    ensures Rounds(INITIAL, b, 56)
            == Words(0x38cc9913, 0x3ec45cdb, 0xf5702fdb, 0x101fd28f, 0x54cb266b, 0xe50e1b4f, 0x9f4787c3, 0x529e7d00)
  {
    hide W, Round, Rounds;
    Rounds5(b);
    Words6(b);
    RoundSums6();
    RoundStep(b, 48);
    RoundStep(b, 49);
    RoundStep(b, 50);
    RoundStep(b, 51);
    RoundStep(b, 52);
    RoundStep(b, 53);
    RoundStep(b, 54);
    RoundStep(b, 55);
  }

  // ----- words and rounds 56 to 63

  lemma Sums7()
    ensures Plus(Plus(Plus(SmallSigma1(0x1487472c), 0xcc7617db), SmallSigma0(0xf0a64f5a)), 0x9f47bf94) == 0xef57b9cd
    ensures Plus(Plus(Plus(SmallSigma1(0xb20f7a99), 0xb9e66c34), SmallSigma0(0x3e246a79)), 0xf0a64f5a) == 0xebe6b238
    ensures Plus(Plus(Plus(SmallSigma1(0xef57b9cd), 0xa9993667), SmallSigma0(0x27333ba3)), 0x3e246a79) == 0x9fe3095e
    ensures Plus(Plus(Plus(SmallSigma1(0xebe6b238), 0x84badedd), SmallSigma0(0x0c4763f2)), 0x27333ba3) == 0x78bc8d4b
    ensures Plus(Plus(Plus(SmallSigma1(0x9fe3095e), 0xc21462bc), SmallSigma0(0x840abf27)), 0x0c4763f2) == 0xa43fcf15
    ensures Plus(Plus(Plus(SmallSigma1(0x78bc8d4b), 0x1487472c), SmallSigma0(0x7a290d5d)), 0x840abf27) == 0x668b2ff8
    ensures Plus(Plus(Plus(SmallSigma1(0xa43fcf15), 0xb20f7a99), SmallSigma0(0x065c43da)), 0x7a290d5d) == 0xeeaba2cc
    ensures Plus(Plus(Plus(SmallSigma1(0x668b2ff8), 0xef57b9cd), SmallSigma0(0xfb3e89cb)), 0x065c43da) == 0x12b1edeb
  {
  }

  lemma Words7(b: Bytes)
    requires b == PADDED
    ensures W(b, 56) == 0xef57b9cd && W(b, 57) == 0xebe6b238
    ensures W(b, 58) == 0x9fe3095e && W(b, 59) == 0x78bc8d4b
    ensures W(b, 60) == 0xa43fcf15 && W(b, 61) == 0x668b2ff8
    ensures W(b, 62) == 0xeeaba2cc && W(b, 63) == 0x12b1edeb
  {
    hide W, Plus, SmallSigma0, SmallSigma1;
    Words5(b);
    Words6(b);
    Sums7();
    ScheduleStep(b, 56);
    ScheduleStep(b, 57);
    ScheduleStep(b, 58);
    ScheduleStep(b, 59);
    ScheduleStep(b, 60);
    ScheduleStep(b, 61);
    ScheduleStep(b, 62);
    ScheduleStep(b, 63);
  }

  lemma RoundSums7()
    ensures Round(Words(0x38cc9913, 0x3ec45cdb, 0xf5702fdb, 0x101fd28f, 0x54cb266b, 0xe50e1b4f, 0x9f4787c3, 0x529e7d00),
                  0x748f82ee, 0xef57b9cd)
            == Words(0xfcd1887b, 0x38cc9913, 0x3ec45cdb, 0xf5702fdb, 0x9b5e906c, 0x54cb266b, 0xe50e1b4f, 0x9f4787c3)
    ensures Round(Words(0xfcd1887b, 0x38cc9913, 0x3ec45cdb, 0xf5702fdb, 0x9b5e906c, 0x54cb266b, 0xe50e1b4f, 0x9f4787c3),
                  0x78a5636f, 0xebe6b238)
            == Words(0xc062d46f, 0xfcd1887b, 0x38cc9913, 0x3ec45cdb, 0x7e44008e, 0x9b5e906c, 0x54cb266b, 0xe50e1b4f)
    ensures Round(Words(0xc062d46f, 0xfcd1887b, 0x38cc9913, 0x3ec45cdb, 0x7e44008e, 0x9b5e906c, 0x54cb266b, 0xe50e1b4f),
                  0x84c87814, 0x9fe3095e)
            == Words(0xffb70472, 0xc062d46f, 0xfcd1887b, 0x38cc9913, 0x6d83bfc6, 0x7e44008e, 0x9b5e906c, 0x54cb266b)
    ensures Round(Words(0xffb70472, 0xc062d46f, 0xfcd1887b, 0x38cc9913, 0x6d83bfc6, 0x7e44008e, 0x9b5e906c, 0x54cb266b),
                  0x8cc70208, 0x78bc8d4b)
            == Words(0xb6ae8fff, 0xffb70472, 0xc062d46f, 0xfcd1887b, 0xb21bad3d, 0x6d83bfc6, 0x7e44008e, 0x9b5e906c)
    ensures Round(Words(0xb6ae8fff, 0xffb70472, 0xc062d46f, 0xfcd1887b, 0xb21bad3d, 0x6d83bfc6, 0x7e44008e, 0x9b5e906c),
                  0x90befffa, 0xa43fcf15)
            == Words(0xb85e2ce9, 0xb6ae8fff, 0xffb70472, 0xc062d46f, 0x961f4894, 0xb21bad3d, 0x6d83bfc6, 0x7e44008e)
    ensures Round(Words(0xb85e2ce9, 0xb6ae8fff, 0xffb70472, 0xc062d46f, 0x961f4894, 0xb21bad3d, 0x6d83bfc6, 0x7e44008e),
                  0xa4506ceb, 0x668b2ff8)
            == Words(0x04d24d6c, 0xb85e2ce9, 0xb6ae8fff, 0xffb70472, 0x948d25b6, 0x961f4894, 0xb21bad3d, 0x6d83bfc6)
    ensures Round(Words(0x04d24d6c, 0xb85e2ce9, 0xb6ae8fff, 0xffb70472, 0x948d25b6, 0x961f4894, 0xb21bad3d, 0x6d83bfc6),
                  0xbef9a3f7, 0xeeaba2cc)
            == Words(0xd39a2165, 0x04d24d6c, 0xb85e2ce9, 0xb6ae8fff, 0xfb121210, 0x948d25b6, 0x961f4894, 0xb21bad3d)
    ensures Round(Words(0xd39a2165, 0x04d24d6c, 0xb85e2ce9, 0xb6ae8fff, 0xfb121210, 0x948d25b6, 0x961f4894, 0xb21bad3d),
                  0xc67178f2, 0x12b1edeb)
            == Words(0x506e3058, 0xd39a2165, 0x04d24d6c, 0xb85e2ce9, 0x5ef50f24, 0xfb121210, 0x948d25b6, 0x961f4894)
  {
  }

  lemma Rounds7(b: Bytes)
    requires b == PADDED
    ensures Rounds(INITIAL, b, 64)
            == Words(0x506e3058, 0xd39a2165, 0x04d24d6c, 0xb85e2ce9, 0x5ef50f24, 0xfb121210, 0x948d25b6, 0x961f4894)
  {
    hide W, Round, Rounds;
    Rounds6(b);
    Words7(b);
    RoundSums7();
    RoundStep(b, 56);
    RoundStep(b, 57);
    RoundStep(b, 58);
    RoundStep(b, 59);
    RoundStep(b, 60);
    RoundStep(b, 61);
    RoundStep(b, 62);
    RoundStep(b, 63);
  }

  lemma NoRounds(b: Bytes)
    requires b == PADDED
    ensures Rounds(INITIAL, b, 0) == INITIAL
  {
  }

  lemma Compressed()
    ensures Compress(INITIAL, PADDED)
            == Words(0xba7816bf, 0x8f01cfea, 0x414140de, 0x5dae2223, 0xb00361a3, 0x96177a9c, 0xb410ff61, 0xf20015ad)
  {
    Rounds7(PADDED);
    hide Rounds;
  }

  lemma OneBlock()
    ensures Fold(INITIAL, PADDED) == Compress(INITIAL, PADDED)
  {
    hide Compress;
    assert PADDED[..BLOCK] == PADDED && PADDED[BLOCK..] == [];
  }

  /** The digest of "abc". */
  lemma DigestOfAbc()
    ensures Sha256(ABC)
            == [0xba, 0x78, 0x16, 0xbf, 0x8f, 0x01, 0xcf, 0xea, 0x41, 0x41, 0x40, 0xde, 0x5d, 0xae, 0x22, 0x23,
                0xb0, 0x03, 0x61, 0xa3, 0x96, 0x17, 0x7a, 0x9c, 0xb4, 0x10, 0xff, 0x61, 0xf2, 0x00, 0x15, 0xad]
  {
    hide Fold, Compress, Pad;
    Padded();
    OneBlock();
    Compressed();
  }
}
