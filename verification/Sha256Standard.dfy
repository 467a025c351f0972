/** What pins down the functions and constants restated from FIPS 180-4. */
module Sha256Standard {
  import opened Sha256Spec
  import opened WordValues

  // ----- section 4.1.2, bit by bit; positions wrap around at 32

  lemma RotatedBy2(x: bv32, j: bv5)
    ensures BitOf(Rotr(2, x), j) <==> BitOf(x, j + 2)
  {
  }

  lemma RotatedBy6(x: bv32, j: bv5)
    ensures BitOf(Rotr(6, x), j) <==> BitOf(x, j + 6)
  {
  }

  lemma RotatedBy7(x: bv32, j: bv5)
    ensures BitOf(Rotr(7, x), j) <==> BitOf(x, j + 7)
  {
  }

  lemma RotatedBy11(x: bv32, j: bv5)
    ensures BitOf(Rotr(11, x), j) <==> BitOf(x, j + 11)
  {
  }

  lemma RotatedBy13(x: bv32, j: bv5)
    ensures BitOf(Rotr(13, x), j) <==> BitOf(x, j + 13)
  {
  }

  lemma RotatedBy17(x: bv32, j: bv5)
    ensures BitOf(Rotr(17, x), j) <==> BitOf(x, j + 17)
  {
  }

  lemma RotatedBy18(x: bv32, j: bv5)
    ensures BitOf(Rotr(18, x), j) <==> BitOf(x, j + 18)
  {
  }

  lemma RotatedBy19(x: bv32, j: bv5)
    ensures BitOf(Rotr(19, x), j) <==> BitOf(x, j + 19)
  {
  }

  lemma RotatedBy22(x: bv32, j: bv5)
    ensures BitOf(Rotr(22, x), j) <==> BitOf(x, j + 22)
  {
  }

  lemma RotatedBy25(x: bv32, j: bv5)
    ensures BitOf(Rotr(25, x), j) <==> BitOf(x, j + 25)
  {
  }

  lemma ShiftedBy3(x: bv32, j: bv5)
    ensures BitOf(Right(x, 3), j) <==> j < 29 && BitOf(x, j + 3)
  {
  }

  lemma ShiftedBy10(x: bv32, j: bv5)
    ensures BitOf(Right(x, 10), j) <==> j < 22 && BitOf(x, j + 10)
  {
  }

  /** Each bit is the exclusive or of three bits of the word. */
  lemma BigSigma0Bits(x: bv32, j: bv5)
    ensures BitOf(BigSigma0(x), j) <==> ((BitOf(x, j + 2) != BitOf(x, j + 13)) != BitOf(x, j + 22))
  {
    hide BitOf, Rotr, Right, Xor;
    RotatedBy2(x, j);
    RotatedBy13(x, j);
    RotatedBy22(x, j);
    XorBit(Rotr(2, x), Rotr(13, x), j);
    XorBit(Xor(Rotr(2, x), Rotr(13, x)), Rotr(22, x), j);
  }

  /** Each bit is the exclusive or of three bits of the word. */
  lemma BigSigma1Bits(x: bv32, j: bv5)
    ensures BitOf(BigSigma1(x), j) <==> ((BitOf(x, j + 6) != BitOf(x, j + 11)) != BitOf(x, j + 25))
  {
    hide BitOf, Rotr, Right, Xor;
    RotatedBy6(x, j);
    RotatedBy11(x, j);
    RotatedBy25(x, j);
    XorBit(Rotr(6, x), Rotr(11, x), j);
    XorBit(Xor(Rotr(6, x), Rotr(11, x)), Rotr(25, x), j);
  }

  /** Each bit is the exclusive or of two bits of the word and one that is shifted, zeros coming in. */
  lemma SmallSigma0Bits(x: bv32, j: bv5)
    ensures BitOf(SmallSigma0(x), j) <==> ((BitOf(x, j + 7) != BitOf(x, j + 18)) != (j < 29 && BitOf(x, j + 3)))
  {
    hide BitOf, Rotr, Right, Xor;
    RotatedBy7(x, j);
    RotatedBy18(x, j);
    ShiftedBy3(x, j);
    XorBit(Rotr(7, x), Rotr(18, x), j);
    XorBit(Xor(Rotr(7, x), Rotr(18, x)), Right(x, 3), j);
  }

  /** Each bit is the exclusive or of two bits of the word and one that is shifted, zeros coming in. */
  lemma SmallSigma1Bits(x: bv32, j: bv5)
    ensures BitOf(SmallSigma1(x), j) <==> ((BitOf(x, j + 17) != BitOf(x, j + 19)) != (j < 22 && BitOf(x, j + 10)))
  {
    hide BitOf, Rotr, Right, Xor;
    RotatedBy17(x, j);
    RotatedBy19(x, j);
    ShiftedBy10(x, j);
    XorBit(Rotr(17, x), Rotr(19, x), j);
    XorBit(Xor(Rotr(17, x), Rotr(19, x)), Right(x, 10), j);
  }

  lemma ChBit(x: bv32, y: bv32, z: bv32, j: bv5)
    ensures BitOf((x & y) ^ (!x & z), j) <==> if BitOf(x, j) then BitOf(y, j) else BitOf(z, j)
  {
  }

  lemma MajBit(x: bv32, y: bv32, z: bv32, j: bv5)
    ensures BitOf((x & y) ^ (x & z) ^ (y & z), j)
      <==> (BitOf(x, j) && BitOf(y, j)) || (BitOf(x, j) && BitOf(z, j)) || (BitOf(y, j) && BitOf(z, j))
  {
  }

  /** Ch chooses between y and z by the bits of x, and Maj takes the majority. */
  lemma ChoiceBits(x: bv32, y: bv32, z: bv32, j: bv5)
    ensures BitOf(Ch(x, y, z), j) <==> if BitOf(x, j) then BitOf(y, j) else BitOf(z, j)
    ensures BitOf(Maj(x, y, z), j)
      <==> (BitOf(x, j) && BitOf(y, j)) || (BitOf(x, j) && BitOf(z, j)) || (BitOf(y, j) && BitOf(z, j))
  {
    hide BitOf;
    ChBit(x, y, z, j);
    MajBit(x, y, z, j);
  }

  // ----- numbers

  lemma PlusIsAdd(x: bv32, y: bv32)
    ensures Plus(x, y) == Add(x, y)
  {
  }

  /** Addition is modulo 2 to the 32. */
  lemma PlusMeans(x: bv32, y: bv32)
    ensures Unsigned32(Plus(x, y)) == (Unsigned32(x) + Unsigned32(y)) % SPACE
  {
    PlusIsAdd(x, y);
    SumValue(x, y);
  }

  lemma HighestIsWord(a: bv8, b: bv8, c: bv8, d: bv8)
    ensures FirstHighest(a, b, c, d) == Word(d, c, b, a)
  {
  }

  /** The words of a message are big-endian numbers. */
  lemma MessageWordMeans(block: Bytes, i: nat)
    requires 4 * i + 4 <= |block|
    ensures Unsigned32(MessageWord(block, i))
            == 0x100_0000 * Unsigned8(block[4 * i]) + 0x1_0000 * Unsigned8(block[4 * i + 1])
               + 0x100 * Unsigned8(block[4 * i + 2]) + Unsigned8(block[4 * i + 3])
  {
    hide FirstHighest, Word, Unsigned32, Unsigned8;
    HighestIsWord(block[4 * i], block[4 * i + 1], block[4 * i + 2], block[4 * i + 3]);
    WordValue(block[4 * i + 3], block[4 * i + 2], block[4 * i + 1], block[4 * i]);
  }

  lemma EndianBytes(x: bv32)
    ensures BigEndian32(x) == [Byte(x, 3), Byte(x, 2), Byte(x, 1), Byte(x, 0)]
  {
  }

  /** The digest is made of big-endian numbers. */
  lemma BigEndianMeans(x: bv32)
    ensures Unsigned32(x)
            == 0x100_0000 * Unsigned8(BigEndian32(x)[0]) + 0x1_0000 * Unsigned8(BigEndian32(x)[1])
               + 0x100 * Unsigned8(BigEndian32(x)[2]) + Unsigned8(BigEndian32(x)[3])
  {
    EndianBytes(x);
    WordBytes(x);
    hide BigEndian32, Word, Byte, Unsigned32, Unsigned8;
    WordValue(Byte(x, 0), Byte(x, 1), Byte(x, 2), Byte(x, 3));
  }

  // ----- section 5.1.1: the padding

  const SPACE64 := 0x1_0000_0000_0000_0000

  function Unsigned64(x: bv64): (v: int)
    ensures 0 <= v < SPACE64
  {
    x as int
  }

  function Unsigned65(x: bv65): int {
    x as int
  }

  function WideSum(x: bv64, y: bv64): bv65 {
    x as bv65 + y as bv65
  }

  function Carried(carry: bv1, low: bv64): bv65 {
    (carry as bv65 << 64) | (low as bv65)
  }

  lemma WideSumValue(x: bv64, y: bv64)
    ensures Unsigned65(WideSum(x, y)) == Unsigned64(x) + Unsigned64(y)
  {
  }

  lemma CarriedValue(carry: bv1, low: bv64)
    ensures Unsigned65(Carried(carry, low)) == SPACE64 * carry as int + Unsigned64(low)
  {
  }

  lemma CarryOf(x: bv64, y: bv64) returns (carry: bv1)
    ensures WideSum(x, y) == Carried(carry, Plus64(x, y))
  {
    carry := ((x as bv65 + y as bv65) >> 64) as bv1;
  }

  lemma Remainder64(n: int, q: int, r: int)
    requires n == SPACE64 * q + r && 0 <= r < SPACE64
    ensures n % SPACE64 == r
  {
  }

  lemma Plus64Means(x: bv64, y: bv64)
    ensures Unsigned64(Plus64(x, y)) == (Unsigned64(x) + Unsigned64(y)) % SPACE64
  {
    hide Plus64, WideSum, Carried, Unsigned64, Unsigned65;
    var carry := CarryOf(x, y);
    WideSumValue(x, y);
    CarriedValue(carry, Plus64(x, y));
    Remainder64(Unsigned64(x) + Unsigned64(y), carry as int, Unsigned64(Plus64(x, y)));
  }

  lemma SmallLengths()
    ensures Unsigned64(0) == 0 && Unsigned64(8) == 8
  {
  }

  lemma EightMore(n: int, k: int)
    ensures (n % SPACE64 + k) % SPACE64 == (n + k) % SPACE64
  {
    var q := (n % SPACE64 + k) / SPACE64;
    Remainder64(n + k, n / SPACE64 + q, (n % SPACE64 + k) % SPACE64);
  }

  /** The length is counted in bits, modulo 2 to the 64. */
  lemma {:induction false} BitLengthMeans(n: nat)
    ensures Unsigned64(BitLength(n)) == 8 * n % SPACE64
  {
    hide Unsigned64, Plus64;
    SmallLengths();
    if n > 0 {
      BitLengthMeans(n - 1);
      Plus64Means(BitLength(n - 1), 8);
      EightMore(8 * (n - 1), 8);
    }
  }

  function HighHalf(x: bv64): bv32 {
    (x >> 32) as bv32
  }

  function LowHalf(x: bv64): bv32 {
    (x & 0xffff_ffff) as bv32
  }

  lemma HighBytes(x: bv64)
    ensures BigEndian64(x)[..4] == BigEndian32(HighHalf(x))
  {
  }

  lemma LowBytes(x: bv64)
    ensures BigEndian64(x)[4..] == BigEndian32(LowHalf(x))
  {
  }

  lemma HalvesBits(high: bv32, low: bv32)
    ensures ((high as bv64 << 32) | (low as bv64)) as int == SPACE * high as int + low as int
  {
  }

  lemma HalvesCut(x: bv64)
    ensures x == (HighHalf(x) as bv64 << 32) | (LowHalf(x) as bv64)
  {
  }

  lemma HalvesValue(x: bv64)
    ensures Unsigned64(x) == SPACE * Unsigned32(HighHalf(x)) + Unsigned32(LowHalf(x))
  {
    hide HighHalf, LowHalf;
    HalvesCut(x);
    HalvesBits(HighHalf(x), LowHalf(x));
  }

  /** The big-endian number that bytes spell. */
  function Spelled(b: Bytes): int {
    if b == [] then 0 else 0x100 * Spelled(b[..|b| - 1]) + Unsigned8(b[|b| - 1])
  }

  lemma SpelledTwo(before: Bytes, c: bv8, d: bv8)
    ensures Spelled(before + [c, d]) == 0x1_0000 * Spelled(before) + 0x100 * Unsigned8(c) + Unsigned8(d)
  {
    hide Unsigned8;
    SpelledNext(before, c);
    SpelledNext(before + [c], d);
    hide Spelled;
    assert before + [c, d] == before + [c] + [d];
  }

  lemma SpelledFour(b: Bytes, before: Bytes)
    requires |b| == 4
    ensures Spelled(before + b)
            == SPACE * Spelled(before) + 0x100_0000 * Unsigned8(b[0]) + 0x1_0000 * Unsigned8(b[1])
               + 0x100 * Unsigned8(b[2]) + Unsigned8(b[3])
  {
    hide Unsigned8, Spelled;
    SpelledTwo(before, b[0], b[1]);
    SpelledTwo(before + [b[0], b[1]], b[2], b[3]);
    assert before + b == before + [b[0], b[1]] + [b[2], b[3]];
  }

  lemma SpelledNext(before: Bytes, last: bv8)
    ensures Spelled(before + [last]) == 0x100 * Spelled(before) + Unsigned8(last)
  {
    assert (before + [last])[..|before|] == before;
  }

  /** The last eight bytes of the padding spell the length. */
  lemma LengthSpelled(x: bv64)
    ensures Spelled(BigEndian64(x)) == Unsigned64(x)
  {
    hide BigEndian64, BigEndian32, HighHalf, LowHalf, Unsigned64, Unsigned32, Unsigned8, Spelled;
    var high, low := BigEndian32(HighHalf(x)), BigEndian32(LowHalf(x));
    HighBytes(x);
    LowBytes(x);
    assert BigEndian64(x) == BigEndian64(x)[..4] + BigEndian64(x)[4..];
    HalvesValue(x);
    BigEndianMeans(HighHalf(x));
    BigEndianMeans(LowHalf(x));
    SpelledFour(high, []);
    SpelledFour(low, high);
    assert [] + high == high;
    NothingSpelled();
  }

  lemma NothingSpelled()
    ensures Spelled([]) == 0
  {
  }

  /**
   The padded message is made of whole blocks: the message, the bit one, as few zeros as will do, and eight
   bytes that spell the length of the message in bits.
  */
  lemma PadMeans(m: Bytes)
    ensures |Pad(m)| % BLOCK == 0 && |m| + 9 <= |Pad(m)| < |m| + 9 + BLOCK
    ensures Pad(m)[..|m|] == m && Pad(m)[|m|] == 0x80
    ensures forall i :: |m| < i < |Pad(m)| - 8 ==> Pad(m)[i] == 0
    ensures Spelled(Pad(m)[|Pad(m)| - 8..]) == 8 * |m| % SPACE64
  {
    hide BitLength, BigEndian64, Spelled, Unsigned64;
    var length := BigEndian64(BitLength(|m|));
    assert Pad(m)[|Pad(m)| - 8..] == length;
    LengthSpelled(BitLength(|m|));
    BitLengthMeans(|m|);
  }

  // ----- sections 4.2.2 and 5.3.3: constants

  /** The first sixty-four primes, eight to a row. */
  function PrimeRow(row: nat): (r: seq<int>)
    ensures |r| == 8
  {
    match row
    case 0 => [2, 3, 5, 7, 11, 13, 17, 19]
    case 1 => [23, 29, 31, 37, 41, 43, 47, 53]
    case 2 => [59, 61, 67, 71, 73, 79, 83, 89]
    case 3 => [97, 101, 103, 107, 109, 113, 127, 131]
    case 4 => [137, 139, 149, 151, 157, 163, 167, 173]
    case 5 => [179, 181, 191, 193, 197, 199, 211, 223]
    case 6 => [227, 229, 233, 239, 241, 251, 257, 263]
    case _ => [269, 271, 277, 281, 283, 293, 307, 311]
  }

  /** r is the integer part of the cube root of p, shifted by 32 bits. */
  predicate IsCubeRoot(p: int, r: int) {
    r * r * r <= p * SPACE * SPACE * SPACE < (r + 1) * (r + 1) * (r + 1)
  }

  /** r is the integer part of the square root of p, shifted by 32 bits. */
  predicate IsSquareRoot(p: int, r: int) {
    r * r <= p * SPACE * SPACE < (r + 1) * (r + 1)
  }

  /** fraction is made of the first 32 bits after the point of the cube root of p. */
  ghost predicate CubeRootBits(p: int, fraction: bv32) {
    exists whole: nat :: IsCubeRoot(p, whole * SPACE + Unsigned32(fraction))
  }

  /** fraction is made of the first 32 bits after the point of the square root of p. */
  ghost predicate SquareRootBits(p: int, fraction: bv32) {
    exists whole: nat :: IsSquareRoot(p, whole * SPACE + Unsigned32(fraction))
  }

  lemma Roots0()
    ensures IsCubeRoot(2, 1 * SPACE + Unsigned32(0x428a2f98))
    ensures IsCubeRoot(3, 1 * SPACE + Unsigned32(0x71374491))
    ensures IsCubeRoot(5, 1 * SPACE + Unsigned32(0xb5c0fbcf))
    ensures IsCubeRoot(7, 1 * SPACE + Unsigned32(0xe9b5dba5))
    ensures IsCubeRoot(11, 2 * SPACE + Unsigned32(0x3956c25b))
    ensures IsCubeRoot(13, 2 * SPACE + Unsigned32(0x59f111f1))
    ensures IsCubeRoot(17, 2 * SPACE + Unsigned32(0x923f82a4))
    ensures IsCubeRoot(19, 2 * SPACE + Unsigned32(0xab1c5ed5))
  {
  }

  lemma Constants0(i: nat)
    requires i < 8
    ensures CubeRootBits(PrimeRow(0)[i], KRow(0)[i])
  {
    hide IsCubeRoot, Unsigned32;
    Roots0();
  }

  lemma Roots1()
    ensures IsCubeRoot(23, 2 * SPACE + Unsigned32(0xd807aa98))
    ensures IsCubeRoot(29, 3 * SPACE + Unsigned32(0x12835b01))
    ensures IsCubeRoot(31, 3 * SPACE + Unsigned32(0x243185be))
    ensures IsCubeRoot(37, 3 * SPACE + Unsigned32(0x550c7dc3))
    ensures IsCubeRoot(41, 3 * SPACE + Unsigned32(0x72be5d74))
    ensures IsCubeRoot(43, 3 * SPACE + Unsigned32(0x80deb1fe))
    ensures IsCubeRoot(47, 3 * SPACE + Unsigned32(0x9bdc06a7))
    ensures IsCubeRoot(53, 3 * SPACE + Unsigned32(0xc19bf174))
  {
  }

  lemma Constants1(i: nat)
    requires i < 8
    ensures CubeRootBits(PrimeRow(1)[i], KRow(1)[i])
  {
    hide IsCubeRoot, Unsigned32;
    Roots1();
  }

  lemma Roots2()
    ensures IsCubeRoot(59, 3 * SPACE + Unsigned32(0xe49b69c1))
    ensures IsCubeRoot(61, 3 * SPACE + Unsigned32(0xefbe4786))
    ensures IsCubeRoot(67, 4 * SPACE + Unsigned32(0x0fc19dc6))
    ensures IsCubeRoot(71, 4 * SPACE + Unsigned32(0x240ca1cc))
    ensures IsCubeRoot(73, 4 * SPACE + Unsigned32(0x2de92c6f))
    ensures IsCubeRoot(79, 4 * SPACE + Unsigned32(0x4a7484aa))
    ensures IsCubeRoot(83, 4 * SPACE + Unsigned32(0x5cb0a9dc))
    ensures IsCubeRoot(89, 4 * SPACE + Unsigned32(0x76f988da))
  {
  }

  lemma Constants2(i: nat)
    requires i < 8
    ensures CubeRootBits(PrimeRow(2)[i], KRow(2)[i])
  {
    hide IsCubeRoot, Unsigned32;
    Roots2();
  }

  lemma Roots3()
    ensures IsCubeRoot(97, 4 * SPACE + Unsigned32(0x983e5152))
    ensures IsCubeRoot(101, 4 * SPACE + Unsigned32(0xa831c66d))
    ensures IsCubeRoot(103, 4 * SPACE + Unsigned32(0xb00327c8))
    ensures IsCubeRoot(107, 4 * SPACE + Unsigned32(0xbf597fc7))
    ensures IsCubeRoot(109, 4 * SPACE + Unsigned32(0xc6e00bf3))
    ensures IsCubeRoot(113, 4 * SPACE + Unsigned32(0xd5a79147))
    ensures IsCubeRoot(127, 5 * SPACE + Unsigned32(0x06ca6351))
    ensures IsCubeRoot(131, 5 * SPACE + Unsigned32(0x14292967))
  {
  }

  lemma Constants3(i: nat)
    requires i < 8
    ensures CubeRootBits(PrimeRow(3)[i], KRow(3)[i])
  {
    hide IsCubeRoot, Unsigned32;
    Roots3();
  }

  lemma Roots4()
    ensures IsCubeRoot(137, 5 * SPACE + Unsigned32(0x27b70a85))
    ensures IsCubeRoot(139, 5 * SPACE + Unsigned32(0x2e1b2138))
    ensures IsCubeRoot(149, 5 * SPACE + Unsigned32(0x4d2c6dfc))
    ensures IsCubeRoot(151, 5 * SPACE + Unsigned32(0x53380d13))
    ensures IsCubeRoot(157, 5 * SPACE + Unsigned32(0x650a7354))
    ensures IsCubeRoot(163, 5 * SPACE + Unsigned32(0x766a0abb))
    ensures IsCubeRoot(167, 5 * SPACE + Unsigned32(0x81c2c92e))
    ensures IsCubeRoot(173, 5 * SPACE + Unsigned32(0x92722c85))
  {
  }

  lemma Constants4(i: nat)
    requires i < 8
    ensures CubeRootBits(PrimeRow(4)[i], KRow(4)[i])
  {
    hide IsCubeRoot, Unsigned32;
    Roots4();
  }

  lemma Roots5()
    ensures IsCubeRoot(179, 5 * SPACE + Unsigned32(0xa2bfe8a1))
    ensures IsCubeRoot(181, 5 * SPACE + Unsigned32(0xa81a664b))
    ensures IsCubeRoot(191, 5 * SPACE + Unsigned32(0xc24b8b70))
    ensures IsCubeRoot(193, 5 * SPACE + Unsigned32(0xc76c51a3))
    ensures IsCubeRoot(197, 5 * SPACE + Unsigned32(0xd192e819))
    ensures IsCubeRoot(199, 5 * SPACE + Unsigned32(0xd6990624))
    ensures IsCubeRoot(211, 5 * SPACE + Unsigned32(0xf40e3585))
    ensures IsCubeRoot(223, 6 * SPACE + Unsigned32(0x106aa070))
  {
  }

  lemma Constants5(i: nat)
    requires i < 8
    ensures CubeRootBits(PrimeRow(5)[i], KRow(5)[i])
  {
    hide IsCubeRoot, Unsigned32;
    Roots5();
  }

  lemma Roots6()
    ensures IsCubeRoot(227, 6 * SPACE + Unsigned32(0x19a4c116))
    ensures IsCubeRoot(229, 6 * SPACE + Unsigned32(0x1e376c08))
    ensures IsCubeRoot(233, 6 * SPACE + Unsigned32(0x2748774c))
    ensures IsCubeRoot(239, 6 * SPACE + Unsigned32(0x34b0bcb5))
    ensures IsCubeRoot(241, 6 * SPACE + Unsigned32(0x391c0cb3))
    ensures IsCubeRoot(251, 6 * SPACE + Unsigned32(0x4ed8aa4a))
    ensures IsCubeRoot(257, 6 * SPACE + Unsigned32(0x5b9cca4f))
    ensures IsCubeRoot(263, 6 * SPACE + Unsigned32(0x682e6ff3))
  {
  }

  lemma Constants6(i: nat)
    requires i < 8
    ensures CubeRootBits(PrimeRow(6)[i], KRow(6)[i])
  {
    hide IsCubeRoot, Unsigned32;
    Roots6();
  }

  lemma Roots7()
    ensures IsCubeRoot(269, 6 * SPACE + Unsigned32(0x748f82ee))
    ensures IsCubeRoot(271, 6 * SPACE + Unsigned32(0x78a5636f))
    ensures IsCubeRoot(277, 6 * SPACE + Unsigned32(0x84c87814))
    ensures IsCubeRoot(281, 6 * SPACE + Unsigned32(0x8cc70208))
    ensures IsCubeRoot(283, 6 * SPACE + Unsigned32(0x90befffa))
    ensures IsCubeRoot(293, 6 * SPACE + Unsigned32(0xa4506ceb))
    ensures IsCubeRoot(307, 6 * SPACE + Unsigned32(0xbef9a3f7))
    ensures IsCubeRoot(311, 6 * SPACE + Unsigned32(0xc67178f2))
  {
  }

  lemma Constants7(i: nat)
    requires i < 8
    ensures CubeRootBits(PrimeRow(7)[i], KRow(7)[i])
  {
    hide IsCubeRoot, Unsigned32;
    Roots7();
  }

  /** The constants are made of bits of the cube roots of the first sixty-four primes. */
  lemma ConstantsMean(t: nat)
    requires t < 64
    ensures CubeRootBits(PrimeRow(t / 8)[t % 8], K(t))
  {
    hide CubeRootBits, KRow, PrimeRow;
    match t / 8
    case 0 => Constants0(t % 8);
    case 1 => Constants1(t % 8);
    case 2 => Constants2(t % 8);
    case 3 => Constants3(t % 8);
    case 4 => Constants4(t % 8);
    case 5 => Constants5(t % 8);
    case 6 => Constants6(t % 8);
    case _ => Constants7(t % 8);
  }

  /** The initial hash value is made of bits of the square roots of the first eight primes. */
  lemma InitialMeans()
    ensures SquareRootBits(2, INITIAL.a) && SquareRootBits(3, INITIAL.b)
    ensures SquareRootBits(5, INITIAL.c) && SquareRootBits(7, INITIAL.d)
    ensures SquareRootBits(11, INITIAL.e) && SquareRootBits(13, INITIAL.f)
    ensures SquareRootBits(17, INITIAL.g) && SquareRootBits(19, INITIAL.h)
  {
    assert IsSquareRoot(2, 1 * SPACE + Unsigned32(0x6a09e667));
    assert IsSquareRoot(3, 1 * SPACE + Unsigned32(0xbb67ae85));
    assert IsSquareRoot(5, 2 * SPACE + Unsigned32(0x3c6ef372));
    assert IsSquareRoot(7, 2 * SPACE + Unsigned32(0xa54ff53a));
    assert IsSquareRoot(11, 3 * SPACE + Unsigned32(0x510e527f));
    assert IsSquareRoot(13, 3 * SPACE + Unsigned32(0x9b05688c));
    assert IsSquareRoot(17, 4 * SPACE + Unsigned32(0x1f83d9ab));
    assert IsSquareRoot(19, 4 * SPACE + Unsigned32(0x5be0cd19));
  }
}
