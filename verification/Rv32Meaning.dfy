/** What the instructions of Rv32 do, said in numbers, and what words they are. */
module Rv32Meaning {
  import opened PagedMemory
  import opened WordValues
  import opened Rv32

  // ----- what the results mean as numbers

  /** What is left of a number in 32 bits. */
  function Wrapped(n: int): int {
    Twos(n % SPACE, 0x8000_0000)
  }

  lemma WrappedUnsigned(x: bv32, n: int)
    requires Unsigned32(x) == n % SPACE
    ensures Int(x) == Wrapped(n)
  {
    hide Unsigned32;
  }

  lemma SameRemainder(n: int, q: int)
    ensures (n + SPACE * q) % SPACE == n % SPACE
  {
  }

  lemma WrapsAlike(m: int, n: int, k: int, l: int)
    requires k % SPACE == m && l % SPACE == n
    ensures (m + n) % SPACE == (k + l) % SPACE && (m - n) % SPACE == (k - l) % SPACE
  {
    var i, j := k / SPACE, l / SPACE;
    assert k == m + SPACE * i && l == n + SPACE * j;
    SameRemainder(m + n, i + j);
    SameRemainder(m - n, i - j);
  }

  /** Sums and differences wrap. */
  lemma SumMeans(x: bv32, y: bv32)
    ensures Int(Add(x, y)) == Wrapped(Int(x) + Int(y))
    ensures Int(Sub(x, y)) == Wrapped(Int(x) - Int(y))
  {
    hide Add, Sub, Unsigned32, Int, Wrapped;
    SumValue(x, y);
    DifferenceValue(x, y);
    WrapsAlike(Unsigned32(x), Unsigned32(y), Int(x), Int(y));
    WrappedUnsigned(Add(x, y), Int(x) + Int(y));
    WrappedUnsigned(Sub(x, y), Int(x) - Int(y));
  }

  /** Sums and differences wrap, and the two comparisons are of signed and of unsigned numbers. */
  lemma AluMeans(x: bv32, y: bv32)
    ensures Int(Alu(ADD, x, y)) == Wrapped(Int(x) + Int(y))
    ensures Int(Alu(SUB, x, y)) == Wrapped(Int(x) - Int(y))
    ensures Int(Alu(SLT, x, y)) == if Int(x) < Int(y) then 1 else 0
    ensures Int(Alu(SLTU, x, y)) == if Unsigned32(x) < Unsigned32(y) then 1 else 0
  {
    FlagValues();
    hide Add, Sub, Unsigned32, Int, Wrapped, Flag;
    SumMeans(x, y);
  }

  lemma FlagValues()
    ensures Int(Flag(true)) == 1 && Int(Flag(false)) == 0
  {
  }

  /** The other operations work on each bit by itself. */
  lemma BitsMean(x: bv32, y: bv32, j: bv5)
    ensures BitOf(Alu(XOR, x, y), j) <==> BitOf(x, j) != BitOf(y, j)
    ensures BitOf(Alu(OR, x, y), j) <==> BitOf(x, j) || BitOf(y, j)
    ensures BitOf(Alu(AND, x, y), j) <==> BitOf(x, j) && BitOf(y, j)
  {
    XorBit(x, y, j);
    OrBit(x, y, j);
    AndBit(x, y, j);
    hide BitOf, Xor, Or, And;
  }

  lemma NegativeQuotient(v: int, p: int)
    requires 0 <= v < SPACE && p > 0
    ensures SPACE - 1 - (SPACE - 1 - v) / p - SPACE == (v - SPACE) / p
  {
    var k := SPACE - 1 - v;
    var q, r := k / p, k % p;
    assert v - SPACE == p * (-1 - q) + (p - 1 - r);
    QuotientOf(v - SPACE, p, -1 - q, p - 1 - r);
  }

  lemma Grows(p: int, q: int)
    requires p > 0
    ensures q >= 0 ==> p * q >= q
  {
  }

  lemma SmallerQuotient(v: int, p: int)
    requires 0 <= v && p > 0
    ensures 0 <= v / p <= v
  {
    var q := v / p;
    assert v == p * q + v % p;
    AtLeastOnce(p, q);
    Grows(p, q);
  }

  /** Shifts multiply or divide by a power of two; a shift that fills with the sign divides the signed number. */
  lemma ShiftMeans(x: bv32, n: bv5)
    ensures Unsigned32(Shift(SLL, x, n)) == Unsigned32(x) * Power2(Amount(n)) % SPACE
    ensures Unsigned32(Shift(SRL, x, n)) == Unsigned32(x) / Power2(Amount(n))
    ensures Int(Shift(SRA, x, n)) == Int(x) / Power2(Amount(n))
  {
    hide Left, Right, Not, Unsigned32, Amount, Power2;
    LeftValue(x, n);
    RightValue(x, n);
    RightValue(Not(x), n);
    ComplementValue(x);
    ComplementValue(Right(Not(x), n));
    FlippedValue(x);
    var p := Power2(Amount(n));
    NegativeQuotient(Unsigned32(x), p);
    SmallerQuotient(Unsigned32(x), p);
    SmallerQuotient(SPACE - 1 - Unsigned32(x), p);
  }

  lemma IntIsUnsigned(x: bv32, y: bv32)
    ensures Int(x) == Int(y) <==> Unsigned32(x) == Unsigned32(y)
  {
    hide Unsigned32;
  }

  /** The six branches compare the numbers in the registers. */
  lemma BranchesMean(x: bv32, y: bv32)
    ensures Taken(EQ, x, y) <==> Int(x) == Int(y)
    ensures Taken(NE, x, y) <==> Int(x) != Int(y)
    ensures Taken(LT, x, y) <==> Int(Alu(SLT, x, y)) == 1
    ensures Taken(GE, x, y) <==> Int(Alu(SLT, x, y)) == 0
    ensures Taken(LTU, x, y) <==> Int(Alu(SLTU, x, y)) == 1
    ensures Taken(GEU, x, y) <==> Int(Alu(SLTU, x, y)) == 0
  {
    Order(x, y);
    AluMeans(x, y);
    hide Unsigned32, Int, Alu, Less;
    IntIsUnsigned(x, y);
  }

  // ----- immediates

  /** Signed numbers that are extended keep their value. */
  lemma TwosExtended(x: bv32, v: int, half: int)
    requires 0 <= v < 2 * half <= 0x8000_0000
    requires Unsigned32(x) == if v < half then v else SPACE - 2 * half + v
    ensures Int(x) == Twos(v, half)
  {
    hide Unsigned32;
  }

  lemma Extended12(imm: bv12)
    ensures (0xffff_f000 | (imm as bv32)) as int == 0xffff_f000 + imm as int && (imm as bv32) as int == imm as int
  {
  }

  lemma Negative12(imm: bv12)
    ensures imm & 0x800 == 0 <==> imm as int < 0x800
  {
  }

  lemma Extended13(imm: bv13)
    ensures (0xffff_e000 | (imm as bv32)) as int == 0xffff_e000 + imm as int && (imm as bv32) as int == imm as int
  {
  }

  lemma Negative13(imm: bv13)
    ensures imm & 0x1000 == 0 <==> imm as int < 0x1000
  {
  }

  lemma Extended21(imm: bv21)
    ensures (0xffe0_0000 | (imm as bv32)) as int == 0xffe0_0000 + imm as int && (imm as bv32) as int == imm as int
  {
  }

  lemma Value21(highest: bv1, rest: bv20)
    ensures ((highest as bv21 << 20) | (rest as bv21)) as int == 0x10_0000 * highest as int + rest as int
    ensures ((highest as bv21 << 20) | (rest as bv21)) & 0x10_0000 == 0 <==> highest == 0
  {
  }

  lemma Cut21(imm: bv21)
    ensures imm == ((imm >> 20) as bv1 as bv21 << 20) | ((imm & 0xf_ffff) as bv20 as bv21)
  {
  }

  lemma Negative21(imm: bv21)
    ensures imm & 0x10_0000 == 0 <==> imm as int < 0x10_0000
  {
    Cut21(imm);
    Value21((imm >> 20) as bv1, (imm & 0xf_ffff) as bv20);
    OneBit((imm >> 20) as bv1);
  }

  lemma Meaning12(imm: bv12)
    ensures Int(SignExtend12(imm)) == Twos(imm as int, 0x800)
  {
    Extended12(imm);
    Negative12(imm);
    TwosExtended(SignExtend12(imm), imm as int, 0x800);
    hide Int;
  }

  lemma Meaning13(imm: bv13)
    ensures Int(SignExtend13(imm)) == Twos(imm as int, 0x1000)
  {
    Extended13(imm);
    Negative13(imm);
    TwosExtended(SignExtend13(imm), imm as int, 0x1000);
    hide Int;
  }

  function Unsigned21(imm: bv21): (v: int)
    ensures 0 <= v < 0x20_0000
  {
    imm as int
  }

  lemma Sign21(imm: bv21)
    ensures imm & 0x10_0000 == 0 <==> Unsigned21(imm) < 0x10_0000
  {
    Negative21(imm);
  }

  lemma Numbers21(imm: bv21)
    ensures Unsigned32(0xffe0_0000 | (imm as bv32)) == 0xffe0_0000 + Unsigned21(imm)
    ensures Unsigned32(imm as bv32) == Unsigned21(imm)
  {
    Extended21(imm);
  }

  lemma Meaning21(imm: bv21)
    ensures Int(SignExtend21(imm)) == Twos(Unsigned21(imm), 0x10_0000)
  {
    hide Int, Unsigned21, Unsigned32, Twos;
    Sign21(imm);
    Numbers21(imm);
    TwosExtended(SignExtend21(imm), Unsigned21(imm), 0x10_0000);
  }

  lemma UpperMeaning(imm: bv20)
    ensures Unsigned32(UpperImmediate(imm)) == 0x1000 * imm as int
  {
  }

  /** Immediates are two's complement numbers of their length, and an upper immediate is shifted by twelve. */
  lemma ImmediatesMean(imm12: bv12, offset13: bv13, offset21: bv21, imm20: bv20)
    ensures Int(SignExtend12(imm12)) == Twos(imm12 as int, 0x800)
    ensures Int(SignExtend13(offset13)) == Twos(offset13 as int, 0x1000)
    ensures Int(SignExtend21(offset21)) == Twos(Unsigned21(offset21), 0x10_0000)
    ensures Unsigned32(UpperImmediate(imm20)) == 0x1000 * imm20 as int
  {
    hide Int, Unsigned32, Twos, SignExtend12, SignExtend13, SignExtend21, UpperImmediate;
    Meaning12(imm12);
    Meaning13(offset13);
    Meaning21(offset21);
    UpperMeaning(imm20);
  }

  // ----- loads and stores

  lemma ByteBits(b: bv8)
    ensures (0xffff_ff00 | (b as bv32)) as int == 0xffff_ff00 + b as int && (b as bv32) as int == b as int
    ensures b & 0x80 == 0 <==> b as int < 0x80
  {
  }

  lemma ByteMeaning(b: bv8)
    ensures Int(SignExtendByte(b)) == Twos(Unsigned8(b), 0x80) && Int(Unsigned(b)) == Unsigned8(b)
  {
    ByteBits(b);
    TwosExtended(SignExtendByte(b), Unsigned8(b), 0x80);
    hide Int;
    SmallIsSigned(Unsigned(b));
  }

  lemma SmallIsSigned(x: bv32)
    requires Unsigned32(x) < 0x8000_0000
    ensures Int(x) == Unsigned32(x)
  {
  }

  lemma HalfBits(b0: bv8, b1: bv8)
    ensures ((b0 as bv32) | (b1 as bv32 << 8)) as int == b0 as int + 0x100 * b1 as int
    ensures (0xffff_0000 | ((b0 as bv32) | (b1 as bv32 << 8))) as int == 0xffff_0000 + b0 as int + 0x100 * b1 as int
  {
  }

  lemma HalfSign(b0: bv8, b1: bv8)
    ensures Half(b0, b1) & 0x8000 == 0 <==> b1 & 0x80 == 0
  {
  }

  lemma HalfNumbers(b0: bv8, b1: bv8)
    ensures Unsigned32(Half(b0, b1)) == Unsigned8(b0) + 0x100 * Unsigned8(b1)
    ensures Unsigned32(0xffff_0000 | Half(b0, b1)) == 0xffff_0000 + Unsigned8(b0) + 0x100 * Unsigned8(b1)
  {
    HalfBits(b0, b1);
  }

  lemma HalfExtended(b0: bv8, b1: bv8)
    ensures SignExtendHalf(Half(b0, b1)) == if b1 & 0x80 == 0 then Half(b0, b1) else 0xffff_0000 | Half(b0, b1)
  {
    HalfSign(b0, b1);
    hide Half;
  }

  lemma SignOfByte(b: bv8)
    ensures b & 0x80 == 0 <==> Unsigned8(b) < 0x80
  {
  }

  lemma HalfMeaning(b0: bv8, b1: bv8)
    ensures Int(SignExtendHalf(Half(b0, b1))) == Twos(Unsigned8(b0) + 0x100 * Unsigned8(b1), 0x8000)
    ensures Int(Half(b0, b1)) == Unsigned8(b0) + 0x100 * Unsigned8(b1)
  {
    hide Int, Half, SignExtendHalf, Unsigned8, Unsigned32;
    HalfExtended(b0, b1);
    HalfNumbers(b0, b1);
    SignOfByte(b1);
    TwosExtended(SignExtendHalf(Half(b0, b1)), Unsigned8(b0) + 0x100 * Unsigned8(b1), 0x8000);
    SmallIsSigned(Half(b0, b1));
  }

  /** A load reads a little-endian number, signed or unsigned, of one, two or four bytes. */
  lemma LoadMeans(w: Width, m: seq<bv8>, a: int)
    requires |m| == SPACE && 0 <= a < SPACE && a % Size(w) == 0
    ensures w.LB? ==> Int(Loaded(w, m, a)) == Twos(Unsigned8(m[a]), 0x80)
    ensures w.LBU? ==> Int(Loaded(w, m, a)) == Unsigned8(m[a])
    ensures w.LH? ==> Int(Loaded(w, m, a)) == Twos(Unsigned8(m[a]) + 0x100 * Unsigned8(m[a + 1]), 0x8000)
    ensures w.LHU? ==> Int(Loaded(w, m, a)) == Unsigned8(m[a]) + 0x100 * Unsigned8(m[a + 1])
    ensures w.LW? ==>
      Unsigned32(Loaded(w, m, a))
      == Unsigned8(m[a]) + 0x100 * Unsigned8(m[a + 1]) + 0x1_0000 * Unsigned8(m[a + 2]) + 0x100_0000 * Unsigned8(m[a + 3])
  {
    hide Int, Half, SignExtendHalf, SignExtendByte, Unsigned, Unsigned8, Unsigned32, Twos, Word;
    match w
    case LB => ByteMeaning(m[a]);
    case LBU => ByteMeaning(m[a]);
    case LH => HalfMeaning(m[a], m[a + 1]);
    case LHU => HalfMeaning(m[a], m[a + 1]);
    case LW => WordValue(m[a], m[a + 1], m[a + 2], m[a + 3]);
  }

  lemma OtherBytes(w: StoreWidth, m: seq<bv8>, a: int, v: bv32, k: int)
    requires |m| == SPACE && 0 <= a < SPACE && a % StoreSize(w) == 0 && 0 <= k < SPACE
    requires k < a || a + StoreSize(w) <= k
    ensures |Stored(w, m, a, v)| == SPACE && Stored(w, m, a, v)[k] == m[k]
  {
    StoredLength(w, m, a, v);
    hide Byte;
  }

  lemma StoredAt(w: StoreWidth, m: seq<bv8>, a: int, v: bv32)
    requires |m| == SPACE && 0 <= a < SPACE && a % StoreSize(w) == 0
    ensures |Stored(w, m, a, v)| == SPACE && Stored(w, m, a, v)[a] == Byte(v, 0)
    ensures w.SH? || w.SW? ==> Stored(w, m, a, v)[a + 1] == Byte(v, 1)
    ensures w.SW? ==> Stored(w, m, a, v)[a + 2] == Byte(v, 2) && Stored(w, m, a, v)[a + 3] == Byte(v, 3)
  {
    StoredLength(w, m, a, v);
    hide Byte;
  }

  lemma DigitOf(n: int, d: int, q: int, r: int)
    requires d > 0 && n == d * q + r && 0 <= r < d
    ensures n % d == r
  {
    QuotientOf(n, d, q, r);
  }

  lemma LowBytes(n: int, b0: int, b1: int, b2: int, b3: int)
    requires 0 <= b0 < 0x100 && 0 <= b1 < 0x100
    requires n == b0 + 0x100 * b1 + 0x1_0000 * b2 + 0x100_0000 * b3
    ensures n % 0x100 == b0 && n % 0x1_0000 == b0 + 0x100 * b1
  {
    DigitOf(n, 0x100, b1 + 0x100 * b2 + 0x1_0000 * b3, b0);
    DigitOf(n, 0x1_0000, b2 + 0x100 * b3, b0 + 0x100 * b1);
  }

  /** The number spelled by the bytes that were stored. */
  function StoredNumber(w: StoreWidth, m: seq<bv8>, a: int): int
    requires |m| == SPACE && 0 <= a < SPACE && a % StoreSize(w) == 0
  {
    match w
    case SB => Unsigned8(m[a])
    case SH => Unsigned8(m[a]) + 0x100 * Unsigned8(m[a + 1])
    case SW => Unsigned8(m[a]) + 0x100 * Unsigned8(m[a + 1]) + 0x1_0000 * Unsigned8(m[a + 2]) + 0x100_0000 * Unsigned8(m[a + 3])
  }

  /** A store writes the low bytes of its number, the least significant first, and no other byte. */
  lemma StoreMeans(w: StoreWidth, m: seq<bv8>, a: int, v: bv32)
    requires |m| == SPACE && 0 <= a < SPACE && a % StoreSize(w) == 0
    ensures |Stored(w, m, a, v)| == SPACE
    ensures StoredNumber(w, Stored(w, m, a, v), a)
            == if w.SB? then Unsigned32(v) % 0x100 else if w.SH? then Unsigned32(v) % 0x1_0000 else Unsigned32(v)
    ensures forall k :: 0 <= k < SPACE && (k < a || a + StoreSize(w) <= k) ==> Stored(w, m, a, v)[k] == m[k]
  {
    StoredAt(w, m, a, v);
    WordBytes(v);
    hide Stored, Byte, Word, Unsigned8, Unsigned32;
    WordValue(Byte(v, 0), Byte(v, 1), Byte(v, 2), Byte(v, 3));
    LowBytes(Unsigned32(v), Unsigned8(Byte(v, 0)), Unsigned8(Byte(v, 1)), Unsigned8(Byte(v, 2)), Unsigned8(Byte(v, 3)));
    forall k | 0 <= k < SPACE && (k < a || a + StoreSize(w) <= k)
      ensures Stored(w, m, a, v)[k] == m[k]
    {
      OtherBytes(w, m, a, v, k);
    }
  }

  // ----- parts of words

  lemma Cut5(x: bv32)
    ensures x == ((x >> 5) as bv27 as bv32 << 5) | ((x & 0x1f) as bv5 as bv32)
  {
  }

  lemma Value5(high: bv27, low: bv5)
    ensures ((high as bv32 << 5) | (low as bv32)) as int == 32 * high as int + low as int
    ensures ((high as bv32 << 5) | (low as bv32)) & 0xffff_ffe0 == 0 <==> high == 0
  {
  }

  function Joined5(high: bv27, low: bv5): bv32 {
    (high as bv32 << 5) | (low as bv32)
  }

  lemma Parts5(x: bv32) returns (high: bv27, low: bv5)
    ensures x == Joined5(high, low) && LowFive(x) == low
  {
    high, low := (x >> 5) as bv27, (x & 0x1f) as bv5;
    Cut5(x);
  }

  lemma Number5(high: bv27, low: bv5)
    ensures Unsigned32(Joined5(high, low)) % 32 == Amount(low)
  {
    Value5(high, low);
    Remainder32(high as int, low as int);
  }

  lemma Remainder32(q: int, r: int)
    requires 0 <= r < 32
    ensures (32 * q + r) % 32 == r
  {
  }

  lemma Even(rest: bv31, lowest: bv1)
    ensures ClearLowest(Doubled(rest, lowest)) == Doubled(rest, 0)
  {
  }

  lemma EvenNumber(rest: bv31, lowest: bv1)
    ensures Unsigned32(Doubled(rest, 0)) == Unsigned32(Doubled(rest, lowest)) - Unsigned32(Doubled(rest, lowest)) % 2
  {
    hide Doubled, Unsigned31, Unsigned32;
    DoubledNumber(rest, lowest);
    DoubledNumber(rest, 0);
  }

  lemma DoubledNumber(rest: bv31, lowest: bv1)
    ensures Unsigned32(Doubled(rest, lowest)) == 2 * Unsigned31(rest) + if lowest == 0 then 0 else 1
  {
    EvenOddValue(rest, lowest);
    OneBit(lowest);
  }

  /** A shift amount is the register modulo 32, and a jump goes to the even number at or below its sum. */
  lemma PartsMean(x: bv32)
    ensures Amount(LowFive(x)) == Unsigned32(x) % 32
    ensures Unsigned32(ClearLowest(x)) == Unsigned32(x) - Unsigned32(x) % 2
  {
    hide LowFive, ClearLowest, Joined5, Doubled, Unsigned32, Amount, Right;
    var high, low := Parts5(x);
    Number5(high, low);
    var rest, lowest := LowestCut(x);
    Even(rest, lowest);
    EvenNumber(rest, lowest);
  }

  // ----- what a whole instruction means

  /** The number at which execution goes on, and the one written to a register that is not x0. */
  lemma WrittenValue(s: Machine, rd: bv5, value: bv32, r: bv5)
    requires WellFormed(s)
    ensures Read(Write(s, rd, value), r) == if Index(rd) != 0 && r == rd then value else Read(s, r)
    ensures Write(s, rd, value).pc == s.pc && Write(s, rd, value).mem == s.mem
  {
    SameIndex(r, rd);
    hide Index;
  }

  lemma SameIndex(r: bv5, rd: bv5)
    ensures Index(r) == Index(rd) <==> r == rd
  {
  }

  /** An instruction writes its result to its own destination register and to no other, and x0 stays zero. */
  lemma RegistersMean(i: Instr, s: Machine, r: bv5)
    requires WellFormed(s) && Aligned(i, s)
    ensures WellFormed(Exec(i, s))
    ensures Read(Exec(i, s), r) == if HasRd(i) && Index(i.rd) != 0 && r == i.rd then Result(i, s) else Read(s, r)
    ensures !i.Store? ==> Exec(i, s).mem == s.mem
  {
    ExecWellFormed(i, s);
    hide Read, Write, Add, Result, Stored, Taken, Address, Offset, SignExtend13, SignExtend21, ClearLowest;
    if HasRd(i) {
      WrittenValue(s, i.rd, Result(i, s), r);
    } else {
      ReadKept(s, Exec(i, s), r);
    }
  }

  lemma ReadKept(s: Machine, t: Machine, r: bv5)
    requires |s.regs| == 32 && t.regs == s.regs
    ensures Read(t, r) == Read(s, r)
  {
  }

  lemma FourValue()
    ensures Int(4) == 4
  {
  }

  /** A word with a signed number added to it. */
  lemma Moved(x: bv32, y: bv32, n: int)
    requires Int(y) == n
    ensures Unsigned32(Add(x, y)) == (Unsigned32(x) + n) % SPACE
  {
    hide Add, Unsigned32;
    SumValue(x, y);
    WrapsAlike(Unsigned32(x), Unsigned32(y), Unsigned32(x), Int(y));
  }

  /** Where execution goes on: four bytes further, or at the target of a jump or of a branch that is taken. */
  lemma PcMeans(i: Instr, s: Machine)
    requires WellFormed(s) && Aligned(i, s)
    ensures var pc, next := Unsigned32(s.pc), Unsigned32(Exec(i, s).pc);
            if i.Jal? then next == (pc + Twos(Unsigned21(i.offset21), 0x10_0000)) % SPACE
            else if i.Jalr? then
              var target := (Unsigned32(Read(s, i.rs1)) + Twos(i.imm12 as int, 0x800)) % SPACE;
              next == target - target % 2
            else if i.Branch? && Taken(i.cond, Read(s, i.rs1), Read(s, i.rs2)) then
              next == (pc + Twos(i.offset13 as int, 0x1000)) % SPACE
            else next == (pc + 4) % SPACE
  {
    FourValue();
    hide Read, Write, Add, Result, Stored, Taken, Unsigned21, Twos, Int, Unsigned32, SignExtend12, SignExtend13;
    hide SignExtend21, ClearLowest, Size, StoreSize, Index;
    Moved(s.pc, 4, 4);
    match i {
      case Jal(_, offset) =>
        Meaning21(offset);
        Moved(s.pc, SignExtend21(offset), Twos(Unsigned21(offset), 0x10_0000));
      case Jalr(_, rs1, imm) =>
        Meaning12(imm);
        Moved(Read(s, rs1), SignExtend12(imm), Twos(imm as int, 0x800));
        PartsMean(Offset(s, rs1, imm));
      case Branch(_, _, _, offset) =>
        Meaning13(offset);
        Moved(s.pc, SignExtend13(offset), Twos(offset as int, 0x1000));
      case _ => PcKept(i, s);
    }
  }

  lemma PcKept(i: Instr, s: Machine)
    requires WellFormed(s) && Aligned(i, s) && !i.Jal? && !i.Jalr? && !i.Branch?
    ensures Exec(i, s).pc == Add(s.pc, 4)
  {
    hide Read, Add, Result, Stored, Address, Index;
  }

  /** The address of a load or store is the register plus the signed immediate, modulo 2 to the 32. */
  lemma AddressMeans(s: Machine, rs1: bv5, imm: bv12)
    requires WellFormed(s)
    ensures Address(s, rs1, imm) == (Unsigned32(Read(s, rs1)) + Twos(imm as int, 0x800)) % SPACE
  {
    hide Read, Add, Twos, Int, Unsigned32, SignExtend12;
    Meaning12(imm);
    Moved(Read(s, rs1), SignExtend12(imm), Twos(imm as int, 0x800));
  }

  /** What instructions that do not compute write: the return address, or an upper immediate. */
  lemma LinksMean(i: Instr, s: Machine)
    requires WellFormed(s) && Aligned(i, s)
    ensures i.Jal? || i.Jalr? ==> Unsigned32(Result(i, s)) == (Unsigned32(s.pc) + 4) % SPACE
    ensures i.Lui? ==> Unsigned32(Result(i, s)) == 0x1000 * i.imm20 as int
    ensures i.Auipc? ==> Unsigned32(Result(i, s)) == (Unsigned32(s.pc) + 0x1000 * i.imm20 as int) % SPACE
  {
    FourValue();
    hide Add, Int, Unsigned32, UpperImmediate, Read, Loaded, Alu, Shift, Address;
    Moved(s.pc, 4, 4);
    if i.Lui? || i.Auipc? {
      UpperMeaning(i.imm20);
      SumValue(s.pc, UpperImmediate(i.imm20));
    }
  }

  // ----- encodings, as in the listings under A5/src/test_files

  lemma ListedJumps()
    ensures Encode(Lui(12, 0x484f5)) == 0x484f_5637 && Encode(Auipc(11, 1)) == 0x0000_1597
    ensures Encode(Jal(1, 16)) == 0x0100_00ef && Encode(Jal(0, 0x1f_ff58)) == 0xf59f_f06f
    ensures Encode(Jalr(1, 1, 184)) == 0x0b80_80e7 && Encode(Jalr(0, 6, 0xf78)) == 0xf783_0067
  {
  }

  lemma ListedBranches()
    ensures Encode(Branch(EQ, 13, 12, 4)) == 0x00c6_8263 && Encode(Branch(NE, 13, 12, 4)) == 0x00c6_9263
    ensures Encode(Branch(LT, 13, 12, 4)) == 0x00c6_c263 && Encode(Branch(GE, 13, 12, 4)) == 0x00c6_d263
    ensures Encode(Branch(LTU, 13, 12, 4)) == 0x00c6_e263 && Encode(Branch(GEU, 13, 12, 4)) == 0x00c6_f263
    ensures Encode(Branch(LTU, 17, 16, 0x1fe4)) == 0xff08_e2e3
  {
  }

  lemma ListedMemory()
    ensures Encode(Load(LB, 12, 11, 0)) == 0x0005_8603 && Encode(Load(LH, 12, 11, 0)) == 0x0005_9603
    ensures Encode(Load(LW, 12, 11, 0)) == 0x0005_a603 && Encode(Load(LBU, 13, 10, 1)) == 0x0015_4683
    ensures Encode(Load(LHU, 12, 11, 0)) == 0x0005_d603
    ensures Encode(Store(SB, 11, 12, 0)) == 0x00c5_8023 && Encode(Store(SH, 11, 12, 0)) == 0x00c5_9023
    ensures Encode(Store(SW, 11, 12, 0)) == 0x00c5_a023 && Encode(Store(SW, 10, 13, 0xffc)) == 0xfed5_2e23
  {
  }

  lemma ListedSums()
    ensures Encode(Op(ADD, 14, 2, 13)) == 0x00d1_0733 && Encode(Op(SUB, 14, 2, 13)) == 0x40d1_0733
    ensures Encode(OpImm(ADD, 12, 11, 3)) == 0x0035_8613 && Encode(OpImm(ADD, 12, 12, 0x84f)) == 0x84f6_0613
    ensures Encode(Op(SLT, 14, 13, 12)) == 0x00c6_a733 && Encode(Op(SLTU, 14, 13, 12)) == 0x00c6_b733
    ensures Encode(OpImm(SLT, 12, 11, 6)) == 0x0065_a613 && Encode(OpImm(SLTU, 12, 11, 3)) == 0x0035_b613
  {
  }

  lemma ListedBits()
    ensures Encode(Op(XOR, 12, 12, 11)) == 0x00b6_4633 && Encode(OpImm(XOR, 12, 11, 3)) == 0x0035_c613
    ensures Encode(Op(OR, 14, 13, 12)) == 0x00c6_e733 && Encode(OpImm(OR, 12, 11, 3)) == 0x0035_e613
    ensures Encode(Op(AND, 14, 13, 12)) == 0x00c6_f733 && Encode(OpImm(AND, 12, 11, 3)) == 0x0035_f613
  {
  }

  lemma ListedShifts()
    ensures Encode(ShiftReg(SLL, 14, 13, 12)) == 0x00c6_9733 && Encode(ShiftImm(SLL, 12, 11, 3)) == 0x0035_9613
    ensures Encode(ShiftReg(SRL, 14, 13, 12)) == 0x00c6_d733 && Encode(ShiftImm(SRL, 12, 11, 3)) == 0x0035_d613
    ensures Encode(ShiftReg(SRA, 14, 13, 12)) == 0x40c6_d733 && Encode(ShiftImm(SRA, 12, 11, 3)) == 0x4035_d613
  {
  }

  /** The instruction at pc is the one whose word lies there, the least significant byte first. */
  lemma FetchesMeans(s: Machine, i: Instr)
    requires |s.mem| == SPACE
    ensures Fetches(s, i) <==>
      Unsigned32(s.pc) % 4 == 0 && StoredNumber(SW, s.mem, Unsigned32(s.pc)) == Unsigned32(Encode(i))
  {
    hide Encode, Loaded, Unsigned32, Unsigned8;
    var a := Unsigned32(s.pc);
    if a % 4 == 0 {
      LoadMeans(LW, s.mem, a);
      Order(Loaded(LW, s.mem, a), Encode(i));
    }
  }

  /** Legal instructions have even offsets, and an immediate is added instead of being subtracted. */
  lemma LegalMeans(i: Instr)
    ensures Legal(i) <==>
      && (i.Jal? ==> Unsigned21(i.offset21) % 2 == 0)
      && (i.Branch? ==> Unsigned13(i.offset13) % 2 == 0)
      && (i.OpImm? ==> i.op != SUB)
  {
    if i.Jal? {
      EvenOffset21(i.offset21);
    } else if i.Branch? {
      EvenOffset13(i.offset13);
    }
    hide Unsigned13, Unsigned21;
  }

  function Unsigned13(imm: bv13): int {
    imm as int
  }

  lemma LowestOf21(rest: bv20, lowest: bv1)
    ensures ((rest as bv21 << 1) | (lowest as bv21)) as int == 2 * rest as int + lowest as int
    ensures ((rest as bv21 << 1) | (lowest as bv21)) & 1 == 0 <==> lowest == 0
  {
  }

  lemma LowestOf13(rest: bv12, lowest: bv1)
    ensures ((rest as bv13 << 1) | (lowest as bv13)) as int == 2 * rest as int + lowest as int
    ensures ((rest as bv13 << 1) | (lowest as bv13)) & 1 == 0 <==> lowest == 0
  {
  }

  function Joined21(rest: bv20, lowest: bv1): bv21 {
    (rest as bv21 << 1) | (lowest as bv21)
  }

  function Joined13(rest: bv12, lowest: bv1): bv13 {
    (rest as bv13 << 1) | (lowest as bv13)
  }

  lemma Parts21(imm: bv21) returns (rest: bv20, lowest: bv1)
    ensures imm == Joined21(rest, lowest)
  {
    rest, lowest := (imm >> 1) as bv20, (imm & 1) as bv1;
  }

  lemma Parts13(imm: bv13) returns (rest: bv12, lowest: bv1)
    ensures imm == Joined13(rest, lowest)
  {
    rest, lowest := (imm >> 1) as bv12, (imm & 1) as bv1;
  }

  function Upper20(rest: bv20): int {
    rest as int
  }

  lemma JoinedNumber21(rest: bv20, lowest: bv1)
    ensures Unsigned21(Joined21(rest, lowest)) == 2 * Upper20(rest) + if lowest == 0 then 0 else 1
  {
    LowestOf21(rest, lowest);
    OneBit(lowest);
  }

  lemma JoinedLowest21(rest: bv20, lowest: bv1)
    ensures Joined21(rest, lowest) & 1 == 0 <==> lowest == 0
  {
    LowestOf21(rest, lowest);
  }

  function Upper12(rest: bv12): int {
    rest as int
  }

  lemma JoinedNumber13(rest: bv12, lowest: bv1)
    ensures Unsigned13(Joined13(rest, lowest)) == 2 * Upper12(rest) + if lowest == 0 then 0 else 1
  {
    LowestOf13(rest, lowest);
    OneBit(lowest);
  }

  lemma JoinedLowest13(rest: bv12, lowest: bv1)
    ensures Joined13(rest, lowest) & 1 == 0 <==> lowest == 0
  {
    LowestOf13(rest, lowest);
  }

  lemma EvenOffset21(imm: bv21)
    ensures Unsigned21(imm) % 2 == 0 <==> imm & 1 == 0
  {
    hide Joined21, Unsigned21, Upper20;
    var rest, lowest := Parts21(imm);
    JoinedNumber21(rest, lowest);
    JoinedLowest21(rest, lowest);
  }

  lemma EvenOffset13(imm: bv13)
    ensures Unsigned13(imm) % 2 == 0 <==> imm & 1 == 0
  {
    hide Joined13, Unsigned13, Upper12;
    var rest, lowest := Parts13(imm);
    JoinedNumber13(rest, lowest);
    JoinedLowest13(rest, lowest);
  }
}
