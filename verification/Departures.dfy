/**
 What A5/src/simulate.c does in place of an RV32I instruction, and exactly where the two agree. Three
 things differ: the first source register is masked with 0xF, every shift to the right is of a signed
 int, and JALR reads its register before the slot of x0 is cleared and keeps the lowest bit of the sum.
*/
module Departures {
  import opened PagedMemory
  import opened Rv32
  import opened Rv32Meaning
  import opened WordValues
  import opened Decode

  // ----- the code as a machine over the same state

  function Signed(op: ShiftOp): ShiftOp {
    if op.SRL? then SRA else op
  }

  /** The instruction whose effect the code has, JALR apart. */
  function Performed(i: Instr): Instr {
    match i
    case Jalr(rd, rs1, imm) => Jalr(rd, LowFour(rs1), imm)
    case Branch(c, rs1, rs2, offset) => Branch(c, LowFour(rs1), rs2, offset)
    case Load(w, rd, rs1, imm) => Load(w, rd, LowFour(rs1), imm)
    case Store(w, rs1, rs2, imm) => Store(w, LowFour(rs1), rs2, imm)
    case Op(op, rd, rs1, rs2) => Op(op, rd, LowFour(rs1), rs2)
    case OpImm(op, rd, rs1, imm) => OpImm(op, rd, LowFour(rs1), imm)
    case ShiftImm(op, rd, rs1, shamt) => ShiftImm(Signed(op), rd, LowFour(rs1), shamt)
    case ShiftReg(op, rd, rs1, rs2) => ShiftReg(Signed(op), rd, LowFour(rs1), rs2)
    case _ => i
  }

  /** Shifting an int by 32 or more, or by a negative amount, is undefined in C. */
  ghost predicate Defined(i: Instr, s: Machine)
    requires |s.regs| == 32
  {
    i.ShiftReg? ==> InRange(Read(s, i.rs2))
  }

  predicate InRange(x: bv32) {
    x & 0xffff_ffe0 == 0
  }

  /** What JALR adds its immediate to; slot is what the register array holds for x0. */
  ghost function JumpSource(rs1: bv5, s: Machine, slot: bv32): bv32
    requires |s.regs| == 32
  {
    if Index(LowFour(rs1)) == 0 then slot else Read(s, LowFour(rs1))
  }

  ghost function Coded(i: Instr, s: Machine, slot: bv32): Machine
    requires WellFormed(s) && Aligned(Performed(i), s)
  {
    if i.Jalr? then
      Write(s, i.rd, Add(s.pc, 4)).(pc := Add(JumpSource(i.rs1, s, slot), SignExtend12(i.imm12)))
    else
      Exec(Performed(i), s)
  }

  /** A value written to x0 stays in its slot until the next step clears it. */
  function SlotWith(rd: bv5, value: bv32): bv32 {
    if Index(rd) == 0 then value else 0
  }

  ghost function SlotAfter(i: Instr, s: Machine): bv32
    requires WellFormed(s) && Aligned(Performed(i), s)
  {
    if HasRd(i) then SlotWith(i.rd, Result(Performed(i), s)) else 0
  }

  lemma CodedUpper(i: Instr, s: Machine, slot: bv32)
    requires WellFormed(s) && (i.Lui? || i.Auipc? || i.Jal?)
    ensures Aligned(Performed(i), s)
    ensures var value := if i.Lui? then UpperImmediate(i.imm20)
                         else Add(s.pc, if i.Auipc? then UpperImmediate(i.imm20) else 4);
            && Coded(i, s, slot) == Write(s, i.rd, value).(pc := Add(s.pc, if i.Jal? then SignExtend21(i.offset21) else 4))
            && SlotAfter(i, s) == SlotWith(i.rd, value)
  {
    hide Add, UpperImmediate, SignExtend21, Index, SlotWith;
  }

  lemma CodedJump(i: Instr, s: Machine, slot: bv32)
    requires WellFormed(s) && i.Jalr?
    ensures Aligned(Performed(i), s)
    ensures Coded(i, s, slot)
            == Write(s, i.rd, Add(s.pc, 4)).(pc := Add(JumpSource(i.rs1, s, slot), SignExtend12(i.imm12)))
    ensures SlotAfter(i, s) == SlotWith(i.rd, Add(s.pc, 4))
  {
    hide Add, SignExtend12, Index, SlotWith;
  }

  lemma CodedTyped(i: Instr, s: Machine, slot: bv32)
    requires WellFormed(s) && !i.Jalr? && Aligned(Performed(i), s)
    ensures Coded(i, s, slot) == Exec(Performed(i), s)
  {
  }

  // ----- where the code is right

  predicate NonNegative(x: bv32) {
    x & 0x8000_0000 == 0
  }

  /** Replacing the first operand x by x' does not change the result of op. */
  predicate Unseen(op: AluOp, x': bv32, x: bv32, y: bv32) {
    match op
    case ADD => x' == x
    case SUB => x' == x
    case XOR => x' == x
    case OR => And(Differ(x', x), Not(y)) == 0
    case AND => And(Differ(x', x), y) == 0
    case SLT => Int(x') < Int(y) <==> Int(x) < Int(y)
    case SLTU => Unsigned32(x') < Unsigned32(y) <==> Unsigned32(x) < Unsigned32(y)
  }

  /** The bits in which two words differ. */
  function Differ(x: bv32, y: bv32): bv32 {
    x ^ y
  }

  /** The code shifts x' in place of x, and to the right always as a signed int: what it shifts out may differ. */
  predicate ShiftUnseen(op: ShiftOp, x': bv32, x: bv32, n: bv5) {
    match op
    case SLL => Shift(SLL, Differ(x', x), n) == 0
    case SRA => Shift(SRL, Differ(x', x), n) == 0
    case SRL => Shift(SRL, Differ(x', x), n) == 0 && (n == 0 || NonNegative(x'))
  }

  /** The n bytes at an address aligned to n. */
  function Part(m: seq<bv8>, a: int, n: int): (r: seq<bv8>)
    requires |m| == SPACE && 0 <= a < SPACE && (n == 1 || n == 2 || n == 4) && a % n == 0
    ensures |r| == n
  {
    m[a..a + n]
  }

  function StoreBytes(w: StoreWidth, v: bv32): (r: seq<bv8>)
    ensures |r| == StoreSize(w)
  {
    match w
    case SB => [Byte(v, 0)]
    case SH => [Byte(v, 0), Byte(v, 1)]
    case SW => [Byte(v, 0), Byte(v, 1), Byte(v, 2), Byte(v, 3)]
  }

  const ALL_ONES: bv32 := 0xffff_ffff

  /** The value a jump must start from, given the right one, for the code to land where the ISA does. */
  function JumpNeeds(y: bv32, imm: bv12): bv32 {
    if Add(y, SignExtend12(imm)) & 1 == 0 then y else Add(y, ALL_ONES)
  }

  /** The code does what the ISA says exactly from these states; see CodedExact. */
  ghost predicate Supported(i: Instr, s: Machine, slot: bv32)
    requires WellFormed(s)
  {
    && Legal(i) && Aligned(i, s) && Aligned(Performed(i), s) && Defined(i, s)
    && match i
       case Lui(_, _) => true
       case Auipc(_, _) => true
       case Jal(_, _) => true
       case Jalr(_, rs1, imm) => JumpSource(rs1, s, slot) == JumpNeeds(Read(s, rs1), imm)
       case Branch(c, rs1, rs2, offset) =>
         offset == 4 || (Taken(c, Read(s, LowFour(rs1)), Read(s, rs2)) <==> Taken(c, Read(s, rs1), Read(s, rs2)))
       case Load(w, rd, rs1, imm) =>
         Index(rd) == 0
         || Part(s.mem, Address(s, LowFour(rs1), imm), Size(w)) == Part(s.mem, Address(s, rs1, imm), Size(w))
       case Store(w, rs1, rs2, imm) => StoreUnseen(w, s.mem, Address(s, LowFour(rs1), imm), Address(s, rs1, imm), Read(s, rs2))
       case Op(op, rd, rs1, rs2) => Index(rd) == 0 || Unseen(op, Read(s, LowFour(rs1)), Read(s, rs1), Read(s, rs2))
       case OpImm(op, rd, rs1, imm) => Index(rd) == 0 || Unseen(op, Read(s, LowFour(rs1)), Read(s, rs1), SignExtend12(imm))
       case ShiftImm(op, rd, rs1, n) => Index(rd) == 0 || ShiftUnseen(op, Read(s, LowFour(rs1)), Read(s, rs1), n)
       case ShiftReg(op, rd, rs1, rs2) =>
         Index(rd) == 0 || ShiftUnseen(op, Read(s, LowFour(rs1)), Read(s, rs1), LowFive(Read(s, rs2)))
  }

  /** Storing v at a' in place of a makes no difference: the same address, or both hold v already. */
  predicate StoreUnseen(w: StoreWidth, m: seq<bv8>, a': int, a: int, v: bv32)
    requires |m| == SPACE && 0 <= a' < SPACE && 0 <= a < SPACE && a' % StoreSize(w) == 0 && a % StoreSize(w) == 0
  {
    a' == a || Part(m, a', StoreSize(w)) == Part(m, a, StoreSize(w)) == StoreBytes(w, v)
  }

  // ----- shifts to the right

  lemma ArithmeticTopBit(x: bv32, n: bv5)
    requires x & 0x8000_0000 != 0
    ensures Shift(SRA, x, n) & 0x8000_0000 != 0
  {
  }

  lemma LogicalTopBit(x: bv32, n: bv5)
    requires n != 0
    ensures NonNegative(Shift(SRL, x, n))
  {
  }

  lemma NonNegativeShift(x: bv32, n: bv5)
    requires NonNegative(x)
    ensures Shift(SRA, x, n) == Shift(SRL, x, n)
  {
  }

  lemma NoShift(x: bv32, n: bv5)
    requires n == 0
    ensures Shift(SRA, x, n) == x == Shift(SRL, x, n)
  {
    assert !(!x) == x;
  }

  /** Shifting a signed int is the logical shift exactly by zero or of a non-negative value. */
  lemma SrliExact(x: bv32, n: bv5)
    ensures Shift(SRA, x, n) == Shift(SRL, x, n) <==> n == 0 || NonNegative(x)
  {
    if x & 0x8000_0000 == 0 {
      NonNegativeShift(x, n);
    } else if n == 0 {
      NoShift(x, n);
    } else {
      ArithmeticTopBit(x, n);
      LogicalTopBit(x, n);
      hide Shift;
    }
  }

  // ----- jumps

  lemma EvenTarget(x: bv32)
    ensures ClearLowest(x) == x <==> x & 1 == 0
  {
  }

  lemma OddTarget(x: bv32)
    requires x & 1 != 0
    ensures ClearLowest(x) == Add(x, ALL_ONES)
  {
    LowestOff(x);
  }

  lemma LowestOff(x: bv32)
    requires x & 1 != 0
    ensures x & 0xffff_fffe == x + 0xffff_ffff
  {
  }

  lemma AddLaws(x: bv32, y: bv32, z: bv32)
    ensures Add(Add(x, y), z) == Add(x, Add(y, z)) && Add(x, y) == Add(y, x) && Add(x, 0) == x
  {
    Associates(x, y, z);
  }

  lemma Associates(x: bv32, y: bv32, z: bv32)
    ensures (x + y) + z == x + (y + z)
  {
  }

  lemma Cancel(x: bv32, y: bv32, i: bv32)
    ensures Add(x, i) == Add(y, i) <==> x == y
  {
    hide Add;
    Negated(i);
    AddLaws(x, i, 0 - i);
    AddLaws(y, i, 0 - i);
    AddLaws(x, 0, 0);
    AddLaws(y, 0, 0);
  }

  lemma LessFirst(y: bv32, i: bv32, less: bv32)
    ensures Add(Add(y, i), less) == Add(Add(y, less), i)
  {
    hide Add;
    AddLaws(y, i, less);
    AddLaws(y, less, i);
    AddLaws(i, less, 0);
  }

  /** The jump lands where JALR should exactly from the register's value, or from one less when the sum is odd. */
  lemma JumpExact(x: bv32, y: bv32, imm: bv12)
    ensures Add(x, SignExtend12(imm)) == ClearLowest(Add(y, SignExtend12(imm))) <==> x == JumpNeeds(y, imm)
  {
    hide SignExtend12, Add, ClearLowest;
    var i := SignExtend12(imm);
    if Add(y, i) & 1 == 0 {
      EvenTarget(Add(y, i));
      Cancel(x, y, i);
    } else {
      OddTarget(Add(y, i));
      LessFirst(y, i, ALL_ONES);
      Cancel(x, Add(y, ALL_ONES), i);
    }
  }

  /** A jump through x0 is right exactly if its slot holds zero, or all ones when the immediate is odd. */
  lemma JumpThroughX0(slot: bv32, imm: bv12)
    ensures Add(slot, SignExtend12(imm)) == ClearLowest(Add(0, SignExtend12(imm)))
            <==> slot == if imm & 1 == 0 then 0 else 0xffff_ffff
  {
    LowBitKept(imm);
    AddZero(SignExtend12(imm));
    hide SignExtend12, Add, ClearLowest;
    JumpExact(slot, 0, imm);
    AddZero(ALL_ONES);
  }

  lemma AddZero(x: bv32)
    ensures Add(0, x) == x
  {
  }

  lemma LowBitKept(imm: bv12)
    ensures SignExtend12(imm) & 1 == 0 <==> imm & 1 == 0
  {
  }

  // ----- operands of which no difference is seen

  lemma SubExact(x': bv32, x: bv32, y: bv32)
    ensures Sub(x', y) == Sub(x, y) <==> x' == x
  {
    hide Sub, Add;
    SubIsAdd(x', y);
    SubIsAdd(x, y);
    Cancel(x', x, 0 - y);
  }

  lemma XorUnseen(x': bv32, x: bv32, y: bv32)
    requires x' ^ y == x ^ y
    ensures x' == x
  {
  }

  lemma XorExact(x': bv32, x: bv32, y: bv32)
    ensures Xor(x', y) == Xor(x, y) <==> x' == x
  {
    if Xor(x', y) == Xor(x, y) {
      XorUnseen(x', x, y);
    }
  }

  lemma OrSeen(x': bv32, x: bv32, y: bv32)
    requires x' | y == x | y
    ensures (x' ^ x) & !y == 0
  {
  }

  lemma OrUnseen(x': bv32, x: bv32, y: bv32)
    requires (x' ^ x) & !y == 0
    ensures x' | y == x | y
  {
  }

  /** OR hides the bits that y sets. */
  lemma OrExact(x': bv32, x: bv32, y: bv32)
    ensures Or(x', y) == Or(x, y) <==> And(Differ(x', x), Not(y)) == 0
  {
    if Or(x', y) == Or(x, y) {
      OrSeen(x', x, y);
    }
    if And(Differ(x', x), Not(y)) == 0 {
      OrUnseen(x', x, y);
    }
  }

  lemma AndSeen(x': bv32, x: bv32, y: bv32)
    requires x' & y == x & y
    ensures (x' ^ x) & y == 0
  {
  }

  lemma AndUnseen(x': bv32, x: bv32, y: bv32)
    requires (x' ^ x) & y == 0
    ensures x' & y == x & y
  {
  }

  /** AND hides the bits that y clears. */
  lemma AndExact(x': bv32, x: bv32, y: bv32)
    ensures And(x', y) == And(x, y) <==> And(Differ(x', x), y) == 0
  {
    if And(x', y) == And(x, y) {
      AndSeen(x', x, y);
    }
    if And(Differ(x', x), y) == 0 {
      AndUnseen(x', x, y);
    }
  }

  lemma AluExact(op: AluOp, x': bv32, x: bv32, y: bv32)
    ensures Alu(op, x', y) == Alu(op, x, y) <==> Unseen(op, x', x, y)
  {
    hide Add, Sub, Xor, Or, And, Not, Differ, Int, Unsigned32;
    match op {
      case ADD => Cancel(x', x, y);
      case SUB => SubExact(x', x, y);
      case XOR => XorExact(x', x, y);
      case OR => OrExact(x', x, y);
      case AND => AndExact(x', x, y);
      case SLT =>
      case SLTU =>
    }
  }

  lemma LeftShifts(x': bv32, x: bv32, n: bv5)
    ensures x' << n == x << n <==> (x' ^ x) << n == 0
  {
  }

  lemma RightShifts(x': bv32, x: bv32, n: bv5)
    ensures x' >> n == x >> n <==> (x' ^ x) >> n == 0
  {
  }

  lemma ShiftIs(x: bv32, n: bv5)
    ensures Shift(SLL, x, n) == x << n && Shift(SRL, x, n) == x >> n
  {
  }

  lemma DifferIs(x: bv32, y: bv32)
    ensures Differ(x, y) == x ^ y
  {
  }

  lemma LeftExact(x': bv32, x: bv32, n: bv5)
    ensures Shift(SLL, x', n) == Shift(SLL, x, n) <==> Shift(SLL, Differ(x', x), n) == 0
  {
    hide Shift, Differ;
    ShiftIs(x', n);
    ShiftIs(x, n);
    ShiftIs(x' ^ x, n);
    DifferIs(x', x);
    LeftShifts(x', x, n);
  }

  lemma RightExact(x': bv32, x: bv32, n: bv5)
    ensures Shift(SRL, x', n) == Shift(SRL, x, n) <==> Shift(SRL, Differ(x', x), n) == 0
  {
    hide Shift, Differ;
    ShiftIs(x', n);
    ShiftIs(x, n);
    ShiftIs(x' ^ x, n);
    DifferIs(x', x);
    RightShifts(x', x, n);
  }

  lemma TopBits(x: bv32, y: bv32)
    ensures NonNegative(Differ(x, y)) <==> (NonNegative(x) <==> NonNegative(y))
  {
  }

  lemma TopBitStays(x: bv32, n: bv5)
    requires !NonNegative(x)
    ensures Shift(SRL, x, n) != 0
  {
  }

  lemma SignStays(x: bv32, n: bv5)
    ensures NonNegative(Shift(SRA, x, n)) <==> NonNegative(x)
  {
    if NonNegative(x) {
      NonNegativeShift(x, n);
    } else {
      ArithmeticTopBit(x, n);
    }
  }

  lemma Complements(x: bv32, y: bv32)
    ensures Not(x) == Not(y) <==> x == y
    ensures Differ(Not(x), Not(y)) == Differ(x, y)
  {
  }

  lemma NegativeShift(x: bv32, n: bv5)
    requires !NonNegative(x)
    ensures Shift(SRA, x, n) == Not(Shift(SRL, Not(x), n))
  {
    hide Left, Right, Not;
  }

  /** Two shifts of signed ints agree exactly if no difference is left. */
  lemma ArithmeticExact(x': bv32, x: bv32, n: bv5)
    ensures Shift(SRA, x', n) == Shift(SRA, x, n) <==> Shift(SRL, Differ(x', x), n) == 0
  {
    hide Shift, Differ, NonNegative, Not;
    TopBits(x', x);
    SignStays(x', n);
    SignStays(x, n);
    if NonNegative(x') != NonNegative(x) {
      TopBitStays(Differ(x', x), n);
    } else if NonNegative(x) {
      NonNegativeShift(x', n);
      NonNegativeShift(x, n);
      RightExact(x', x, n);
    } else {
      NegativeShift(x', n);
      NegativeShift(x, n);
      RightExact(Not(x'), Not(x), n);
      Complements(x', x);
      Complements(Shift(SRL, Not(x'), n), Shift(SRL, Not(x), n));
    }
  }

  /** The code's shift of x' is the ISA's of x exactly if the bits in which they differ are shifted out. */
  lemma ShiftExact(op: ShiftOp, x': bv32, x: bv32, n: bv5)
    ensures Shift(Signed(op), x', n) == Shift(op, x, n) <==> ShiftUnseen(op, x', x, n)
  {
    hide Shift, Differ, NonNegative;
    match op {
      case SLL => LeftExact(x', x, n);
      case SRA => ArithmeticExact(x', x, n);
      case SRL =>
        SrliExact(x', n);
        RightExact(x', x, n);
        SignStays(x', n);
        if n != 0 {
          LogicalTopBit(x, n);
        }
    }
  }

  // ----- loads and stores at another address

  lemma PartBytes(m: seq<bv8>, a: int, n: int)
    requires |m| == SPACE && 0 <= a < SPACE && (n == 1 || n == 2 || n == 4) && a % n == 0
    ensures n == 1 ==> Part(m, a, n) == [m[a]]
    ensures n == 2 ==> Part(m, a, n) == [m[a], m[a + 1]]
    ensures n == 4 ==> Part(m, a, n) == [m[a], m[a + 1], m[a + 2], m[a + 3]]
  {
  }

  lemma WordInjective(b0: bv8, b1: bv8, b2: bv8, b3: bv8, c0: bv8, c1: bv8, c2: bv8, c3: bv8)
    ensures Word(b0, b1, b2, b3) == Word(c0, c1, c2, c3) <==> b0 == c0 && b1 == c1 && b2 == c2 && b3 == c3
  {
  }

  lemma HalfInjective(b0: bv8, b1: bv8, c0: bv8, c1: bv8)
    ensures Half(b0, b1) == Half(c0, c1) <==> b0 == c0 && b1 == c1
  {
  }

  lemma HalfIsLow(b0: bv8, b1: bv8)
    ensures Half(b0, b1) & 0xffff_0000 == 0
  {
  }

  lemma ExtendInjective(x: bv32, y: bv32)
    requires x & 0xffff_0000 == 0 && y & 0xffff_0000 == 0
    ensures SignExtendHalf(x) == SignExtendHalf(y) <==> x == y
  {
  }

  lemma HalvesInjective(b0: bv8, b1: bv8, c0: bv8, c1: bv8)
    ensures Half(b0, b1) == Half(c0, c1) <==> b0 == c0 && b1 == c1
    ensures SignExtendHalf(Half(b0, b1)) == SignExtendHalf(Half(c0, c1)) <==> b0 == c0 && b1 == c1
  {
    hide Half, SignExtendHalf;
    HalfInjective(b0, b1, c0, c1);
    HalfIsLow(b0, b1);
    HalfIsLow(c0, c1);
    ExtendInjective(Half(b0, b1), Half(c0, c1));
  }

  lemma ByteInjective(b: bv8, c: bv8)
    ensures Unsigned(b) == Unsigned(c) <==> b == c
    ensures SignExtendByte(b) == SignExtendByte(c) <==> b == c
  {
  }

  lemma LoadExact(w: Width, m: seq<bv8>, a': int, a: int)
    requires |m| == SPACE && 0 <= a' < SPACE && 0 <= a < SPACE && a' % Size(w) == 0 && a % Size(w) == 0
    ensures Loaded(w, m, a') == Loaded(w, m, a) <==> Part(m, a', Size(w)) == Part(m, a, Size(w))
  {
    PartBytes(m, a', Size(w));
    PartBytes(m, a, Size(w));
    hide Part, Word, Half, Unsigned, SignExtendByte, SignExtendHalf;
    match w {
      case LW => WordInjective(m[a'], m[a' + 1], m[a' + 2], m[a' + 3], m[a], m[a + 1], m[a + 2], m[a + 3]);
      case LH => HalvesInjective(m[a'], m[a' + 1], m[a], m[a + 1]);
      case LHU => HalvesInjective(m[a'], m[a' + 1], m[a], m[a + 1]);
      case LB => ByteInjective(m[a'], m[a]);
      case LBU => ByteInjective(m[a'], m[a]);
    }
  }

  lemma StoredSpliced(w: StoreWidth, m: seq<bv8>, a: int, v: bv32)
    requires |m| == SPACE && 0 <= a < SPACE && a % StoreSize(w) == 0
    ensures Stored(w, m, a, v) == Spliced(m, a, StoreBytes(w, v))
  {
    hide Byte;
  }

  lemma PutBack(m: seq<bv8>, a: int, b: seq<bv8>)
    requires 0 <= a && a + |b| <= |m| && m[a..a + |b|] == b
    ensures Spliced(m, a, b) == m
  {
  }

  lemma SplicedParts(m: seq<bv8>, a: int, b: seq<bv8>, other: int)
    requires 0 <= a && a + |b| <= |m| && 0 <= other && other + |b| <= |m|
    requires other + |b| <= a || a + |b| <= other
    ensures Spliced(m, a, b)[a..a + |b|] == b
    ensures Spliced(m, a, b)[other..other + |b|] == m[other..other + |b|]
  {
  }

  lemma SplicedSame(m: seq<bv8>, a': int, a: int, b: seq<bv8>)
    requires 0 <= a && a + |b| <= |m| && 0 <= a' && a' + |b| <= |m|
    requires a' == a || a' + |b| <= a || a + |b| <= a'
    ensures Spliced(m, a', b) == Spliced(m, a, b) <==> a' == a || (m[a'..a' + |b|] == b && m[a..a + |b|] == b)
  {
    hide Spliced;
    if a' != a {
      SplicedParts(m, a', b, a);
      SplicedParts(m, a, b, a');
      if m[a'..a' + |b|] == b && m[a..a + |b|] == b {
        PutBack(m, a', b);
        PutBack(m, a, b);
      }
    }
  }

  lemma StoresApart(w: StoreWidth, a': int, a: int)
    requires 0 <= a' < SPACE && 0 <= a < SPACE && a' % StoreSize(w) == 0 && a % StoreSize(w) == 0
    ensures a' + StoreSize(w) <= SPACE && a + StoreSize(w) <= SPACE
    ensures a' == a || a' + StoreSize(w) <= a || a + StoreSize(w) <= a'
    ensures StoreSize(w) == 1 || StoreSize(w) == 2 || StoreSize(w) == 4
  {
    match w
    case SB =>
    case SH => HalvesApart(a', a);
    case SW => WordsApart(a', a);
  }

  lemma HalvesApart(a': int, a: int)
    requires 0 <= a' < SPACE && 0 <= a < SPACE && a' % 2 == 0 && a % 2 == 0
    ensures a' + 2 <= SPACE && a + 2 <= SPACE
    ensures a' == a || a' + 2 <= a || a + 2 <= a'
  {
  }

  lemma WordsApart(a': int, a: int)
    requires 0 <= a' < SPACE && 0 <= a < SPACE && a' % 4 == 0 && a % 4 == 0
    ensures a' + 4 <= SPACE && a + 4 <= SPACE
    ensures a' == a || a' + 4 <= a || a + 4 <= a'
  {
  }

  lemma StoreExact(w: StoreWidth, m: seq<bv8>, a': int, a: int, v: bv32)
    requires |m| == SPACE && 0 <= a' < SPACE && 0 <= a < SPACE && a' % StoreSize(w) == 0 && a % StoreSize(w) == 0
    ensures Stored(w, m, a', v) == Stored(w, m, a, v) <==> StoreUnseen(w, m, a', a, v)
  {
    StoredSpliced(w, m, a', v);
    StoredSpliced(w, m, a, v);
    StoresApart(w, a', a);
    hide Stored, Spliced, StoreBytes, StoreSize;
    assert Part(m, a', StoreSize(w)) == m[a'..a' + StoreSize(w)] && Part(m, a, StoreSize(w)) == m[a..a + StoreSize(w)];
    hide Part;
    SplicedSame(m, a', a, StoreBytes(w, v));
  }

  // ----- where the code is right, exactly

  /** Two results written to rd can be told apart unless rd is x0. */
  lemma WriteExact(s: Machine, rd: bv5, x: bv32, y: bv32)
    requires WellFormed(s)
    ensures Next(Write(s, rd, x)) == Next(Write(s, rd, y)) <==> Index(rd) == 0 || x == y
  {
    hide Add;
    var t, u := Next(Write(s, rd, x)), Next(Write(s, rd, y));
    if Index(rd) != 0 {
      assert t.regs[Index(rd)] == x && u.regs[Index(rd)] == y;
    }
  }

  lemma FourOnly(offset: bv13)
    ensures SignExtend13(offset) == 4 <==> offset == 4
  {
  }

  /** A branch to the next instruction goes there whether it is taken or not. */
  lemma BranchExact(s: Machine, offset: bv13)
    ensures s.(pc := Add(s.pc, SignExtend13(offset))) == Next(s) <==> offset == 4
  {
    hide Add, SignExtend13;
    FourOnly(offset);
    AddLaws(s.pc, SignExtend13(offset), 0);
    AddLaws(s.pc, 4, 0);
    Cancel(SignExtend13(offset), 4, s.pc);
  }

  /** The code does what the ISA says. */
  ghost predicate Right(i: Instr, s: Machine, slot: bv32)
    requires WellFormed(s)
  {
    && Legal(i) && Aligned(i, s) && Defined(i, s)
    && Aligned(Performed(i), s) && Coded(i, s, slot) == Exec(i, s)
  }

  lemma AluCase(i: Instr, s: Machine, slot: bv32)
    requires WellFormed(s) && (i.Op? || i.OpImm?)
    ensures Supported(i, s, slot) <==> Right(i, s, slot)
  {
    hide LowFour, Read, Write, Alu, Add, Index, SignExtend12, Legal, Defined, Unseen;
    var x', x := Read(s, LowFour(i.rs1)), Read(s, i.rs1);
    var y := if i.Op? then Read(s, i.rs2) else SignExtend12(i.imm12);
    AluExact(i.op, x', x, y);
    WriteExact(s, i.rd, Alu(i.op, x', y), Alu(i.op, x, y));
  }

  lemma ShiftCase(i: Instr, s: Machine, slot: bv32)
    requires WellFormed(s) && (i.ShiftImm? || i.ShiftReg?)
    ensures Supported(i, s, slot) <==> Right(i, s, slot)
  {
    hide LowFour, Read, Write, Shift, Add, Index, LowFive, Legal, Defined, ShiftUnseen;
    var x', x := Read(s, LowFour(i.rs1)), Read(s, i.rs1);
    var n := if i.ShiftImm? then i.shamt else LowFive(Read(s, i.rs2));
    ShiftExact(i.shift, x', x, n);
    WriteExact(s, i.rd, Shift(Signed(i.shift), x', n), Shift(i.shift, x, n));
  }

  lemma LoadCase(i: Instr, s: Machine, slot: bv32)
    requires WellFormed(s) && i.Load?
    ensures Supported(i, s, slot) <==> Right(i, s, slot)
  {
    hide LowFour, Read, Write, Loaded, Add, Index, SignExtend12, Unsigned32, Legal, Defined, Part, Offset, Address;
    if Aligned(i, s) && Aligned(Performed(i), s) {
      var a', a := Address(s, LowFour(i.rs1), i.imm12), Address(s, i.rs1, i.imm12);
      LoadExact(i.width, s.mem, a', a);
      WriteExact(s, i.rd, Loaded(i.width, s.mem, a'), Loaded(i.width, s.mem, a));
    }
  }

  lemma StoreCase(i: Instr, s: Machine, slot: bv32)
    requires WellFormed(s) && i.Store?
    ensures Supported(i, s, slot) <==> Right(i, s, slot)
  {
    hide LowFour, Read, Stored, Add, SignExtend12, Unsigned32, Legal, Defined, StoreUnseen, Offset, Address;
    if Aligned(i, s) && Aligned(Performed(i), s) {
      var a', a := Address(s, LowFour(i.rs1), i.imm12), Address(s, i.rs1, i.imm12);
      StoreExact(i.storeWidth, s.mem, a', a, Read(s, i.rs2));
    }
  }

  lemma JumpCase(i: Instr, s: Machine, slot: bv32)
    requires WellFormed(s) && (i.Jalr? || i.Branch?)
    ensures Supported(i, s, slot) <==> Right(i, s, slot)
  {
    hide LowFour, Read, Write, Add, Index, SignExtend12, SignExtend13, Legal, Defined, Taken, ClearLowest, JumpNeeds, JumpSource;
    if i.Jalr? {
      JumpExact(JumpSource(i.rs1, s, slot), Read(s, i.rs1), i.imm12);
    } else {
      BranchExact(s, i.offset13);
    }
  }

  lemma UpperCase(i: Instr, s: Machine, slot: bv32)
    requires WellFormed(s) && !HasRs1(i)
    ensures Supported(i, s, slot) <==> Right(i, s, slot)
  {
    hide Read, Write, Add, Index, Legal, UpperImmediate, SignExtend21;
  }

  /** The code does what the ISA says from the supported states and from no others. */
  lemma CodedExact(i: Instr, s: Machine, slot: bv32)
    requires WellFormed(s)
    ensures Supported(i, s, slot) <==> Right(i, s, slot)
  {
    hide Supported, Legal, Aligned, Defined, Performed, Coded, Exec;
    if i.Op? || i.OpImm? {
      AluCase(i, s, slot);
    } else if i.ShiftImm? || i.ShiftReg? {
      ShiftCase(i, s, slot);
    } else if i.Load? {
      LoadCase(i, s, slot);
    } else if i.Store? {
      StoreCase(i, s, slot);
    } else if i.Jalr? || i.Branch? {
      JumpCase(i, s, slot);
    } else {
      UpperCase(i, s, slot);
    }
  }

  // ----- the masked register

  /** The register the code reads holds what the named one holds. */
  ghost predicate SameSource(rs1: bv5, s: Machine)
    requires |s.regs| == 32
  {
    Read(s, LowFour(rs1)) == Read(s, rs1)
  }

  lemma LowFourSame(r: bv5)
    ensures LowFour(r) == r <==> r < 16
  {
  }

  lemma SixteenBelow(r: bv5)
    requires r >= 16
    ensures LowFour(r) == r - 16
  {
  }

  lemma BelowSixteen(rs1: bv5, s: Machine)
    requires |s.regs| == 32 && rs1 < 16
    ensures SameSource(rs1, s)
  {
    LowFourSame(rs1);
    hide LowFour, Read;
  }

  /** Sums, differences and exclusive ors show every difference: they need the named register's very value. */
  lemma SourceSeen(op: AluOp, rd: bv5, rs1: bv5, rs2: bv5, imm: bv12, s: Machine, slot: bv32)
    requires WellFormed(s) && Index(rd) != 0 && (op.ADD? || op.SUB? || op.XOR?)
    ensures Coded(Op(op, rd, rs1, rs2), s, slot) == Exec(Op(op, rd, rs1, rs2), s) <==> SameSource(rs1, s)
    ensures !op.SUB? ==> (Coded(OpImm(op, rd, rs1, imm), s, slot) == Exec(OpImm(op, rd, rs1, imm), s) <==> SameSource(rs1, s))
    ensures SameSource(rs1, s) <==> rs1 < 16 || Read(s, rs1 - 16) == Read(s, rs1)
  {
    CodedExact(Op(op, rd, rs1, rs2), s, slot);
    CodedExact(OpImm(op, rd, rs1, imm), s, slot);
    hide LowFour, Read, Coded, Exec, Index;
    if rs1 < 16 {
      BelowSixteen(rs1, s);
    } else {
      SixteenBelow(rs1);
    }
  }

  /** mv x2, x17 copies x1. */
  lemma WrongRegister(s: Machine, slot: bv32)
    requires WellFormed(s) && Read(s, 17) == 1 && Read(s, 1) == 0
    ensures Read(Coded(OpImm(ADD, 2, 17, 0), s, slot), 2) == 0
    ensures Read(Exec(OpImm(ADD, 2, 17, 0), s), 2) == 1
  {
    assert LowFour(17) == 1 && SignExtend12(0) == 0 && Add(0, 0) == 0 && Add(1, 0) == 1;
  }

  lemma ShiftsOfLowest()
    ensures LowFour(1) == 1
    ensures Shift(SRA, 0x8000_0000, 1) == 0xc000_0000 && Shift(SRL, 0x8000_0000, 1) == 0x4000_0000
  {
  }

  /** srli x1, x1, 1 shifts a one into the highest bit. */
  lemma WrongShift(s: Machine, slot: bv32)
    requires WellFormed(s) && Read(s, 1) == 0x8000_0000
    ensures Read(Coded(ShiftImm(SRL, 1, 1, 1), s, slot), 1) == 0xc000_0000
    ensures Read(Exec(ShiftImm(SRL, 1, 1, 1), s), 1) == 0x4000_0000
  {
    hide LowFour, Shift, Add;
    ShiftsOfLowest();
  }

  // ----- a part of the instruction set on which the code is right

  /**
   Its first source register is below 16, a logical shift to the right is of a non-negative number, and a
   jump through a register is not through x0 and to an even address.
  */
  ghost predicate Ordinary(i: Instr, s: Machine)
    requires |s.regs| == 32
  {
    && Legal(i) && Aligned(i, s) && Defined(i, s)
    && (HasRs1(i) ==> i.rs1 < 16)
    && (i.ShiftImm? || i.ShiftReg? ==> !i.shift.SRL? || NonNegative(Read(s, i.rs1)))
    && (i.Jalr? ==> i.rs1 != 0 && Offset(s, i.rs1, i.imm12) & 1 == 0)
  }

  lemma NonNegativeSame(i: Instr, s: Machine)
    requires WellFormed(s) && (i.ShiftImm? || i.ShiftReg?) && i.shift.SRL? && NonNegative(Read(s, i.rs1))
    requires LowFour(i.rs1) == i.rs1
    ensures Aligned(Performed(i), s) && Exec(Performed(i), s) == Exec(i, s)
  {
    NonNegativeShift(Read(s, i.rs1), if i.ShiftImm? then i.shamt else LowFive(Read(s, i.rs2)));
    hide LowFour, Read, Write, Shift, Add, Index, LowFive, NonNegative;
  }

  lemma EvenJump(i: Instr, s: Machine, slot: bv32)
    requires WellFormed(s) && i.Jalr? && LowFour(i.rs1) == i.rs1 && i.rs1 != 0 && Offset(s, i.rs1, i.imm12) & 1 == 0
    ensures JumpSource(i.rs1, s, slot) == JumpNeeds(Read(s, i.rs1), i.imm12)
  {
    hide LowFour, Add, SignExtend12;
  }

  /** From every state and whatever the slot of x0 holds, an ordinary instruction is done as the ISA says. */
  lemma OrdinarySupported(i: Instr, s: Machine, slot: bv32)
    requires WellFormed(s) && Ordinary(i, s)
    ensures Supported(i, s, slot)
  {
    if HasRs1(i) {
      LowFourSame(i.rs1);
    }
    hide LowFour, Exec, Supported, Aligned, Defined, Legal, NonNegative, Read, Add, SignExtend12, JumpSource, JumpNeeds;
    if i.Jalr? {
      EvenJump(i, s, slot);
      EvenSupported(i, s, slot);
    } else {
      if (i.ShiftImm? || i.ShiftReg?) && i.shift.SRL? {
        NonNegativeSame(i, s);
      } else {
        assert Performed(i) == i;
      }
      CodedExact(i, s, slot);
    }
  }

  lemma EvenSupported(i: Instr, s: Machine, slot: bv32)
    requires WellFormed(s) && i.Jalr? && JumpSource(i.rs1, s, slot) == JumpNeeds(Read(s, i.rs1), i.imm12)
    ensures Supported(i, s, slot)
  {
    hide LowFour, Read, JumpSource, JumpNeeds, Add;
  }

  /** Every legal, aligned instruction with a first source register below 16 but SRL and JALR is done right from every state. */
  lemma BelowSixteenSupported(i: Instr, s: Machine, slot: bv32)
    requires WellFormed(s) && Legal(i) && Aligned(i, s) && !i.Jalr? && (HasRs1(i) ==> i.rs1 < 16)
    requires i.ShiftImm? || i.ShiftReg? ==> !i.shift.SRL?
    requires i.ShiftReg? ==> 0 <= Int(Read(s, i.rs2)) < 32
    ensures Supported(i, s, slot)
  {
    if i.ShiftReg? {
      InRangeExact(Read(s, i.rs2));
    }
    hide Legal, Aligned, Supported, NonNegative, InRange, Int, Read;
    OrdinarySupported(i, s, slot);
  }

  lemma ManyBits(high: bv27, low: bv5)
    ensures InRange(Joined5(high, low)) <==> high == 0
  {
  }

  lemma JoinedValue(high: bv27, low: bv5)
    ensures Unsigned32(Joined5(high, low)) == 32 * Unsigned27(high) + Amount(low)
    ensures high == 0 <==> Unsigned27(high) == 0
  {
    Value5(high, low);
  }

  function Unsigned27(high: bv27): (v: int)
    ensures 0 <= v
  {
    high as int
  }

  /** C defines a shift of 32 bits by an int exactly if the int is from 0 to 31. */
  lemma InRangeExact(x: bv32)
    ensures InRange(x) <==> 0 <= Int(x) < 32
  {
    hide InRange, Joined5, Unsigned32, Amount, LowFive, Unsigned27;
    var high, low := Parts5(x);
    ManyBits(high, low);
    JoinedValue(high, low);
  }
}
