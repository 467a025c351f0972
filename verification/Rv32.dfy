/** The part of RV32I that the simulator is meant for: RISC-V Unprivileged ISA, sections 2.2 to 2.6. */
module Rv32 {
  import opened PagedMemory
  import opened WordValues

  // ----- instructions

  datatype AluOp = ADD | SUB | SLT | SLTU | XOR | OR | AND

  datatype ShiftOp = SLL | SRL | SRA

  datatype Cond = EQ | NE | LT | GE | LTU | GEU

  datatype Width = LB | LH | LW | LBU | LHU

  datatype StoreWidth = SB | SH | SW

  datatype Instr =
    | Lui(rd: bv5, imm20: bv20)
    | Auipc(rd: bv5, imm20: bv20)
    | Jal(rd: bv5, offset21: bv21)
    | Jalr(rd: bv5, rs1: bv5, imm12: bv12)
    | Branch(cond: Cond, rs1: bv5, rs2: bv5, offset13: bv13)
    | Load(width: Width, rd: bv5, rs1: bv5, imm12: bv12)
    | Store(storeWidth: StoreWidth, rs1: bv5, rs2: bv5, imm12: bv12)
    | Op(op: AluOp, rd: bv5, rs1: bv5, rs2: bv5)
    | OpImm(op: AluOp, rd: bv5, rs1: bv5, imm12: bv12)
    | ShiftImm(shift: ShiftOp, rd: bv5, rs1: bv5, shamt: bv5)
    | ShiftReg(shift: ShiftOp, rd: bv5, rs1: bv5, rs2: bv5)

  // ----- section 2.2 and 2.3: formats

  function FormatR(funct7: bv7, rs2: bv5, rs1: bv5, funct3: bv3, rd: bv5, opcode: bv7): bv32 {
    (funct7 as bv32 << 25) | (rs2 as bv32 << 20) | (rs1 as bv32 << 15) | (funct3 as bv32 << 12) | (rd as bv32 << 7) | (opcode as bv32)
  }

  function FormatI(imm: bv12, rs1: bv5, funct3: bv3, rd: bv5, opcode: bv7): bv32 {
    (imm as bv32 << 20) | (rs1 as bv32 << 15) | (funct3 as bv32 << 12) | (rd as bv32 << 7) | (opcode as bv32)
  }

  /** Bits [high:low] of a value, moved to position at. */
  function Bits(x: bv32, high: bv8, low: bv8, at: bv8): bv32
    requires low <= high < 32 && at < 32
  {
    ((x >> low) & (0xffff_ffff >> (31 - (high - low)))) << at
  }

  function FormatS(imm: bv12, rs2: bv5, rs1: bv5, funct3: bv3, opcode: bv7): bv32 {
    Bits(imm as bv32, 11, 5, 25) | (rs2 as bv32 << 20) | (rs1 as bv32 << 15) | (funct3 as bv32 << 12)
    | Bits(imm as bv32, 4, 0, 7) | (opcode as bv32)
  }

  function FormatB(imm: bv13, rs2: bv5, rs1: bv5, funct3: bv3, opcode: bv7): bv32 {
    Bits(imm as bv32, 12, 12, 31) | Bits(imm as bv32, 10, 5, 25) | (rs2 as bv32 << 20) | (rs1 as bv32 << 15)
    | (funct3 as bv32 << 12) | Bits(imm as bv32, 4, 1, 8) | Bits(imm as bv32, 11, 11, 7) | (opcode as bv32)
  }

  function FormatU(imm: bv20, rd: bv5, opcode: bv7): bv32 {
    UpperImmediate(imm) | (rd as bv32 << 7) | (opcode as bv32)
  }

  function FormatJ(imm: bv21, rd: bv5, opcode: bv7): bv32 {
    Bits(imm as bv32, 20, 20, 31) | Bits(imm as bv32, 10, 1, 21) | Bits(imm as bv32, 11, 11, 20)
    | Bits(imm as bv32, 19, 12, 12) | (rd as bv32 << 7) | (opcode as bv32)
  }

  function SignExtend12(imm: bv12): bv32 {
    if imm & 0x800 != 0 then 0xffff_f000 | (imm as bv32) else imm as bv32
  }

  function SignExtend13(imm: bv13): bv32 {
    if imm & 0x1000 != 0 then 0xffff_e000 | (imm as bv32) else imm as bv32
  }

  function SignExtend21(imm: bv21): bv32 {
    if imm & 0x10_0000 != 0 then 0xffe0_0000 | (imm as bv32) else imm as bv32
  }

  function UpperImmediate(imm: bv20): bv32 {
    imm as bv32 << 12
  }

  function ClearLowest(x: bv32): bv32 {
    x & 0xffff_fffe
  }

  // ----- opcodes and function codes

  const LUI: bv7 := 55
  const AUIPC: bv7 := 23
  const JAL: bv7 := 111
  const JALR: bv7 := 103
  const BRANCH: bv7 := 99
  const LOAD: bv7 := 3
  const STORE: bv7 := 35
  const OP: bv7 := 51
  const OP_IMM: bv7 := 19

  function AluCode(op: AluOp): bv3 {
    match op
    case ADD => 0
    case SUB => 0
    case SLT => 2
    case SLTU => 3
    case XOR => 4
    case OR => 6
    case AND => 7
  }

  function ShiftCode(op: ShiftOp): bv3 {
    if op == SLL then 1 else 5
  }

  function CondCode(c: Cond): bv3 {
    match c
    case EQ => 0
    case NE => 1
    case LT => 4
    case GE => 5
    case LTU => 6
    case GEU => 7
  }

  function WidthCode(w: Width): bv3 {
    match w
    case LB => 0
    case LH => 1
    case LW => 2
    case LBU => 4
    case LHU => 5
  }

  function StoreCode(w: StoreWidth): bv3 {
    match w
    case SB => 0
    case SH => 1
    case SW => 2
  }

  function Encode(i: Instr): bv32 {
    match i
    case Lui(rd, imm) => FormatU(imm, rd, LUI)
    case Auipc(rd, imm) => FormatU(imm, rd, AUIPC)
    case Jal(rd, offset) => FormatJ(offset, rd, JAL)
    case Jalr(rd, rs1, imm) => FormatI(imm, rs1, 0, rd, JALR)
    case Branch(c, rs1, rs2, offset) => FormatB(offset, rs2, rs1, CondCode(c), BRANCH)
    case Load(w, rd, rs1, imm) => FormatI(imm, rs1, WidthCode(w), rd, LOAD)
    case Store(w, rs1, rs2, imm) => FormatS(imm, rs2, rs1, StoreCode(w), STORE)
    case Op(op, rd, rs1, rs2) => FormatR(if op == SUB then 32 else 0, rs2, rs1, AluCode(op), rd, OP)
    case OpImm(op, rd, rs1, imm) => FormatI(imm, rs1, AluCode(op), rd, OP_IMM)
    case ShiftImm(op, rd, rs1, shamt) => FormatR(if op == SRA then 32 else 0, shamt, rs1, ShiftCode(op), rd, OP_IMM)
    case ShiftReg(op, rd, rs1, rs2) => FormatR(if op == SRA then 32 else 0, rs2, rs1, ShiftCode(op), rd, OP)
  }

  // ----- sections 2.4 to 2.6: what instructions do

  /** Registers x0 to x31, the address of the next instruction, and memory; x0 is always zero. */
  datatype Machine = Machine(regs: seq<bv32>, pc: bv32, mem: seq<bv8>)

  ghost predicate WellFormed(s: Machine) {
    |s.regs| == 32 && s.regs[0] == 0 && |s.mem| == SPACE
  }

  function Index(r: bv5): (i: int)
    ensures 0 <= i < 32
  {
    r as int
  }

  function Read(s: Machine, r: bv5): bv32
    requires |s.regs| == 32
  {
    s.regs[Index(r)]
  }

  function Write(s: Machine, rd: bv5, value: bv32): Machine
    requires |s.regs| == 32
  {
    if Index(rd) == 0 then s else s.(regs := s.regs[Index(rd) := value])
  }

  function Next(s: Machine): Machine {
    s.(pc := Add(s.pc, 4))
  }

  function Flag(b: bool): bv32 {
    if b then 1 else 0
  }

  function Alu(op: AluOp, x: bv32, y: bv32): bv32 {
    match op
    case ADD => Add(x, y)
    case SUB => Sub(x, y)
    case SLT => Flag(Int(x) < Int(y))
    case SLTU => Flag(Unsigned32(x) < Unsigned32(y))
    case XOR => Xor(x, y)
    case OR => Or(x, y)
    case AND => And(x, y)
  }

  function Shift(op: ShiftOp, x: bv32, n: bv5): bv32 {
    match op
    case SLL => Left(x, n)
    case SRL => Right(x, n)
    case SRA => if x & 0x8000_0000 != 0 then Not(Right(Not(x), n)) else Right(x, n)
  }

  /** A shift by a register uses its lowest five bits. */
  function LowFive(x: bv32): bv5 {
    (x & 0x1f) as bv5
  }

  predicate Taken(c: Cond, x: bv32, y: bv32) {
    match c
    case EQ => x == y
    case NE => x != y
    case LT => Int(x) < Int(y)
    case GE => Int(x) >= Int(y)
    case LTU => Unsigned32(x) < Unsigned32(y)
    case GEU => Unsigned32(x) >= Unsigned32(y)
  }

  function Size(w: Width): int {
    match w
    case LB => 1
    case LBU => 1
    case LH => 2
    case LHU => 2
    case LW => 4
  }

  function StoreSize(w: StoreWidth): int {
    match w
    case SB => 1
    case SH => 2
    case SW => 4
  }

  function SignExtendByte(b: bv8): bv32 {
    if b & 0x80 != 0 then 0xffff_ff00 | (b as bv32) else b as bv32
  }

  function SignExtendHalf(x: bv32): bv32 {
    if x & 0x8000 != 0 then 0xffff_0000 | x else x
  }

  /** imm12 of a jump or an address added to a register. */
  function Offset(s: Machine, rs1: bv5, imm: bv12): bv32
    requires |s.regs| == 32
  {
    Add(Read(s, rs1), SignExtend12(imm))
  }

  /** The address of a load or store. */
  function Address(s: Machine, rs1: bv5, imm: bv12): (a: int)
    requires |s.regs| == 32
    ensures 0 <= a < SPACE
  {
    Unsigned32(Offset(s, rs1, imm))
  }

  function Loaded(w: Width, m: seq<bv8>, a: int): bv32
    requires |m| == SPACE && 0 <= a < SPACE && a % Size(w) == 0
  {
    match w
    case LB => SignExtendByte(m[a])
    case LBU => Unsigned(m[a])
    case LH => SignExtendHalf(Half(m[a], m[a + 1]))
    case LHU => Half(m[a], m[a + 1])
    case LW => Word(m[a], m[a + 1], m[a + 2], m[a + 3])
  }

  function Stored(w: StoreWidth, m: seq<bv8>, a: int, v: bv32): seq<bv8>
    requires |m| == SPACE && 0 <= a < SPACE && a % StoreSize(w) == 0
  {
    match w
    case SB => m[a := Byte(v, 0)]
    case SH => Spliced(m, a, [Byte(v, 0), Byte(v, 1)])
    case SW => Spliced(m, a, [Byte(v, 0), Byte(v, 1), Byte(v, 2), Byte(v, 3)])
  }

  /** Loads and stores must be aligned to their size. */
  ghost predicate Aligned(i: Instr, s: Machine)
    requires |s.regs| == 32
  {
    match i
    case Load(w, _, rs1, imm) => Address(s, rs1, imm) % Size(w) == 0
    case Store(w, rs1, _, imm) => Address(s, rs1, imm) % StoreSize(w) == 0
    case _ => true
  }

  /** What i writes to its destination register; instructions without one have no result. */
  ghost function Result(i: Instr, s: Machine): bv32
    requires WellFormed(s) && Aligned(i, s)
  {
    match i
    case Lui(_, imm) => UpperImmediate(imm)
    case Auipc(_, imm) => Add(s.pc, UpperImmediate(imm))
    case Jal(_, _) => Add(s.pc, 4)
    case Jalr(_, _, _) => Add(s.pc, 4)
    case Load(w, _, rs1, imm) => Loaded(w, s.mem, Address(s, rs1, imm))
    case Op(op, _, rs1, rs2) => Alu(op, Read(s, rs1), Read(s, rs2))
    case OpImm(op, _, rs1, imm) => Alu(op, Read(s, rs1), SignExtend12(imm))
    case ShiftImm(op, _, rs1, shamt) => Shift(op, Read(s, rs1), shamt)
    case ShiftReg(op, _, rs1, rs2) => Shift(op, Read(s, rs1), LowFive(Read(s, rs2)))
    case _ => 0
  }

  ghost function Exec(i: Instr, s: Machine): Machine
    requires WellFormed(s) && Aligned(i, s)
  {
    match i
    case Jal(rd, offset) => Write(s, rd, Result(i, s)).(pc := Add(s.pc, SignExtend21(offset)))
    case Jalr(rd, rs1, imm) => Write(s, rd, Result(i, s)).(pc := ClearLowest(Offset(s, rs1, imm)))
    case Branch(c, rs1, rs2, offset) =>
      if Taken(c, Read(s, rs1), Read(s, rs2)) then s.(pc := Add(s.pc, SignExtend13(offset))) else Next(s)
    case Store(w, rs1, rs2, imm) => Next(s.(mem := Stored(w, s.mem, Address(s, rs1, imm), Read(s, rs2))))
    case _ => Next(Write(s, i.rd, Result(i, s)))
  }

  /** SUB has no immediate form, and offsets are even. */
  ghost predicate Legal(i: Instr) {
    match i
    case Jal(_, offset) => offset & 1 == 0
    case Branch(_, _, _, offset) => offset & 1 == 0
    case OpImm(op, _, _, _) => op != SUB
    case _ => true
  }

  ghost predicate HasRd(i: Instr) {
    !i.Branch? && !i.Store?
  }

  ghost predicate HasRs1(i: Instr) {
    !i.Lui? && !i.Auipc? && !i.Jal?
  }

  /** The instruction at pc. */
  ghost predicate Fetches(s: Machine, i: Instr)
    requires |s.mem| == SPACE
  {
    var a := Unsigned32(s.pc);
    a % Size(LW) == 0 && Loaded(LW, s.mem, a) == Encode(i)
  }

  lemma LoadedWord(m: seq<bv8>, a: int)
    requires |m| == SPACE && 0 <= a < SPACE && a % 4 == 0
    ensures Loaded(LW, m, a) == Word(m[a], m[a + 1], m[a + 2], m[a + 3])
  {
  }

  lemma ExecWellFormed(i: Instr, s: Machine)
    requires WellFormed(s) && Aligned(i, s)
    ensures WellFormed(Exec(i, s))
  {
    hide Add, Result, SignExtend12, SignExtend21, SignExtend13, ClearLowest, Taken, Offset, Write, Stored;
    hide Index, Read, Size, StoreSize, Address;
    if HasRd(i) {
      WriteWellFormed(s, i.rd, Result(i, s));
    } else if i.Store? {
      StoredLength(i.storeWidth, s.mem, Address(s, i.rs1, i.imm12), Read(s, i.rs2));
    }
  }

  lemma WriteWellFormed(s: Machine, rd: bv5, value: bv32)
    requires WellFormed(s)
    ensures WellFormed(Write(s, rd, value))
  {
  }

  lemma StoredLength(w: StoreWidth, m: seq<bv8>, a: int, v: bv32)
    requires |m| == SPACE && 0 <= a < SPACE && a % StoreSize(w) == 0
    ensures |Stored(w, m, a, v)| == SPACE
  {
    hide Byte;
  }
}
