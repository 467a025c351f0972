/** The field extractors of A5/src/decode_helpers.c, and what they give on encoded instructions. */
module Decode {
  import opened PagedMemory
  import opened WordValues
  import opened Rv32

  function GetOpcode(word: bv32): bv7 {
    ((word << 25) >> 25) as bv7
  }

  function GetRd(word: bv32): bv5 {
    ((word >> 7) & 0x1f) as bv5
  }

  function GetFunct3(word: bv32): bv3 {
    ((word >> 12) & 0x7) as bv3
  }

  /** The mask is 0xF, one bit short of the field. */
  function GetRs1(word: bv32): bv5 {
    ((word >> 15) & 0xf) as bv5
  }

  /** What that mask leaves of a register number. */
  function LowFour(r: bv5): bv5 {
    r & 0xf
  }

  function GetRs2(word: bv32): bv5 {
    ((word >> 20) & 0x1f) as bv5
  }

  function GetFunct7(word: bv32): bv7 {
    (word >> 25) as bv7
  }

  function GetShamt(word: bv32): bv5 {
    ((word & 0x01f00000) >> 20) as bv5
  }

  function GetImmI(word: bv32): bv32 {
    ShiftRight(word, 20)
  }

  function SUpper(word: bv32): bv32 {
    ShiftRight(word & 0xfe000000, 20)
  }

  function GetImmS(word: bv32): bv32 {
    SUpper(word) | ((word >> 7) & 0x1f)
  }

  function Or4(a: bv32, b: bv32, c: bv32, d: bv32): bv32 {
    a | b | c | d
  }

  function BSign(word: bv32): bv32 {
    ShiftRight(word & 0x80000000, 19)
  }

  function B10To5(word: bv32): bv32 {
    (word & 0x7e000000) >> 20
  }

  function B4To1(word: bv32): bv32 {
    (word & 0x00000f00) >> 7
  }

  function B11(word: bv32): bv32 {
    (word & 0x00000080) << 4
  }

  function GetImmB(word: bv32): bv32 {
    Or4(BSign(word), B10To5(word), B4To1(word), B11(word))
  }

  function GetImmU(word: bv32): bv32 {
    ShiftRight(word, 12) << 12
  }

  function JSign(word: bv32): bv32 {
    ShiftRight(word & 0x80000000, 11)
  }

  function J10To1(word: bv32): bv32 {
    (word & 0x7fe00000) >> 20
  }

  function J11(word: bv32): bv32 {
    (word & 0x00100000) >> 9
  }

  function J19To12(word: bv32): bv32 {
    word & 0x000ff000
  }

  function GetImmJ(word: bv32): bv32 {
    Or4(JSign(word), J10To1(word), J11(word), J19To12(word))
  }

  // ----- the fields of each format

  lemma FieldsR(funct7: bv7, rs2: bv5, rs1: bv5, funct3: bv3, rd: bv5, opcode: bv7)
    ensures var w := FormatR(funct7, rs2, rs1, funct3, rd, opcode);
            && GetOpcode(w) == opcode && GetRd(w) == rd && GetFunct3(w) == funct3
            && GetRs2(w) == rs2 && GetShamt(w) == rs2 && GetFunct7(w) == funct7
            && GetRs1(w) == LowFour(rs1) && (GetRs1(w) == rs1 <==> rs1 < 16)
  {
  }

  lemma FieldsI(imm: bv12, rs1: bv5, funct3: bv3, rd: bv5, opcode: bv7)
    ensures var w := FormatI(imm, rs1, funct3, rd, opcode);
            && GetOpcode(w) == opcode && GetRd(w) == rd && GetFunct3(w) == funct3
            && GetImmI(w) == SignExtend12(imm)
            && GetRs1(w) == LowFour(rs1) && (GetRs1(w) == rs1 <==> rs1 < 16)
  {
  }

  lemma FieldsS(imm: bv12, rs2: bv5, rs1: bv5, funct3: bv3, opcode: bv7)
    ensures var w := FormatS(imm, rs2, rs1, funct3, opcode);
            && GetOpcode(w) == opcode && GetFunct3(w) == funct3 && GetRs2(w) == rs2
            && GetRs1(w) == LowFour(rs1) && (GetRs1(w) == rs1 <==> rs1 < 16)
  {
  }

  lemma ImmediateS(imm: bv12, rs2: bv5, rs1: bv5, funct3: bv3, opcode: bv7)
    ensures GetImmS(FormatS(imm, rs2, rs1, funct3, opcode)) == SignExtend12(imm)
  {
    var w := FormatS(imm, rs2, rs1, funct3, opcode);
    if imm & 0x800 != 0 {
      SUpperNegative(imm, rs2, rs1, funct3, opcode);
    } else {
      SUpperPositive(imm, rs2, rs1, funct3, opcode);
    }
    assert (w >> 7) & 0x1f == imm as bv32 & 0x1f;
    hide FormatS, SUpper;
  }

  lemma SUpperNegative(imm: bv12, rs2: bv5, rs1: bv5, funct3: bv3, opcode: bv7)
    requires imm & 0x800 != 0
    ensures SUpper(FormatS(imm, rs2, rs1, funct3, opcode)) == 0xffff_f000 | (imm as bv32 & 0xfe0)
  {
  }

  lemma SUpperPositive(imm: bv12, rs2: bv5, rs1: bv5, funct3: bv3, opcode: bv7)
    requires imm & 0x800 == 0
    ensures SUpper(FormatS(imm, rs2, rs1, funct3, opcode)) == imm as bv32 & 0xfe0
  {
  }

  lemma FieldsB(imm: bv13, rs2: bv5, rs1: bv5, funct3: bv3, opcode: bv7)
    ensures var w := FormatB(imm, rs2, rs1, funct3, opcode);
            && GetOpcode(w) == opcode && GetFunct3(w) == funct3 && GetRs2(w) == rs2
            && GetRs1(w) == LowFour(rs1) && (GetRs1(w) == rs1 <==> rs1 < 16)
  {
  }

  lemma BranchPieces(imm: bv13, rs2: bv5, rs1: bv5, funct3: bv3, opcode: bv7)
    ensures var w := FormatB(imm, rs2, rs1, funct3, opcode);
            && B10To5(w) == imm as bv32 & 0x7e0 && B4To1(w) == imm as bv32 & 0x1e && B11(w) == imm as bv32 & 0x800
  {
  }

  lemma BranchSign(imm: bv13, rs2: bv5, rs1: bv5, funct3: bv3, opcode: bv7)
    ensures BSign(FormatB(imm, rs2, rs1, funct3, opcode)) == if imm & 0x1000 != 0 then 0xffff_f000 else 0
  {
    if imm & 0x1000 != 0 {
    } else {
    }
  }

  lemma BranchJoined(imm: bv13)
    ensures Or4(if imm & 0x1000 != 0 then 0xffff_f000 else 0, imm as bv32 & 0x7e0, imm as bv32 & 0x1e,
                imm as bv32 & 0x800) == SignExtend13(imm & 0x1ffe)
  {
    if imm & 0x1000 != 0 {
    } else {
    }
  }

  lemma BranchOffset(imm: bv13, rs2: bv5, rs1: bv5, funct3: bv3, opcode: bv7)
    ensures GetImmB(FormatB(imm, rs2, rs1, funct3, opcode)) == SignExtend13(imm & 0x1ffe)
  {
    hide FormatB, SignExtend13, Or4, BSign, B10To5, B4To1, B11;
    BranchPieces(imm, rs2, rs1, funct3, opcode);
    BranchSign(imm, rs2, rs1, funct3, opcode);
    BranchJoined(imm);
  }

  lemma EvenBranchOffset(imm: bv13)
    ensures SignExtend13(imm & 0x1ffe) == SignExtend13(imm) <==> imm & 1 == 0
  {
  }

  /** A branch offset is a multiple of two; its lowest bit is not encoded. */
  lemma ImmediateB(imm: bv13, rs2: bv5, rs1: bv5, funct3: bv3, opcode: bv7)
    ensures GetImmB(FormatB(imm, rs2, rs1, funct3, opcode)) == SignExtend13(imm) <==> imm & 1 == 0
  {
    hide GetImmB, FormatB, SignExtend13;
    BranchOffset(imm, rs2, rs1, funct3, opcode);
    EvenBranchOffset(imm);
  }

  lemma FieldsU(imm: bv20, rd: bv5, opcode: bv7)
    ensures var w := FormatU(imm, rd, opcode); GetOpcode(w) == opcode && GetRd(w) == rd
  {
  }

  lemma ImmediateU(imm: bv20, rd: bv5, opcode: bv7)
    ensures GetImmU(FormatU(imm, rd, opcode)) == UpperImmediate(imm)
  {
    hide GetImmU, FormatU, UpperImmediate;
    UpperPart(FormatU(imm, rd, opcode));
    UpperOfFormatU(imm, rd, opcode);
  }

  lemma UpperOfFormatU(imm: bv20, rd: bv5, opcode: bv7)
    ensures FormatU(imm, rd, opcode) & 0xffff_f000 == UpperImmediate(imm)
  {
    hide UpperImmediate;
    UpperHasNoLowBits(imm);
    UpperBits(UpperImmediate(imm), rd, opcode);
  }

  lemma UpperHasNoLowBits(imm: bv20)
    ensures UpperImmediate(imm) & 0xfff == 0
  {
  }

  lemma UpperBits(u: bv32, rd: bv5, opcode: bv7)
    requires u & 0xfff == 0
    ensures (u | (rd as bv32 << 7) | (opcode as bv32)) & 0xffff_f000 == u
  {
  }

  lemma UpperPart(w: bv32)
    ensures GetImmU(w) == w & 0xffff_f000
  {
    hide GetImmU;
    if w & 0x8000_0000 != 0 {
      UpperNegative(w);
    } else {
      UpperPositive(w);
    }
  }

  lemma UpperNegative(w: bv32)
    requires w & 0x8000_0000 != 0
    ensures GetImmU(w) == w & 0xffff_f000
  {
    ClearedNegative(w);
  }

  lemma ClearedNegative(w: bv32)
    ensures (!(!w >> 12)) << 12 == w & 0xffff_f000
  {
  }

  lemma UpperPositive(w: bv32)
    requires w & 0x8000_0000 == 0
    ensures GetImmU(w) == w & 0xffff_f000
  {
    ClearedPositive(w);
  }

  lemma ClearedPositive(w: bv32)
    ensures (w >> 12) << 12 == w & 0xffff_f000
  {
  }

  lemma FieldsJ(imm: bv21, rd: bv5, opcode: bv7)
    ensures var w := FormatJ(imm, rd, opcode); GetOpcode(w) == opcode && GetRd(w) == rd
  {
  }

  lemma JumpPieces(imm: bv21, rd: bv5, opcode: bv7)
    ensures var w := FormatJ(imm, rd, opcode);
            && J10To1(w) == imm as bv32 & 0x7fe && J11(w) == imm as bv32 & 0x800 && J19To12(w) == imm as bv32 & 0xff000
  {
  }

  lemma JumpSign(imm: bv21, rd: bv5, opcode: bv7)
    ensures JSign(FormatJ(imm, rd, opcode)) == if imm & 0x10_0000 != 0 then 0xfff0_0000 else 0
  {
    if imm & 0x10_0000 != 0 {
    } else {
    }
  }

  lemma NegativeJump(x: bv32)
    requires x & 0x10_0000 != 0
    ensures 0xfff0_0000 | (x & 0x7fe) | (x & 0x800) | (x & 0xff000) == 0xffe0_0000 | (x & 0x1f_fffe)
  {
  }

  lemma PositiveJump(x: bv32)
    requires x & 0x10_0000 == 0
    ensures 0 | (x & 0x7fe) | (x & 0x800) | (x & 0xff000) == x & 0x1f_fffe
  {
  }

  lemma WidenedJump(imm: bv21)
    ensures (imm & 0x1f_fffe) as bv32 == imm as bv32 & 0x1f_fffe
    ensures imm & 0x10_0000 != 0 <==> imm as bv32 & 0x10_0000 != 0
    ensures imm & 0x10_0000 != 0 <==> (imm & 0x1f_fffe) & 0x10_0000 != 0
  {
  }

  lemma JumpJoined(imm: bv21)
    ensures Or4(if imm & 0x10_0000 != 0 then 0xfff0_0000 else 0, imm as bv32 & 0x7fe, imm as bv32 & 0x800,
                imm as bv32 & 0xff000) == SignExtend21(imm & 0x1f_fffe)
  {
    WidenedJump(imm);
    if imm & 0x10_0000 != 0 {
      NegativeJump(imm as bv32);
    } else {
      PositiveJump(imm as bv32);
    }
  }

  lemma JumpOffset(imm: bv21, rd: bv5, opcode: bv7)
    ensures GetImmJ(FormatJ(imm, rd, opcode)) == SignExtend21(imm & 0x1f_fffe)
  {
    hide FormatJ, SignExtend21, Or4, JSign, J10To1, J11, J19To12;
    JumpPieces(imm, rd, opcode);
    JumpSign(imm, rd, opcode);
    JumpJoined(imm);
  }

  lemma EvenJumpOffset(imm: bv21)
    ensures SignExtend21(imm & 0x1f_fffe) == SignExtend21(imm) <==> imm & 1 == 0
  {
    if imm & 1 == 0 {
      assert imm & 0x1f_fffe == imm;
    } else {
      JumpLowBit(imm);
      JumpLowBit(imm & 0x1f_fffe);
      hide SignExtend21;
      assert (imm & 0x1f_fffe) & 1 == 0;
    }
  }

  lemma JumpLowBit(imm: bv21)
    ensures SignExtend21(imm) & 1 == (imm & 1) as bv32
  {
  }

  /** A jump offset is a multiple of two; its lowest bit is not encoded. */
  lemma ImmediateJ(imm: bv21, rd: bv5, opcode: bv7)
    ensures GetImmJ(FormatJ(imm, rd, opcode)) == SignExtend21(imm) <==> imm & 1 == 0
  {
    hide GetImmJ, FormatJ, SignExtend21;
    JumpOffset(imm, rd, opcode);
    EvenJumpOffset(imm);
  }

  // ----- the fields of each instruction

  function OpcodeOf(i: Instr): bv7 {
    match i
    case Lui(_, _) => LUI
    case Auipc(_, _) => AUIPC
    case Jal(_, _) => JAL
    case Jalr(_, _, _) => JALR
    case Branch(_, _, _, _) => BRANCH
    case Load(_, _, _, _) => LOAD
    case Store(_, _, _, _) => STORE
    case Op(_, _, _, _) => OP
    case OpImm(_, _, _, _) => OP_IMM
    case ShiftImm(_, _, _, _) => OP_IMM
    case ShiftReg(_, _, _, _) => OP
  }

  /** Decoding an encoded instruction gives its fields back; the first source register only below x16. */
  lemma DecodeEncoded(i: Instr)
    requires Legal(i)
    ensures var w := Encode(i);
            && GetOpcode(w) == OpcodeOf(i)
            && (HasRd(i) ==> GetRd(w) == i.rd)
            && (HasRs1(i) ==> GetRs1(w) == LowFour(i.rs1) && (GetRs1(w) == i.rs1 <==> i.rs1 < 16))
            && (i.Lui? || i.Auipc? ==> GetImmU(w) == UpperImmediate(i.imm20))
            && (i.Jal? ==> GetImmJ(w) == SignExtend21(i.offset21))
            && (i.Jalr? ==> GetImmI(w) == SignExtend12(i.imm12))
            && (i.Branch? ==> GetRs2(w) == i.rs2 && GetFunct3(w) == CondCode(i.cond) && GetImmB(w) == SignExtend13(i.offset13))
            && (i.Load? ==> GetFunct3(w) == WidthCode(i.width) && GetImmI(w) == SignExtend12(i.imm12))
            && (i.Store? ==> GetRs2(w) == i.rs2 && GetFunct3(w) == StoreCode(i.storeWidth) && GetImmS(w) == SignExtend12(i.imm12))
            && (i.Op? ==> GetRs2(w) == i.rs2 && GetFunct3(w) == AluCode(i.op) && GetFunct7(w) == if i.op == SUB then 32 else 0)
            && (i.OpImm? ==> GetFunct3(w) == AluCode(i.op) && GetImmI(w) == SignExtend12(i.imm12))
            && (i.ShiftImm? ==> GetShamt(w) == i.shamt && GetFunct3(w) == ShiftCode(i.shift)
                                && GetFunct7(w) == if i.shift == SRA then 32 else 0)
            && (i.ShiftReg? ==> GetRs2(w) == i.rs2 && GetFunct3(w) == ShiftCode(i.shift)
                                && GetFunct7(w) == if i.shift == SRA then 32 else 0)
  {
    hide LowFour, GetOpcode, GetRd, GetRs1, GetRs2, GetFunct3, GetFunct7, GetShamt, GetImmI, GetImmS, GetImmB, GetImmU, GetImmJ;
    hide FormatR, FormatI, FormatS, FormatB, FormatU, FormatJ, SignExtend12, SignExtend13, SignExtend21;
    hide UpperImmediate, AluCode, WidthCode, StoreCode, CondCode, ShiftCode;
    match i
    case Lui(rd, imm) =>
      FieldsU(imm, rd, LUI);
      ImmediateU(imm, rd, LUI);
    case Auipc(rd, imm) =>
      FieldsU(imm, rd, AUIPC);
      ImmediateU(imm, rd, AUIPC);
    case Jal(rd, offset) =>
      FieldsJ(offset, rd, JAL);
      ImmediateJ(offset, rd, JAL);
    case Jalr(rd, rs1, imm) => FieldsI(imm, rs1, 0, rd, JALR);
    case Branch(c, rs1, rs2, offset) =>
      FieldsB(offset, rs2, rs1, CondCode(c), BRANCH);
      ImmediateB(offset, rs2, rs1, CondCode(c), BRANCH);
    case Load(w, rd, rs1, imm) => FieldsI(imm, rs1, WidthCode(w), rd, LOAD);
    case Store(w, rs1, rs2, imm) =>
      FieldsS(imm, rs2, rs1, StoreCode(w), STORE);
      ImmediateS(imm, rs2, rs1, StoreCode(w), STORE);
    case Op(op, rd, rs1, rs2) => FieldsR(if op == SUB then 32 else 0, rs2, rs1, AluCode(op), rd, OP);
    case OpImm(op, rd, rs1, imm) => FieldsI(imm, rs1, AluCode(op), rd, OP_IMM);
    case ShiftImm(op, rd, rs1, shamt) => FieldsR(if op == SRA then 32 else 0, shamt, rs1, ShiftCode(op), rd, OP_IMM);
    case ShiftReg(op, rd, rs1, rs2) => FieldsR(if op == SRA then 32 else 0, rs2, rs1, ShiftCode(op), rd, OP);
  }
}
