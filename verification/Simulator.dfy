/**
 The interpreter loop of A5/src/simulate.c. The C code keeps x0 in the register array like any other
 register and clears it at the start of every step, so between steps it may hold something else.
*/
module Simulator {
  import opened PagedMemory
  import opened Rv32
  import opened WordValues
  import opened Decode
  import opened Departures

  /** Exited: an unaligned access ended the program. Unknown: an instruction outside the model. */
  datatype Status = Running | Exited | Unknown

  // ----- narrowing and widening as the C types do it

  /** int8_t byte = x; (int32_t) byte */
  function AsSignedByte(x: bv32): bv32 {
    SignExtendByte((x & 0xff) as bv8)
  }

  /** int16_t halfword = x; (int32_t) halfword */
  function AsSignedHalf(x: bv32): bv32 {
    SignExtendHalf(x & 0xffff)
  }

  /** uint8_t u_byte = x; */
  function AsUnsignedByte(x: bv32): bv32 {
    x & 0xff
  }

  /** uint16_t u_halfword = x; */
  function AsUnsignedHalf(x: bv32): bv32 {
    x & 0xffff
  }

  lemma NarrowLoads(b0: bv8, b1: bv8)
    ensures AsSignedByte(Unsigned(b0)) == SignExtendByte(b0) && AsUnsignedByte(Unsigned(b0)) == Unsigned(b0)
    ensures AsSignedHalf(Half(b0, b1)) == SignExtendHalf(Half(b0, b1)) && AsUnsignedHalf(Half(b0, b1)) == Half(b0, b1)
  {
  }

  lemma NarrowByte(v: bv32)
    ensures Byte(AsSignedByte(v), 0) == Byte(v, 0)
  {
  }

  lemma NarrowHalf(v: bv32)
    ensures Byte(AsSignedHalf(v), 0) == Byte(v, 0) && Byte(AsSignedHalf(v), 1) == Byte(v, 1)
  {
    if v & 0x8000 != 0 {
      NarrowHalfNegative(v);
    } else {
      NarrowHalfPositive(v);
    }
  }

  lemma NarrowHalfNegative(v: bv32)
    requires v & 0x8000 != 0
    ensures Byte(AsSignedHalf(v), 0) == Byte(v, 0) && Byte(AsSignedHalf(v), 1) == Byte(v, 1)
  {
  }

  lemma NarrowHalfPositive(v: bv32)
    requires v & 0x8000 == 0
    ensures Byte(AsSignedHalf(v), 0) == Byte(v, 0) && Byte(AsSignedHalf(v), 1) == Byte(v, 1)
  {
  }

  // ----- the machine

  class Simulation {
    var rg: array<bv32>
    var PC: bv32
    const mem: Memory

    ghost predicate Valid()
      reads this, mem, mem.repr
    {
      && rg.Length == 32 && mem.Valid() && this !in mem.repr && rg !in mem.repr
    }

    /** The architectural state: x0 reads as zero whatever its slot holds. */
    ghost function View(): Machine
      requires rg.Length == 32
      reads this, rg, mem
    {
      Machine([0] + rg[1..], PC, mem.flat)
    }

    /** memset clears the first 32 bytes, which is eight registers; the others hold anything. */
    constructor (memory: Memory, startAddr: bv32)
      requires memory.Valid()
      ensures Valid() && fresh(rg) && mem == memory && PC == startAddr
      ensures forall r :: 0 <= r < 8 ==> rg[r] == 0
    {
      mem := memory;
      PC := startAddr;
      var registers := new bv32[32];
      rg := registers;
      new;
      for r := 0 to 8
        invariant Valid() && fresh(rg) && PC == startAddr && forall q :: 0 <= q < r ==> rg[q] == 0
      {
        rg[r] := 0;
      }
    }

    method SetRegister(rd: bv5, value: bv32)
      requires Valid() && rg[0] == 0
      modifies rg
      ensures Valid() && View() == Write(old(View()), rd, value) && rg[0] == SlotWith(rd, value)
    {
      rg[Index(rd)] := value;
    }

    lemma Reads(r: bv5)
      requires Valid() && rg[0] == 0
      ensures rg[Index(r)] == Read(View(), r)
    {
    }

    /** The conditions in the switch of type_B. */
    static method Decide(funct3: bv3, x: bv32, y: bv32) returns (known: bool, taken: bool)
      ensures forall c :: CondCode(c) == funct3 ==> known && taken == Rv32.Taken(c, x, y)
    {
      hide SignedLess, Less, Int, Unsigned32;
      SignedOrder(x, y);
      Order(x, y);
      if funct3 == 0 {
        return true, x == y;
      } else if funct3 == 1 {
        return true, x != y;
      } else if funct3 == 4 {
        return true, SignedLess(x, y);
      } else if funct3 == 5 {
        return true, !SignedLess(x, y);
      } else if funct3 == 6 {
        return true, Less(x, y);
      } else if funct3 == 7 {
        return true, !Less(x, y);
      } else {
        return false, false;
      }
    }

    method TypeB(word: bv32)
      requires Valid() && rg[0] == 0
      modifies `PC
      ensures Valid()
      ensures forall c :: CondCode(c) == GetFunct3(word) ==>
        View() == if Rv32.Taken(c, Read(old(View()), GetRs1(word)), Read(old(View()), GetRs2(word)))
                  then old(View()).(pc := Add(old(PC), GetImmB(word))) else Next(old(View()))
    {
      hide GetImmB, GetRs1, GetRs2, GetFunct3, Index, Add, Rv32.Taken, CondCode;
      Reads(GetRs1(word));
      Reads(GetRs2(word));
      var imm := GetImmB(word);
      var known, taken := Decide(GetFunct3(word), rg[Index(GetRs1(word))], rg[Index(GetRs2(word))]);
      if known {
        PC := if taken then Add(PC, imm) else Add(PC, 4);
      }
    }

    /** The switch of type_R; known is false for a shift that is undefined in C. */
    static method ResultR(funct3: bv3, funct7: bv7, x: bv32, y: bv32) returns (known: bool, value: bv32)
      ensures forall op :: AluCode(op) == funct3 && (op.SUB? ==> funct7 != 0) && (op.ADD? ==> funct7 == 0) ==>
        known && value == Alu(op, x, y)
      ensures forall op :: ShiftCode(op) == funct3 && (op.SRL? ==> funct7 == 0) && (op.SRA? ==> funct7 != 0) ==>
        (known <==> InRange(y)) && (known ==> value == Shift(Signed(op), x, LowFive(y)))
    {
      hide SignedLess, Add, Sub, Xor, Or, And, Less, Shift, LowFive, InRange, Int, Unsigned32;
      SignedOrder(x, y);
      Order(x, y);
      if funct3 == 0 {
        return true, if funct7 == 0 then Add(x, y) else Sub(x, y);
      } else if funct3 == 1 {
        return InRange(y), Shift(SLL, x, LowFive(y));
      } else if funct3 == 2 {
        return true, if SignedLess(x, y) then 1 else 0;
      } else if funct3 == 3 {
        return true, if Less(x, y) then 1 else 0;
      } else if funct3 == 4 {
        return true, Xor(x, y);
      } else if funct3 == 5 {
        return InRange(y), if funct7 == 0 then Shift(SRA, x, LowFive(y)) else Shift(SRA, x, LowFive(y));
      } else if funct3 == 6 {
        return true, Or(x, y);
      } else {
        return true, And(x, y);
      }
    }

    method TypeR(word: bv32) returns (known: bool)
      requires Valid() && rg[0] == 0
      modifies rg, `PC
      ensures Valid()
      ensures forall op | AluCode(op) == GetFunct3(word) && (op.SUB? ==> GetFunct7(word) != 0) && (op.ADD? ==> GetFunct7(word) == 0) ::
        var value := Alu(op, Read(old(View()), GetRs1(word)), Read(old(View()), GetRs2(word)));
        known && View() == Next(Write(old(View()), GetRd(word), value)) && rg[0] == SlotWith(GetRd(word), value)
      ensures forall op | ShiftCode(op) == GetFunct3(word) && (op.SRL? ==> GetFunct7(word) == 0) && (op.SRA? ==> GetFunct7(word) != 0) ::
        var y := Read(old(View()), GetRs2(word));
        var value := Shift(Signed(op), Read(old(View()), GetRs1(word)), LowFive(y));
        && (known <==> InRange(y))
        && (known ==> View() == Next(Write(old(View()), GetRd(word), value)) && rg[0] == SlotWith(GetRd(word), value))
    {
      hide GetRd, GetRs1, GetRs2, GetFunct3, GetFunct7, Index, Alu, AluCode, Add, Shift, ShiftCode, LowFive, InRange, Signed, SlotWith;
      Reads(GetRs1(word));
      Reads(GetRs2(word));
      var value;
      known, value := ResultR(GetFunct3(word), GetFunct7(word), rg[Index(GetRs1(word))], rg[Index(GetRs2(word))]);
      if known {
        SetRegister(GetRd(word), value);
        PC := Add(PC, 4);
      }
    }

    /** The switch of type_I2. */
    static method ResultI2(funct3: bv3, funct7: bv7, x: bv32, imm: bv32, shamt: bv5) returns (value: bv32)
      ensures forall op :: AluCode(op) == funct3 && !op.SUB? ==> value == Alu(op, x, imm)
      ensures forall op :: ShiftCode(op) == funct3 && (op.SRL? ==> funct7 == 0) && (op.SRA? ==> funct7 != 0) ==>
        value == Shift(Signed(op), x, shamt)
    {
      hide SignedLess, Add, Sub, Xor, Or, And, Less, Shift, Int, Unsigned32;
      SignedOrder(x, imm);
      Order(x, imm);
      if funct3 == 0 {
        value := Add(x, imm);
      } else if funct3 == 2 {
        value := if SignedLess(x, imm) then 1 else 0;
      } else if funct3 == 3 {
        value := if Less(x, imm) then 1 else 0;
      } else if funct3 == 4 {
        value := Xor(x, imm);
      } else if funct3 == 6 {
        value := Or(x, imm);
      } else if funct3 == 7 {
        value := And(x, imm);
      } else if funct3 == 1 {
        value := Shift(SLL, x, shamt);
      } else if funct7 == 0 {
        value := Shift(SRA, x, shamt);
      } else {
        value := Shift(SRA, x, shamt);
      }
    }

    method TypeI2(word: bv32)
      requires Valid() && rg[0] == 0
      modifies rg, `PC
      ensures Valid()
      ensures forall op | AluCode(op) == GetFunct3(word) && !op.SUB? ::
        var value := Alu(op, Read(old(View()), GetRs1(word)), GetImmI(word));
        View() == Next(Write(old(View()), GetRd(word), value)) && rg[0] == SlotWith(GetRd(word), value)
      ensures forall op | ShiftCode(op) == GetFunct3(word) && (op.SRL? ==> GetFunct7(word) == 0) && (op.SRA? ==> GetFunct7(word) != 0) ::
        var value := Shift(Signed(op), Read(old(View()), GetRs1(word)), GetShamt(word));
        View() == Next(Write(old(View()), GetRd(word), value)) && rg[0] == SlotWith(GetRd(word), value)
    {
      hide GetRd, GetRs1, GetFunct3, GetFunct7, GetImmI, GetShamt, Index, Alu, AluCode, ShiftCode, Shift, Add, Signed, SlotWith;
      Reads(GetRs1(word));
      var value := ResultI2(GetFunct3(word), GetFunct7(word), rg[Index(GetRs1(word))], GetImmI(word), GetShamt(word));
      SetRegister(GetRd(word), value);
      PC := Add(PC, 4);
    }

    ghost function Target(rs1: bv5, imm: bv32): (a: int)
      requires rg.Length == 32
      reads this, rg, mem
      ensures 0 <= a < SPACE && a % SPACE == a
    {
      Unsigned32(Add(Read(View(), rs1), imm))
    }

    /** The switch of type_I; ok is false when the address is not aligned and the program exits. */
    method Load(funct3: bv3, address: int) returns (ok: bool, known: bool, value: bv32)
      requires Valid() && 0 <= address < SPACE
      modifies mem.repr, mem`repr
      ensures Valid() && fresh(mem.repr - old(mem.repr)) && View() == old(View()) && rg[0] == old(rg[0])
      ensures forall w | WidthCode(w) == funct3 ::
        && known && (ok <==> address % Size(w) == 0)
        && (ok ==> value == Loaded(w, mem.flat, address))
    {
      hide AsSignedByte, AsSignedHalf, AsUnsignedByte, AsUnsignedHalf, SignExtendByte, SignExtendHalf, Unsigned, Half, Word;
      ok, known := true, true;
      if funct3 == 0 || funct3 == 4 {
        var byte := mem.RdB(address);
        NarrowLoads(mem.flat[address], 0);
        value := if funct3 == 0 then AsSignedByte(byte) else AsUnsignedByte(byte);
      } else if funct3 == 1 || funct3 == 5 {
        var halfword;
        ok, halfword := mem.RdH(address);
        if ok {
          NarrowLoads(mem.flat[address], mem.flat[address + 1]);
        }
        value := if funct3 == 1 then AsSignedHalf(halfword) else AsUnsignedHalf(halfword);
      } else if funct3 == 2 {
        ok, value := mem.RdW(address);
      } else {
        known, value := false, 0;
      }
    }

    method TypeI(word: bv32) returns (ok: bool)
      requires Valid() && rg[0] == 0
      modifies rg, `PC, mem.repr, mem`repr
      ensures Valid() && fresh(mem.repr - old(mem.repr))
      ensures forall w | WidthCode(w) == GetFunct3(word) ::
        var a := old(Target(GetRs1(word), GetImmI(word)));
        && (ok <==> a % Size(w) == 0)
        && (ok ==>
             var value := Loaded(w, old(View()).mem, a);
             View() == Next(Write(old(View()), GetRd(word), value)) && rg[0] == SlotWith(GetRd(word), value))
    {
      hide GetRd, GetRs1, GetFunct3, GetImmI, Index, Add, WidthCode, Loaded, Unsigned32, SlotWith;
      Reads(GetRs1(word));
      var address := Unsigned32(Add(rg[Index(GetRs1(word))], GetImmI(word)));
      assert address == Target(GetRs1(word), GetImmI(word));
      var known, value;
      ok, known, value := Load(GetFunct3(word), address);
      if ok && known {
        SetRegister(GetRd(word), value);
        PC := Add(PC, 4);
      }
    }

    /** Stores. */
    method TypeS(word: bv32) returns (ok: bool)
      requires Valid() && rg[0] == 0
      modifies `PC, mem.repr, mem`repr, mem`flat
      ensures Valid() && fresh(mem.repr - old(mem.repr))
      ensures forall w | StoreCode(w) == GetFunct3(word) ::
        var a := old(Target(GetRs1(word), GetImmS(word)));
        && (ok <==> a % StoreSize(w) == 0)
        && (ok ==> View() == Next(old(View()).(mem := Rv32.Stored(w, old(View()).mem, a, Read(old(View()), GetRs2(word))))))
    {
      hide GetRs1, GetRs2, GetFunct3, GetImmS, Index, Add, Unsigned32;
      hide AsSignedByte, AsSignedHalf, Byte;
      Reads(GetRs1(word));
      Reads(GetRs2(word));
      var address := Unsigned32(Add(rg[Index(GetRs1(word))], GetImmS(word)));
      assert address == Target(GetRs1(word), GetImmS(word));
      var data := rg[Index(GetRs2(word))];
      NarrowByte(data);
      NarrowHalf(data);
      var funct3 := GetFunct3(word);
      ok := true;
      if funct3 == 0 {
        mem.WrB(address, AsSignedByte(data));
      } else if funct3 == 1 {
        ok := mem.WrH(address, AsSignedHalf(data));
      } else if funct3 == 2 {
        ok := mem.WrW(address, data);
      } else {
        return true;
      }
      if ok {
        PC := Add(PC, 4);
      }
    }

    method Upper(word: bv32)
      requires Valid() && rg[0] == 0 && (GetOpcode(word) == LUI || GetOpcode(word) == AUIPC || GetOpcode(word) == JAL)
      modifies rg, `PC
      ensures Valid()
      ensures var s, rd := old(View()), GetRd(word);
              var value := if GetOpcode(word) == LUI then GetImmU(word)
                           else Add(s.pc, if GetOpcode(word) == AUIPC then GetImmU(word) else 4);
              && View() == Write(s, rd, value).(pc := Add(s.pc, if GetOpcode(word) == JAL then GetImmJ(word) else 4))
              && rg[0] == SlotWith(rd, value)
    {
      hide GetOpcode, GetRd, GetImmU, GetImmJ, Add, Index, SlotWith;
      var opcode, rd := GetOpcode(word), GetRd(word);
      if opcode == LUI {
        SetRegister(rd, GetImmU(word));
        PC := Add(PC, 4);
      } else if opcode == AUIPC {
        SetRegister(rd, Add(PC, GetImmU(word)));
        PC := Add(PC, 4);
      } else {
        SetRegister(rd, Add(PC, 4));
        PC := Add(PC, GetImmJ(word));
      }
    }

    /** rgRs1 is what the source register held before x0 was cleared. */
    method JumpRegister(word: bv32, rgRs1: bv32)
      requires Valid() && rg[0] == 0
      modifies rg, `PC
      ensures Valid()
      ensures View() == Write(old(View()), GetRd(word), Add(old(PC), 4)).(pc := Add(rgRs1, GetImmI(word)))
      ensures rg[0] == SlotWith(GetRd(word), Add(old(PC), 4))
    {
      hide GetRd, GetImmI, Add, Index, SlotWith;
      SetRegister(GetRd(word), Add(PC, 4));
      PC := Add(rgRs1, GetImmI(word));
    }

    /** i ends the program if its address is not aligned, and else has the effect of the code for it. */
    static ghost predicate Does(i: Instr, s: Machine, status: Status, after: Machine, slot: bv32)
      requires WellFormed(s)
    {
      if Aligned(Performed(i), s) then status == Running && after == Exec(Performed(i), s) && slot == SlotAfter(i, s)
      else status == Exited
    }

    /** A branch. */
    method BranchStep(word: bv32, ghost i: Instr) returns (status: Status)
      requires Valid() && rg[0] == 0
      modifies `PC
      ensures Valid()
      ensures word == Encode(i) && Legal(i) && old(Defined(i, View())) && (i.Branch?) ==>
        Does(i, old(View()), status, View(), rg[0])
    {
      hide GetOpcode, GetRd, GetRs1, GetRs2, GetFunct3, GetFunct7, GetShamt, GetImmI, GetImmS, GetImmB, Encode;
      hide Loaded, Rv32.Stored, Alu, Shift, Rv32.Taken, Add, Unsigned32, Index, SignExtend12, SignExtend13, LowFour, LowFive;
      hide AluCode, WidthCode, StoreCode, CondCode, ShiftCode, SlotWith, InRange;
      if Legal(i) {
        DecodeEncoded(i);
      }
      TypeB(word);
      status := Running;
    }

    static lemma OpDone(i: Instr, s: Machine, after: Machine, slot: bv32)
      requires WellFormed(s) && i.Op?
      requires var value := Alu(i.op, Read(s, LowFour(i.rs1)), Read(s, i.rs2));
               after == Next(Write(s, i.rd, value)) && slot == SlotWith(i.rd, value)
      ensures Does(i, s, Running, after, slot)
    {
      hide Alu, Read, Write, LowFour, SlotWith;
    }

    static lemma ShiftDone(i: Instr, s: Machine, after: Machine, slot: bv32)
      requires WellFormed(s) && i.ShiftReg?
      requires var value := Shift(Signed(i.shift), Read(s, LowFour(i.rs1)), LowFive(Read(s, i.rs2)));
               after == Next(Write(s, i.rd, value)) && slot == SlotWith(i.rd, value)
      ensures Does(i, s, Running, after, slot)
    {
      hide Shift, Read, Write, LowFour, LowFive, SlotWith, Signed;
    }

    /** An operation on two registers. */
    method RegisterStep(word: bv32, ghost i: Instr) returns (status: Status)
      requires Valid() && rg[0] == 0
      modifies rg, `PC
      ensures Valid()
      ensures word == Encode(i) && Legal(i) && old(Defined(i, View())) && (i.Op? || i.ShiftReg?) ==>
        Does(i, old(View()), status, View(), rg[0])
    {
      hide GetOpcode, GetRd, GetRs1, GetRs2, GetFunct3, GetFunct7, GetShamt, GetImmI, GetImmS, GetImmB, Encode;
      hide Alu, Shift, Index, LowFour, LowFive, AluCode, ShiftCode, SlotWith, InRange, Signed, Read, Write, Does;
      ghost var s := View();
      var funct7 := GetFunct7(word);
      if funct7 == 0 || funct7 == 32 {
        var known := TypeR(word);
        status := if known then Running else Unknown;
      } else {
        status := Unknown;
      }
      if word == Encode(i) && Legal(i) && Defined(i, s) {
        if i.Op? {
          DecodeEncoded(i);
          assert GetFunct3(word) == AluCode(i.op);
          OpDone(i, s, View(), rg[0]);
        } else if i.ShiftReg? {
          DecodeEncoded(i);
          assert GetFunct3(word) == ShiftCode(i.shift);
          ShiftDone(i, s, View(), rg[0]);
        }
      }
    }

    /** An operation with an immediate. */
    method ImmediateStep(word: bv32, ghost i: Instr) returns (status: Status)
      requires Valid() && rg[0] == 0
      modifies rg, `PC
      ensures Valid()
      ensures word == Encode(i) && Legal(i) && old(Defined(i, View())) && (i.OpImm? || i.ShiftImm?) ==>
        Does(i, old(View()), status, View(), rg[0])
    {
      hide GetOpcode, GetRd, GetRs1, GetRs2, GetFunct3, GetFunct7, GetShamt, GetImmI, GetImmS, GetImmB, Encode;
      hide Loaded, Rv32.Stored, Alu, Shift, Rv32.Taken, Add, Unsigned32, Index, SignExtend12, SignExtend13, LowFour, LowFive;
      hide AluCode, WidthCode, StoreCode, CondCode, ShiftCode, SlotWith, InRange;
      if Legal(i) {
        DecodeEncoded(i);
      }
      TypeI2(word);
      status := Running;
    }

    /** A load. */
    method LoadStep(word: bv32, ghost i: Instr) returns (status: Status)
      requires Valid() && rg[0] == 0
      modifies rg, `PC, mem.repr, mem`repr
      ensures Valid() && fresh(mem.repr - old(mem.repr))
      ensures word == Encode(i) && Legal(i) && old(Defined(i, View())) && (i.Load?) ==>
        Does(i, old(View()), status, View(), rg[0])
    {
      hide GetOpcode, GetRd, GetRs1, GetRs2, GetFunct3, GetFunct7, GetShamt, GetImmI, GetImmS, GetImmB, Encode;
      hide Loaded, Rv32.Stored, Alu, Shift, Rv32.Taken, Add, Unsigned32, Index, SignExtend12, SignExtend13, LowFour, LowFive;
      hide AluCode, WidthCode, StoreCode, CondCode, ShiftCode, SlotWith, InRange;
      if Legal(i) {
        DecodeEncoded(i);
      }
      var ok := TypeI(word);
      status := if ok then Running else Exited;
    }

    /** A store. */
    method StoreStep(word: bv32, ghost i: Instr) returns (status: Status)
      requires Valid() && rg[0] == 0
      modifies `PC, mem.repr, mem`repr, mem`flat
      ensures Valid() && fresh(mem.repr - old(mem.repr))
      ensures word == Encode(i) && Legal(i) && old(Defined(i, View())) && (i.Store?) ==>
        Does(i, old(View()), status, View(), rg[0])
    {
      hide GetOpcode, GetRd, GetRs1, GetRs2, GetFunct3, GetFunct7, GetShamt, GetImmI, GetImmS, GetImmB, Encode;
      hide Loaded, Rv32.Stored, Alu, Shift, Rv32.Taken, Add, Unsigned32, Index, SignExtend12, SignExtend13, LowFour, LowFive;
      hide AluCode, WidthCode, StoreCode, CondCode, ShiftCode, SlotWith, InRange;
      if Legal(i) {
        DecodeEncoded(i);
      }
      var ok := TypeS(word);
      status := if ok then Running else Exited;
    }

    /** Branches, arithmetic, loads and stores. */
    method Typed(word: bv32, ghost i: Instr) returns (status: Status)
      requires Valid() && rg[0] == 0
      modifies rg, `PC, mem.repr, mem`repr, mem`flat
      ensures Valid() && fresh(mem.repr - old(mem.repr))
      ensures word == Encode(i) && Legal(i) && old(Defined(i, View())) && !i.Lui? && !i.Auipc? && !i.Jal? && !i.Jalr? ==>
        Does(i, old(View()), status, View(), rg[0])
    {
      hide GetOpcode, Encode, Legal, Defined, Does;
      if word == Encode(i) && Legal(i) {
        EncodedOpcode(i);
      }
      var opcode := GetOpcode(word);
      if opcode == BRANCH {
        status := BranchStep(word, i);
      } else if opcode == OP {
        status := RegisterStep(word, i);
      } else if opcode == LOAD {
        status := LoadStep(word, i);
      } else if opcode == OP_IMM {
        status := ImmediateStep(word, i);
      } else if opcode == STORE {
        status := StoreStep(word, i);
      } else {
        status := Unknown;
      }
    }

    method Fetch(ghost i: Instr) returns (ok: bool, word: bv32)
      requires Valid()
      modifies mem.repr, mem`repr
      ensures Valid() && fresh(mem.repr - old(mem.repr)) && View() == old(View())
      ensures old(Fetches(View(), i)) ==> ok && word == Encode(i)
    {
      hide Encode, Loaded, Word, Unsigned32;
      ok, word := mem.RdW(Unsigned32(PC));
      if ok {
        LoadedWord(mem.flat, Unsigned32(PC));
      }
    }

    /** The switch of the loop, after the slot of x0 was cleared; rgRs1 was read before. */
    method Execute(word: bv32, rgRs1: bv32, ghost i: Instr, ghost slot: bv32) returns (status: Status)
      requires Valid() && rg[0] == 0
      requires rgRs1 == if Index(GetRs1(word)) == 0 then slot else Read(View(), GetRs1(word))
      modifies rg, `PC, mem.repr, mem`repr, mem`flat
      ensures Valid() && fresh(mem.repr - old(mem.repr))
      ensures word == Encode(i) && Legal(i) && old(Defined(i, View())) ==>
        Behaves(i, old(View()), slot, status, View(), rg[0])
    {
      hide GetOpcode, GetRs1, GetRd, GetImmI, GetImmU, GetImmJ, Encode, Index, Legal, Defined, Add, SlotWith, Read;
      hide UpperImmediate, SignExtend12, SignExtend21, LowFour, Exec, Coded, SlotAfter, Performed, Aligned, Write;
      ghost var s := View();
      if word == Encode(i) && Legal(i) {
        DecodeEncoded(i);
      }
      var opcode := GetOpcode(word);
      status := Running;
      if opcode == LUI || opcode == AUIPC || opcode == JAL {
        Upper(word);
        if word == Encode(i) && Legal(i) {
          CodedUpper(i, s, slot);
        }
      } else if opcode == JALR {
        JumpRegister(word, rgRs1);
        if word == Encode(i) && Legal(i) {
          CodedJump(i, s, slot);
        }
      } else {
        status := Typed(word, i);
        if Aligned(Performed(i), s) && !i.Jalr? {
          CodedTyped(i, s, slot);
        }
      }
    }

    /** What the code does in place of i: its effect, or the end of the program if its address is not aligned. */
    static ghost predicate Behaves(i: Instr, s: Machine, slot: bv32, status: Status, after: Machine, slot': bv32)
      requires WellFormed(s)
    {
      if Aligned(Performed(i), s) then status == Running && after == Coded(i, s, slot) && slot' == SlotAfter(i, s)
      else status == Exited
    }

    /**
     One pass of the loop. If i is the instruction at PC, the pass does what the code does in place of i, and
     ends the program exactly if the address it computes is not aligned.
    */
    method Step(ghost i: Instr) returns (status: Status)
      requires Valid()
      modifies rg, `PC, mem.repr, mem`repr, mem`flat
      ensures Valid() && fresh(mem.repr - old(mem.repr))
      ensures old(Fetches(View(), i) && Legal(i) && Defined(i, View())) ==>
        Behaves(i, old(View()), old(rg[0]), status, View(), rg[0])
    {
      hide GetRs1, Encode, Legal, Fetches, Defined, Behaves;
      ghost var s, slot := View(), rg[0];
      var ok, word := Fetch(i);
      if !ok {
        return Exited;
      }
      var rgRs1 := rg[Index(GetRs1(word))];
      rg[0] := 0;
      assert View() == s;
      status := Execute(word, rgRs1, i, slot);
    }
  }

  // ----- whole runs

  /** Every instruction of the trace is the one at pc when its turn comes, and is supported there. */
  ghost predicate Traces(s: Machine, slot: bv32, trace: seq<Instr>)
    requires WellFormed(s)
    decreases |trace|
  {
    trace == [] ||
    (Fetches(s, trace[0]) && Supported(trace[0], s, slot)
     && (ExecWellFormed(trace[0], s);
         CodedExact(trace[0], s, slot);
         Traces(Exec(trace[0], s), SlotAfter(trace[0], s), trace[1..])))
  }

  ghost function ExecAll(s: Machine, slot: bv32, trace: seq<Instr>): Machine
    requires WellFormed(s) && Traces(s, slot, trace)
    decreases |trace|
  {
    if trace == [] then s
    else
      ExecWellFormed(trace[0], s);
      CodedExact(trace[0], s, slot);
      ExecAll(Exec(trace[0], s), SlotAfter(trace[0], s), trace[1..])
  }

  /** As long as the executed instructions are supported, the loop and RV32I agree step for step. */
  method Simulate(sim: Simulation, steps: nat, ghost trace: seq<Instr>) returns (status: Status)
    requires sim.Valid() && |trace| == steps
    modifies sim.rg, sim`PC, sim.mem.repr, sim.mem`repr, sim.mem`flat
    ensures sim.Valid()
    ensures old(Traces(sim.View(), sim.rg[0], trace)) ==>
      status == Running && sim.View() == old(ExecAll(sim.View(), sim.rg[0], trace))
  {
    hide Fetches, Supported, Exec, Coded, SlotAfter, Legal, Defined;
    ghost var s, slot := sim.View(), sim.rg[0];
    status := Running;
    for k := 0 to steps
      invariant sim.Valid() && fresh(sim.mem.repr - old(sim.mem.repr)) && sim.rg == old(sim.rg)
      invariant Traces(s, slot, trace) ==>
        status == Running && Traces(sim.View(), sim.rg[0], trace[k..])
        && ExecAll(sim.View(), sim.rg[0], trace[k..]) == ExecAll(s, slot, trace)
    {
      assert trace[k..][0] == trace[k] && trace[k..][1..] == trace[k + 1..];
      if Supported(trace[k], sim.View(), sim.rg[0]) {
        CodedExact(trace[k], sim.View(), sim.rg[0]);
      }
      status := sim.Step(trace[k]);
      if status != Running {
        break;
      }
    }
    assert trace[steps..] == [];
  }

  /** A run of RV32I alone: every instruction is the one at pc when its turn comes, and is ordinary there. */
  ghost predicate OrdinaryRun(s: Machine, trace: seq<Instr>)
    requires WellFormed(s)
    decreases |trace|
  {
    trace == [] ||
    (Fetches(s, trace[0]) && Ordinary(trace[0], s)
     && (ExecWellFormed(trace[0], s);
         OrdinaryRun(Exec(trace[0], s), trace[1..])))
  }

  ghost function RunIsa(s: Machine, trace: seq<Instr>): Machine
    requires WellFormed(s) && OrdinaryRun(s, trace)
    decreases |trace|
  {
    if trace == [] then s
    else
      ExecWellFormed(trace[0], s);
      RunIsa(Exec(trace[0], s), trace[1..])
  }

  /** Runs one after the other are one run. */
  lemma {:induction false} RunsJoined(s: Machine, first: seq<Instr>, second: seq<Instr>)
    requires WellFormed(s)
    ensures OrdinaryRun(s, first + second) ==> OrdinaryRun(s, first)
    ensures OrdinaryRun(s, first) ==>
      var middle := RunIsa(s, first);
      && WellFormed(middle)
      && (OrdinaryRun(s, first + second) <==> OrdinaryRun(middle, second))
      && (OrdinaryRun(s, first + second) ==> RunIsa(s, first + second) == RunIsa(middle, second))
    decreases |first|
  {
    hide Fetches, Ordinary, Exec, Aligned;
    if first == [] {
      assert first + second == second;
    } else {
      assert (first + second)[0] == first[0] && (first + second)[1..] == first[1..] + second;
      if Ordinary(first[0], s) {
        OrdinaryAligned(first[0], s);
        ExecWellFormed(first[0], s);
        RunsJoined(Exec(first[0], s), first[1..], second);
      }
    }
  }

  /** No instructions change nothing, and a run of one instruction is that instruction where it is fetched. */
  lemma OneInstruction(s: Machine, i: Instr)
    requires WellFormed(s)
    ensures OrdinaryRun(s, []) && RunIsa(s, []) == s
    ensures OrdinaryRun(s, [i]) <==> Fetches(s, i) && Ordinary(i, s)
    ensures OrdinaryRun(s, [i]) ==> RunIsa(s, [i]) == Exec(i, s)
  {
    hide Fetches, Exec;
    assert [i][1..] == [];
  }

  lemma OrdinaryAligned(i: Instr, s: Machine)
    requires WellFormed(s) && Ordinary(i, s)
    ensures Aligned(i, s)
  {
  }

  /** Whatever the slot of x0 holds at its start, a run of ordinary instructions is one that the loop follows. */
  lemma {:induction false} OrdinaryTraces(s: Machine, slot: bv32, trace: seq<Instr>)
    requires WellFormed(s) && OrdinaryRun(s, trace)
    ensures Traces(s, slot, trace) && ExecAll(s, slot, trace) == RunIsa(s, trace)
    decreases |trace|
  {
    hide Fetches, Ordinary, Supported, Exec, Coded, SlotAfter, Legal, Defined, Aligned, Performed;
    if trace != [] {
      OrdinarySupported(trace[0], s, slot);
      CodedExact(trace[0], s, slot);
      ExecWellFormed(trace[0], s);
      OrdinaryTraces(Exec(trace[0], s), SlotAfter(trace[0], s), trace[1..]);
    }
  }

  lemma EncodedOpcode(i: Instr)
    requires Legal(i)
    ensures GetOpcode(Encode(i)) == OpcodeOf(i)
  {
    hide GetOpcode, Encode;
    DecodeEncoded(i);
  }

  /**
   addi x0, x0, 4 and then jalr x1, 0(x0): the value written to x0 is still in its slot when the jump reads
   it, so the code goes to 4 where the ISA goes to 0.
  */
  method StaleX0(sim: Simulation)
    requires sim.Valid()
    requires Fetches(sim.View(), OpImm(ADD, 0, 0, 4)) && Fetches(Next(sim.View()), Jalr(1, 0, 0))
    modifies sim.rg, sim`PC, sim.mem.repr, sim.mem`repr, sim.mem`flat
    ensures sim.Valid() && sim.PC == 4
    ensures var s := Exec(OpImm(ADD, 0, 0, 4), old(sim.View()));
            WellFormed(s) && Exec(Jalr(1, 0, 0), s).pc == 0
  {
    ghost var s := sim.View();
    StaleX0Isa(s, sim.rg[0]);
    hide Fetches, Exec, Coded, SlotAfter;
    var _ := sim.Step(OpImm(ADD, 0, 0, 4));
    assert sim.View() == Next(s) && sim.rg[0] == 4;
    var _ := sim.Step(Jalr(1, 0, 0));
  }

  lemma StaleX0Isa(s: Machine, slot: bv32)
    requires WellFormed(s)
    ensures Coded(OpImm(ADD, 0, 0, 4), s, slot) == Exec(OpImm(ADD, 0, 0, 4), s) == Next(s)
    ensures SlotAfter(OpImm(ADD, 0, 0, 4), s) == 4
    ensures Coded(Jalr(1, 0, 0), Next(s), 4).pc == 4 && Exec(Jalr(1, 0, 0), Next(s)).pc == 0
  {
    assert LowFour(0) == 0 && SignExtend12(4) == 4 && SignExtend12(0) == 0;
    assert Add(0, 4) == 4 && Add(4, 0) == 4 && Add(0, 0) == 0 && ClearLowest(0) == 0;
  }
}
