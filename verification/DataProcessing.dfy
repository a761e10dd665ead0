/** arm_data_processing.c: the data-processing instructions, from operand to written state. */
module DataProcessing {
  import opened Words
  import opened ArmConstants
  import opened StatusFlags
  import opened Shifter
  import opened Util
  import opened Registers
  import opened ArmCore

  // ---- What one instruction does to a state -------------------------------

  predicate IsTest(opcode: byte) {
    8 <= opcode <= 11
  }

  /** Table A3-2, modulo 2^32. */
  function Alu(opcode: byte, rn: word, sop: word, c: bool): word {
    match opcode
    case 0 | 8 => BAnd(rn, sop)
    case 1 | 9 => BXor(rn, sop)
    case 2 | 10 => Wrap(rn - sop)
    case 3 => Wrap(sop - rn)
    case 4 | 11 => Wrap(rn + sop)
    case 5 => Wrap(rn + sop + ToInt(c))
    case 6 => Wrap(rn - sop - (1 - ToInt(c)))
    case 7 => Wrap(sop - rn - (1 - ToInt(c)))
    case 12 => BOr(rn, sop)
    case 13 => sop
    case 14 => BAnd(rn, BNot(sop))
    case _ => BNot(sop)
  }

  /** One digit of a logical operation. */
  predicate LogicalDigit(opcode: byte, p: bool, q: bool) {
    match opcode
    case 0 | 8 => p && q
    case 1 | 9 => p != q
    case 12 => p || q
    case 13 => q
    case 14 => p && !q
    case _ => !q
  }

  /** A result whose every digit is that of the operation. */
  ghost predicate ActsOnDigits(opcode: byte, rn: word, sop: word, res: word) {
    forall i :: 0 <= i < 32 ==> Bit(res, i) == LogicalDigit(opcode, Bit(rn, i), Bit(sop, i))
  }

  /** The logical operations, digit by digit. */
  lemma LogicalDigits(opcode: byte, rn: word, sop: word, c: bool)
    requires IsLogical(opcode)
    ensures ActsOnDigits(opcode, rn, sop, Alu(opcode, rn, sop, c))
  {
    forall i | 0 <= i < 32
      ensures Bit(Alu(opcode, rn, sop, c), i) == LogicalDigit(opcode, Bit(rn, i), Bit(sop, i))
    {
      BitOfAnd(rn, sop, i);
      BitOfXor(rn, sop, i);
      BitOfOr(rn, sop, i);
      BitOfNot(sop, i);
      BitOfAnd(rn, BNot(sop), i);
    }
  }

  /** The same opcode by opcode, the tests included. */
  lemma AluDigits(rn: word, sop: word, c: bool, i: nat)
    requires i < 32
    ensures Bit(Alu(0, rn, sop, c), i) == Bit(Alu(8, rn, sop, c), i) == (Bit(rn, i) && Bit(sop, i))
    ensures Bit(Alu(1, rn, sop, c), i) == Bit(Alu(9, rn, sop, c), i) == (Bit(rn, i) != Bit(sop, i))
    ensures Bit(Alu(12, rn, sop, c), i) == (Bit(rn, i) || Bit(sop, i))
    ensures Bit(Alu(13, rn, sop, c), i) == Bit(sop, i)
    ensures Bit(Alu(14, rn, sop, c), i) == (Bit(rn, i) && !Bit(sop, i))
    ensures Bit(Alu(15, rn, sop, c), i) == !Bit(sop, i)
  {
    BitOfAnd(rn, sop, i);
    BitOfXor(rn, sop, i);
    BitOfOr(rn, sop, i);
    BitOfNot(sop, i);
    BitOfAnd(rn, BNot(sop), i);
  }

  function FlagsOfState(s: State): Flags {
    FlagsIn(s.regs[CPSR])
  }

  predicate Passes(s: State, ins: word) {
    CondPassed(CondField(ins), FlagsOfState(s))
  }

  /** The result of an instruction's operation in a state. */
  function ResultOf(s: State, ins: word, sop: word): word {
    Alu(OpcodeField(ins), CoreRead(s.regs, RnField(ins)), sop, FlagsOfState(s).c)
  }

  /** The status word after a flag-setting instruction. */
  function StatusOf(s: State, ins: word, sop: word, sco: byte): word {
    WithFlags(s.regs[CPSR],
              FlagsOf(OpcodeField(ins), CoreRead(s.regs, RnField(ins)), sop, ResultOf(s, ins, sop), sco,
                      FlagsOfState(s)))
  }

  predicate HasSpsr(mode: nat) {
    mode != USR && mode != SYS
  }

  datatype Outcome = Outcome(state: State, status: int)

  function Executed(s: State, ins: word, sop: word, sco: byte): Outcome {
    var opcode, rd := OpcodeField(ins), RdField(ins);
    var written := if IsTest(opcode) then s else s.(regs := WriteReg(s.regs, rd, ResultOf(s, ins, sop)));
    if !Passes(s, ins) then Outcome(s, 0)
    else if !IsTest(opcode) && SField(ins) == 1 && rd == PC then
      // the direction of this copy is the code's; the manual restores the CPSR instead
      if HasSpsr(Mode(s.regs)) then Outcome(written.(regs := SpsrSet(written.regs, s.regs[CPSR])), 0)
      else Outcome(written, UNDEFINED_INSTRUCTION)
    else if SField(ins) == 1 || IsTest(opcode) then
      Outcome(written.(regs := written.regs[CPSR := StatusOf(s, ins, sop, sco)]), 0)
    else Outcome(written, 0)
  }

  /** The operand of a register-form instruction. */
  function RegisterOperand(s: State, ins: word): Shifted {
    var rm, kind, c := CoreRead(s.regs, ins % 16), ins / 0x20 % 4, ToInt(FlagsOfState(s).c);
    if ins / 0x10 % 2 == 1 then ShifterOperand(REG, kind, CoreRead(s.regs, ins / 0x100 % 16), rm, c)
    else ShifterOperand(IMM, kind, ins / 0x80 % 32, rm, c)
  }

  /** The operand of an immediate-form instruction. */
  function ImmediateOperand(s: State, ins: word): Shifted {
    var imm, sop := ins % 0x100, Ror(ins % 0x100, ins / 0x100 % 16 * 2);
    Shifted(sop, if imm != 0 then ToInt(Top(sop)) else ToInt(FlagsOfState(s).c))
  }

  function AfterShiftForm(s: State, ins: word): Outcome {
    var operand := RegisterOperand(s, ins);
    Executed(s, ins, operand.sop, operand.sco)
  }

  function AfterImmediateForm(s: State, ins: word): Outcome {
    var operand := ImmediateOperand(s, ins);
    Executed(s, ins, operand.sop, operand.sco)
  }

  // ---- The handlers -------------------------------------------------------

  lemma OperandFields(ins: word)
    ensures GetBits(ins, 3, 0) == ins % 16 && GetBits(ins, 6, 5) == ins / 0x20 % 4
    ensures GetBit(ins, 4) == ins / 0x10 % 2 && GetBits(ins, 11, 8) == ins / 0x100 % 16
    ensures GetBits(ins, 11, 7) == ins / 0x80 % 32 && GetBits(ins, 7, 0) == ins % 0x100
  {
    LowPowers();
    assert Pow2(0) == 1;
    BitDivision(ins, 4);
  }

  /** The carry chains of the source wrap twice; once is the same. */
  function AddWithCarry(x: word, y: word, carry: byte): (r: word)
    ensures r == Wrap(x + y + carry)
  {
    Wrap(Wrap(x + y) + carry)
  }

  function SubtractWithBorrow(x: word, y: word, borrow: byte): (r: word)
    ensures r == Wrap(x - y - borrow)
  {
    Wrap(Wrap(x - y) - borrow)
  }

  /** arm_data_processing.c:39-68, with the fall-through of the test opcodes written out. */
  method ComputeResult(rf: RegFields, carry: byte) returns (res: word, x: int)
    requires rf.opcode < 16 && carry <= 1
    ensures res == Alu(rf.opcode, rf.RnVal, rf.Sop, carry == 1)
    ensures IsLogical(rf.opcode) ==> ActsOnDigits(rf.opcode, rf.RnVal, rf.Sop, res)
    ensures x == if IsTest(rf.opcode) then 1 else 0
  {
    x := 0;
    if rf.opcode == 8 || rf.opcode == 0 {
      if rf.opcode == 8 { x := 1; }
      res := BAnd(rf.RnVal, rf.Sop);
    } else if rf.opcode == 9 || rf.opcode == 1 {
      if rf.opcode == 9 { x := 1; }
      res := BXor(rf.RnVal, rf.Sop);
    } else if rf.opcode == 10 || rf.opcode == 2 {
      if rf.opcode == 10 { x := 1; }
      res := Wrap(rf.RnVal - rf.Sop);
    } else if rf.opcode == 3 {
      res := Wrap(rf.Sop - rf.RnVal);
    } else if rf.opcode == 11 || rf.opcode == 4 {
      if rf.opcode == 11 { x := 1; }
      res := Wrap(rf.RnVal + rf.Sop);
    } else if rf.opcode == 5 {
      res := AddWithCarry(rf.RnVal, rf.Sop, carry);
    } else if rf.opcode == 6 {
      res := SubtractWithBorrow(rf.RnVal, rf.Sop, ToInt(carry == 0));
    } else if rf.opcode == 7 {
      res := SubtractWithBorrow(rf.Sop, rf.RnVal, ToInt(carry == 0));
    } else if rf.opcode == 12 {
      res := BOr(rf.RnVal, rf.Sop);
    } else if rf.opcode == 13 {
      res := rf.Sop;
    } else if rf.opcode == 14 {
      res := BAnd(rf.RnVal, BNot(rf.Sop));
    } else {
      res := BNot(rf.Sop);
    }
    if IsLogical(rf.opcode) {
      LogicalDigits(rf.opcode, rf.RnVal, rf.Sop, carry == 1);
    }
  }

  /** arm_data_processing.c:30-79 */
  method ExecuteIns(p: Core, ins: word, sop: word, sco: byte) returns (status: int)
    requires p.Valid()
    modifies p.reg.regNumber, p.util
    ensures p.Valid() && Outcome(p.View(), status) == Executed(old(p.View()), ins, sop, sco)
  {
    ghost var s := p.View();
    FieldRanges(ins);
    var rf := ExtractDataProcFields(ins, RegFields(0, 0, 0, 0, 0, 0, 0), sop);
    var rn := p.ReadRegister(rf.Rn);
    rf := rf.(RnVal := rn);
    var pass := p.util.CondValid(rf.cond, p.reg.ReadCpsr());
    if pass != 0 {
      CarryBit(p.reg.ReadCpsr());
      var res, x := ComputeResult(rf, GetBit(p.reg.ReadCpsr(), C));
      if x == 0 {
        p.reg.WriteRegister(rf.Rd, res);
      }
      assert p.View().regs[CPSR] == s.regs[CPSR] by { LowRegistersKeepCpsr(s.regs, rf.Rd, res); }
      if x == 0 && rf.S != 0 && rf.Rd == 15 {
        if p.reg.CurrentModeHasSpsr() {
          p.reg.WriteSpsr(p.reg.ReadCpsr());
        } else {
          return UNDEFINED_INSTRUCTION;
        }
      } else if rf.S != 0 || x != 0 {
        var cpsr := UpdateFlags(p.reg.ReadCpsr(), rf, res, sco);
        p.reg.WriteCpsr(cpsr);
      }
    }
    return 0;
  }

  /** Writing r0 to r15 never reaches the status register. */
  lemma LowRegistersKeepCpsr(regs: RegArray, rd: byte, v: word)
    requires rd <= 15
    ensures WriteReg(regs, rd, v)[CPSR] == regs[CPSR]
  {
  }

  /** arm_data_processing.c:82-101 */
  method DataProcessingShift(p: Core, ins: word) returns (status: int)
    requires p.Valid()
    modifies p.reg.regNumber, p.util
    ensures p.Valid() && Outcome(p.View(), status) == AfterShiftForm(old(p.View()), ins)
  {
    OperandFields(ins);
    CarryBit(p.reg.ReadCpsr());
    var valRm := p.ReadRegister(GetBits(ins, 3, 0));
    var shift, bit4 := GetBits(ins, 6, 5), GetBit(ins, 4);
    var data, sop, sco;
    if bit4 != 0 {
      data := p.ReadRegister(GetBits(ins, 11, 8));
      sop, sco := DoShift(data, valRm, shift, REG, GetBit(p.reg.ReadCpsr(), C));
    } else {
      data := GetBits(ins, 11, 7);
      sop, sco := DoShift(data, valRm, shift, IMM, GetBit(p.reg.ReadCpsr(), C));
    }
    status := ExecuteIns(p, ins, sop, sco);
  }

  /** arm_data_processing.c:103-115 */
  method DataProcessingImmediate(p: Core, ins: word) returns (status: int)
    requires p.Valid()
    modifies p.reg.regNumber, p.util
    ensures p.Valid() && Outcome(p.View(), status) == AfterImmediateForm(old(p.View()), ins)
  {
    OperandFields(ins);
    CarryBit(p.reg.ReadCpsr());
    var rotImm, imm := GetBits(ins, 11, 8), GetBits(ins, 7, 0);
    var sop := Ror(imm, rotImm * 2);
    SignBit(sop);
    var sco := if imm != 0 then GetBit(sop, 31) else GetBit(p.reg.ReadCpsr(), C);
    status := ExecuteIns(p, ins, sop, sco);
  }
}
