/** arm_instruction.c and arm_branch: dispatch of data processing and branches, and the step. */
module Instruction {
  import opened Words
  import opened ArmConstants
  import opened StatusFlags
  import opened Util
  import opened Registers
  import opened ArmCore
  import opened DataProcessing

  // ---- What one instruction does to a state -------------------------------

  /** Class 000 without the load/store pattern, and class 001. */
  predicate IsDataProcessing(ins: word) {
    ClassField(ins) == 1 || (ClassField(ins) == 0 && !(ins / 0x10 % 2 == 1 && ins / 0x80 % 2 == 1))
  }

  predicate IsBranch(ins: word) {
    ClassField(ins) == 5
  }

  predicate Modelled(ins: word) {
    IsDataProcessing(ins) || IsBranch(ins)
  }

  /** Section A4.1.5; a branch whose condition fails reports an undefined instruction. */
  function AfterBranch(s: State, ins: word): Outcome {
    if !Passes(s, ins) then Outcome(s, UNDEFINED_INSTRUCTION)
    else
      var view := CoreRead(s.regs, PC);
      var linked := if ins / 0x100_0000 % 2 == 1 then WriteReg(s.regs, LR, Wrap(view - 4)) else s.regs;
      Outcome(s.(regs := WriteReg(linked, PC, Wrap(view + 4 * Signed24(ins % 0x100_0000)))), 0)
  }

  function Perform(s: State, ins: word): Outcome
    requires Modelled(ins)
  {
    if ClassField(ins) == 0 then AfterShiftForm(s, ins)
    else if ClassField(ins) == 1 then AfterImmediateForm(s, ins)
    else AfterBranch(s, ins)
  }

  predicate CanStep(s: State) {
    CanFetch(s) && Modelled(FetchedWord(s))
  }

  function Step(s: State): Outcome
    requires CanStep(s)
  {
    Perform(AfterFetch(s), FetchedWord(s))
  }

  // ---- The handlers -------------------------------------------------------

  lemma BranchFields(ins: word)
    ensures GetBits(ins, 23, 0) == ins % 0x100_0000 && GetBit(ins, 24) == ins / 0x100_0000 % 2
  {
    LowPowers();
    assert Pow2(0) == 1;
    BitDivision(ins, 24);
  }

  lemma WriteLrKeepsPc(regs: RegArray, v: word)
    ensures CoreRead(WriteReg(regs, LR, v), PC) == CoreRead(regs, PC)
  {
  }

  /** The sum on arm_branch_other.c:40. */
  method BranchTarget(view: word, t: word) returns (target: word)
    requires t < 0x100_0000
    ensures target == Wrap(view + 4 * Signed24(t))
  {
    JmpCalcValue(t);
    WrapOffset(view, 4 * Signed24(t));
    target := Wrap(view + JmpCalc(t, GetBit(t, 23)));
  }

  lemma WrapOffset(view: word, offset: int)
    ensures Wrap(view + Wrap(offset)) == Wrap(view + offset)
  {
  }

  /** The state with the return address in r14, and the state with the pc displaced. */
  function Linked(s: State): State {
    s.(regs := WriteReg(s.regs, LR, Wrap(CoreRead(s.regs, PC) - 4)))
  }

  function Displaced(s: State, offset: int): State {
    s.(regs := WriteReg(s.regs, PC, Wrap(CoreRead(s.regs, PC) + offset)))
  }

  lemma BranchInTwoParts(s: State, ins: word)
    requires Passes(s, ins)
    ensures AfterBranch(s, ins) ==
            Outcome(Displaced(if ins / 0x100_0000 % 2 == 1 then Linked(s) else s, 4 * Signed24(ins % 0x100_0000)), 0)
  {
    WriteLrKeepsPc(s.regs, Wrap(CoreRead(s.regs, PC) - 4));
  }

  /** arm_branch_other.c:38 */
  method SaveReturnAddress(p: Core)
    requires p.Valid()
    modifies p.reg.regNumber
    ensures p.Valid() && p.View() == Linked(old(p.View()))
  {
    var view: int := p.ReadRegister(PC);
    p.reg.WriteRegister(LR, Wrap(view - 4));
  }

  /** arm_branch_other.c:40 */
  method Jump(p: Core, jmpTarget: word)
    requires p.Valid() && jmpTarget < 0x100_0000
    modifies p.reg.regNumber
    ensures p.Valid() && p.View() == Displaced(old(p.View()), 4 * Signed24(jmpTarget))
  {
    var view := p.ReadRegister(PC);
    var target := BranchTarget(view, jmpTarget);
    p.reg.WriteRegister(PC, target);
  }

  /** arm_branch_other.c:30-45 */
  method Branch(p: Core, ins: word) returns (status: int)
    requires p.Valid()
    modifies p.reg.regNumber, p.util
    ensures p.Valid() && Outcome(p.View(), status) == AfterBranch(old(p.View()), ins)
  {
    FieldRanges(ins);
    BranchFields(ins);
    var cond, flagL, jmpTarget := GetBits(ins, 31, 28), GetBit(ins, 24), GetBits(ins, 23, 0);
    var pass := p.util.CondValid(cond, p.reg.ReadCpsr());
    if pass == 0 {
      return UNDEFINED_INSTRUCTION;
    }
    BranchInTwoParts(p.View(), ins);
    if flagL != 0 {
      SaveReturnAddress(p);
    }
    Jump(p, jmpTarget);
    return 0;
  }

  lemma DispatchFields(ins: word)
    ensures GetBits(ins, 27, 25) == ClassField(ins)
    ensures GetBit(ins, 4) == ins / 0x10 % 2 && GetBit(ins, 7) == ins / 0x80 % 2
  {
    LowPowers();
    FieldRanges(ins);
    BitDivision(ins, 4);
    BitDivision(ins, 7);
  }

  /** arm_instruction.c:31-69, for the modelled classes. */
  method ExecuteInstruction(p: Core) returns (status: int)
    requires p.Valid() && CanStep(p.View())
    modifies p`cycleCount, p.reg.regNumber, p.util
    ensures p.Valid() && Outcome(p.View(), status) == Step(old(p.View()))
  {
    var ins, result := p.Fetch();
    if result == 1 {
      assert false;
    }
    DispatchFields(ins);
    var cls, bit4, bit7 := GetBits(ins, 27, 25), GetBit(ins, 4), GetBit(ins, 7);
    if cls == 0 {
      if bit4 == 1 && bit7 == 1 {
        assert false; // arm_load_store
      } else {
        status := DataProcessingShift(p, ins);
      }
    } else if cls == 1 {
      status := DataProcessingImmediate(p, ins);
    } else {
      status := Branch(p, ins);
    }
  }

  /** No modelled instruction reports a reset. */
  lemma StatusIsNoReset(s: State, ins: word)
    requires Modelled(ins)
    ensures Perform(s, ins).status == 0 || Perform(s, ins).status == UNDEFINED_INSTRUCTION
  {
  }

  /** arm_instruction.c:71-78 */
  method ArmStep(p: Core) returns (result: int)
    requires p.Valid() && CanStep(p.View())
    modifies p`cycleCount, p.reg.regNumber, p.util
    ensures p.Valid() && Outcome(p.View(), result) == Step(old(p.View()))
  {
    StatusIsNoReset(AfterFetch(p.View()), FetchedWord(p.View()));
    result := ExecuteInstruction(p);
    if result != 0 {
      p.Exception(result);
    }
  }
}
