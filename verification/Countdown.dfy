/** The countdown loop: SUBS Rd,Rd,#1 repeated while NE holds. */
module Countdown {
  import opened Words
  import opened ArmConstants
  import opened RegisterRuns
  import opened StatusFlags
  import opened Util
  import opened Registers
  import opened ArmCore
  import opened DataProcessing
  import opened Conditions
  import opened DataLaws
  import opened Runs
  import opened Isolation

  /** The encoding of SUBS Rd,Rd,#1. */
  function SubsOne(rd: byte): word
    requires rd < 16
  {
    0xE250_0001 + rd * 0x1_1000
  }

  /** What its fields say. */
  predicate IsSubsOne(ins: word, rd: byte) {
    && CondField(ins) == 14 && ClassField(ins) == 1 && OpcodeField(ins) == 2 && SField(ins) == 1
    && RnField(ins) == rd && RdField(ins) == rd && ins % 0x1000 == 1
  }

  lemma SubsOneFields(rd: byte)
    requires rd < 16
    ensures IsSubsOne(SubsOne(rd), rd)
  {
    var ins := SubsOne(rd);
    var low := rd * 0x1_1000 + 1;
    DivUnique(ins, 0x1000, 0xE_2500 + rd * 0x11, 1);
    DivUnique(0xE_2500 + rd * 0x11, 16, 0xE250 + rd, rd);
    DivUnique(ins, 0x1_0000, 0xE250 + rd, rd * 0x1000 + 1);
    DivUnique(0xE250 + rd, 16, 0xE25, rd);
    DivUnique(ins, 0x10_0000, 0xE25, low);
    DivUnique(ins, 0x20_0000, 0x712, 0x10_0000 + low);
    DivUnique(ins, 0x200_0000, 0x71, 0x50_0000 + low);
    DivUnique(ins, 0x1000_0000, 0xE, 0x250_0000 + low);
  }

  /** An unrotated immediate is the operand, from any state. */
  lemma PlainOperand(s: State, ins: word, imm: byte)
    requires ins % 0x1000 == imm
    ensures ImmediateOperand(s, ins).sop == imm
  {
    FieldAgrees(ins, imm, 1, 0x100, 0x10, 0x1000);
    FieldAgrees(ins, imm, 0x100, 16, 1, 0x1000);
    assert ins % 0x100 == imm && ins / 0x100 % 16 == 0;
  }

  /** The number of times a loop that starts at n runs its body; one less is n - 1 modulo 2^32. */
  function Rounds(n: word): (r: nat)
    ensures 1 <= r <= 0x1_0000_0000 && Wrap(n - 1) == r - 1
  {
    if n == 0 then 0x1_0000_0000 else n
  }

  lemma SubsOneEffect(s: State, ins: word, rd: byte)
    requires IsSubsOne(ins, rd) && Holds(s.regs, rd)
    ensures var t := AfterImmediateForm(s, ins).state;
            && CoreRead(t.regs, rd) == Rounds(CoreRead(s.regs, rd)) - 1
            && (FlagsOfState(t).z <==> CoreRead(t.regs, rd) == 0)
            && Mode(t.regs) == Mode(s.regs)
  {
    var operand := ImmediateOperand(s, ins);
    PlainOperand(s, ins, 1);
    FlagsAfter(s, ins, operand.sop, operand.sco);
    ResultAfter(s, ins, operand.sop, operand.sco);
    ExecutedIsolates(s, ins, operand.sop, operand.sco);
  }

  /** One execution of the instruction, as a state change. */
  function SubsStep(rd: byte): State -> State
    requires rd < 16
  {
    (s: State) => AfterImmediateForm(s, SubsOne(rd)).state
  }

  lemma SubsStepEffect(s: State, rd: byte)
    requires Holds(s.regs, rd)
    ensures var t := SubsStep(rd)(s);
            && CoreRead(t.regs, rd) == Rounds(CoreRead(s.regs, rd)) - 1
            && (CondPassed(1, FlagsOfState(t)) <==> CoreRead(t.regs, rd) != 0)
            && Mode(t.regs) == Mode(s.regs)
  {
    SubsOneFields(rd);
    SubsOneEffect(s, SubsOne(rd), rd);
  }

  function ValueOf(rd: byte): State -> nat {
    (s: State) => CoreRead(s.regs, rd)
  }

  /** NE holds. */
  function NotEqual(): State -> bool {
    (s: State) => CondPassed(1, FlagsOfState(s))
  }

  function InMode(mode: nat): State -> bool {
    (s: State) => Mode(s.regs) == mode
  }

  lemma SubsStepLowers(s: State, rd: byte, mode: nat)
    requires rd < 16 && (Mode(s.regs) == mode ==> Holds(s.regs, rd))
    ensures LowersAt(ValueOf(rd), NotEqual(), InMode(mode), 0x1_0000_0000, SubsStep(rd), s)
  {
    if Mode(s.regs) == mode {
      var t := SubsStep(rd)(s);
      SubsStepEffect(s, rd);
      assert ValueOf(rd)(t) == Rounds(ValueOf(rd)(s)) - 1;
    }
  }

  /**
    The register counts down modulo 2^32, and NE fails for the first time after
    exactly n repeats from n >= 1 and 2^32 repeats from 0, with the register at zero.
   */
  lemma CountdownTerminates(s: State, rd: byte, k: nat)
    requires Holds(s.regs, rd)
    requires 1 <= k <= Rounds(CoreRead(s.regs, rd))
    ensures var t, rounds := Iterate(SubsStep(rd), s, k), Rounds(CoreRead(s.regs, rd));
            && CoreRead(t.regs, rd) == rounds - k
            && (CondPassed(1, FlagsOfState(t)) <==> k < rounds)
            && Mode(t.regs) == Mode(s.regs)
  {
    var mode := Mode(s.regs);
    forall x
      ensures LowersAt(ValueOf(rd), NotEqual(), InMode(mode), 0x1_0000_0000, SubsStep(rd), x)
    {
      SubsStepLowers(x, rd, mode);
    }
    CountsDown(ValueOf(rd), NotEqual(), InMode(mode), 0x1_0000_0000, SubsStep(rd), s, k);
  }

  // ---- Registers the mode cannot write ------------------------------------

  lemma LostResult(regs: RegArray, rd: byte, v: word, cpsr: word)
    requires rd < PC && !Holds(regs, rd) && cpsr % 32 == regs[CPSR] % 32
    ensures CoreRead(WriteReg(regs, rd, v)[CPSR := cpsr], rd) == CoreRead(regs, rd)
  {
    if NameOf(Mode(regs), rd).Some? {
      SlotsSeparate(NameOf(Mode(regs), rd).value, Cpsr);
    }
  }

  lemma LostStepEffect(s: State, rd: byte)
    requires rd < PC && !Holds(s.regs, rd)
    ensures var t := SubsStep(rd)(s);
            && CoreRead(t.regs, rd) == CoreRead(s.regs, rd)
            && (CondPassed(1, FlagsOfState(t)) <==> CoreRead(s.regs, rd) != 1)
            && Mode(t.regs) == Mode(s.regs)
  {
    var ins := SubsOne(rd);
    var operand := ImmediateOperand(s, ins);
    SubsOneFields(rd);
    PlainOperand(s, ins, 1);
    FlagsAfter(s, ins, operand.sop, operand.sco);
    ExecutedIsolates(s, ins, operand.sop, operand.sco);
    FlagsRoundTrip(s.regs[CPSR], FlagsOf(2, Rn(s, ins), 1, ResultOf(s, ins, 1), operand.sco, FlagsOfState(s)));
    LostResult(s.regs, rd, ResultOf(s, ins, 1), StatusOf(s, ins, 1, operand.sco));
    DifferenceIsZero(CoreRead(s.regs, rd), 1);
  }

  function IsNotOne(): nat -> bool {
    (v: nat) => v != 1
  }

  lemma LostStepStays(s: State, rd: byte, mode: nat)
    requires rd < PC && (Mode(s.regs) == mode ==> !Holds(s.regs, rd))
    ensures StaysAt(ValueOf(rd), NotEqual(), InMode(mode), IsNotOne(), SubsStep(rd), s)
  {
    if Mode(s.regs) == mode {
      LostStepEffect(s, rd);
    }
  }

  /**
    Where the result is lost, as for r8 to r12 in FIQ mode, no repeat changes the register:
    the loop ends after its first round if the register holds 1, and never otherwise.
   */
  lemma CountdownLost(s: State, rd: byte, k: nat)
    requires rd < PC && !Holds(s.regs, rd) && 1 <= k
    ensures var t := Iterate(SubsStep(rd), s, k);
            && CoreRead(t.regs, rd) == CoreRead(s.regs, rd)
            && (CondPassed(1, FlagsOfState(t)) <==> CoreRead(s.regs, rd) != 1)
  {
    var mode := Mode(s.regs);
    forall x
      ensures StaysAt(ValueOf(rd), NotEqual(), InMode(mode), IsNotOne(), SubsStep(rd), x)
    {
      LostStepStays(x, rd, mode);
    }
    NeverMoves(ValueOf(rd), NotEqual(), InMode(mode), IsNotOne(), SubsStep(rd), s, k);
  }
}
