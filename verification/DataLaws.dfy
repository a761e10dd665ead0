/** Laws over single data-processing instructions: conditions, immediates and duality. */
module DataLaws {
  import opened Words
  import opened ArmConstants
  import opened StatusFlags
  import opened Shifter
  import opened Util
  import opened Registers
  import opened ArmCore
  import opened DataProcessing
  import opened Instruction
  import opened Conditions

  // ---- Conditions ---------------------------------------------------------

  /** A field below a modulus depends on the number modulo it only. */
  lemma FieldAgrees(x: nat, y: nat, d: nat, m: nat, k: nat, w: nat)
    requires d > 0 && m > 0 && w == k * (m * d) && w > 0 && x % w == y % w
    ensures x / d % m == y / d % m
  {
    var j := x / w - y / w;
    assert x - y == j * w by {
      assert x == x / w * w + x % w && y == y / w * w + y % w;
      assert j * w == x / w * w - y / w * w;
    }
    var q, r, c := y / d, y % d, j * k;
    assert j * (k * (m * d)) == (c * m) * d;
    assert x == (q + c * m) * d + r by {
      assert (q + c * m) * d == q * d + (c * m) * d;
    }
    DivUnique(x, d, q + c * m, r);
    assert q + c * m == (q / m + c) * m + q % m by {
      assert (q / m + c) * m == q / m * m + c * m;
    }
    DivUnique(q + c * m, m, q / m + c, q % m);
  }

  /** Words that differ in the condition field only decode alike below it. */
  lemma SameFields(x: word, y: word)
    requires x % 0x1000_0000 == y % 0x1000_0000
    ensures ClassField(x) == ClassField(y) && OpcodeField(x) == OpcodeField(y) && SField(x) == SField(y)
    ensures RnField(x) == RnField(y) && RdField(x) == RdField(y) && x % 0x1000 == y % 0x1000
  {
    FieldAgrees(x, y, 0x200_0000, 8, 1, 0x1000_0000);
    FieldAgrees(x, y, 0x20_0000, 16, 8, 0x1000_0000);
    FieldAgrees(x, y, 0x10_0000, 2, 0x80, 0x1000_0000);
    FieldAgrees(x, y, 0x1_0000, 16, 0x100, 0x1000_0000);
    FieldAgrees(x, y, 0x1000, 16, 0x1000, 0x1000_0000);
    FieldAgrees(x, y, 1, 0x1000, 0x1_0000, 0x1000_0000);
  }

  lemma SameOperands(s: State, x: word, y: word)
    requires x % 0x1000 == y % 0x1000
    ensures RegisterOperand(s, x) == RegisterOperand(s, y) && ImmediateOperand(s, x) == ImmediateOperand(s, y)
  {
    FieldAgrees(x, y, 1, 16, 0x100, 0x1000);
    FieldAgrees(x, y, 1, 0x100, 0x10, 0x1000);
    FieldAgrees(x, y, 0x10, 2, 0x80, 0x1000);
    FieldAgrees(x, y, 0x20, 4, 0x20, 0x1000);
    FieldAgrees(x, y, 0x80, 32, 1, 0x1000);
    FieldAgrees(x, y, 0x100, 16, 1, 0x1000);
  }

  lemma SameKind(x: word, y: word)
    requires x % 0x1000_0000 == y % 0x1000_0000
    ensures IsDataProcessing(y) == IsDataProcessing(x) && IsBranch(y) == IsBranch(x)
  {
    SameFields(x, y);
    FieldAgrees(x, y, 0x10, 2, 0x80_0000, 0x1000_0000);
    FieldAgrees(x, y, 0x80, 2, 0x10_0000, 0x1000_0000);
  }

  lemma SameBranchFields(x: word, y: word)
    requires x % 0x1000_0000 == y % 0x1000_0000
    ensures x % 0x100_0000 == y % 0x100_0000 && x / 0x100_0000 % 2 == y / 0x100_0000 % 2
  {
    FieldAgrees(x, y, 1, 0x100_0000, 16, 0x1000_0000);
    FieldAgrees(x, y, 0x100_0000, 2, 8, 0x1000_0000);
  }

  lemma SameExecuted(s: State, x: word, y: word, sop: word, sco: byte)
    requires x % 0x1000_0000 == y % 0x1000_0000 && Passes(s, x) == Passes(s, y)
    ensures Executed(s, x, sop, sco) == Executed(s, y, sop, sco)
  {
    SameFields(x, y);
  }

  /** The condition field matters through its verdict only. */
  lemma OutcomeByVerdict(s: State, x: word, y: word)
    requires x % 0x1000_0000 == y % 0x1000_0000 && Modelled(x)
    requires Passes(s, x) == Passes(s, y)
    ensures Modelled(y) && Perform(s, x) == Perform(s, y)
  {
    SameKind(x, y);
    SameFields(x, y);
    if IsBranch(x) {
      SameBranchFields(x, y);
    } else {
      SameOperands(s, x, y);
      var operand := if ClassField(x) == 0 then RegisterOperand(s, x) else ImmediateOperand(s, x);
      SameExecuted(s, x, y, operand.sop, operand.sco);
    }
  }

  /** A word whose condition fails leaves the whole state; a branch reports it. */
  function Skipped(s: State, ins: word): Outcome {
    Outcome(s, if IsBranch(ins) then UNDEFINED_INSTRUCTION else 0)
  }

  lemma FailedConditionIsNop(s: State, ins: word)
    requires Modelled(ins) && !Passes(s, ins)
    ensures Perform(s, ins) == Skipped(s, ins)
  {
  }

  /** The word with condition bit 28 inverted. */
  function OtherOfPair(ins: word): word {
    if ins / 0x1000_0000 % 2 == 1 then ins - 0x1000_0000 else ins + 0x1000_0000
  }

  /** The word made unconditional. */
  function Always(ins: word): word {
    0xE000_0000 + ins % 0x1000_0000
  }

  lemma PairedWords(ins: word)
    requires CondField(ins) < 14
    ensures OtherOfPair(ins) % 0x1000_0000 == ins % 0x1000_0000 == Always(ins) % 0x1000_0000
    ensures CondField(Always(ins)) == 14 && CondField(OtherOfPair(ins)) < 14
    ensures CondField(OtherOfPair(ins)) / 2 == CondField(ins) / 2
    ensures CondField(OtherOfPair(ins)) % 2 != CondField(ins) % 2
  {
  }

  /**
    From any state, of two data-processing or branch words that differ only in condition
    bit 28 and are not unconditional, exactly one takes effect, as if it were
    unconditional, and the other changes nothing.
   */
  lemma ConditionPairing(s: State, ins: word)
    requires Modelled(ins) && CondField(ins) < 14
    ensures Modelled(OtherOfPair(ins)) && Modelled(Always(ins))
    ensures Passes(s, ins) != Passes(s, OtherOfPair(ins))
    ensures var (taken, skipped) := if Passes(s, ins) then (ins, OtherOfPair(ins)) else (OtherOfPair(ins), ins);
            Perform(s, taken) == Perform(s, Always(ins)) && Perform(s, skipped) == Skipped(s, ins)
  {
    var other := OtherOfPair(ins);
    PairedWords(ins);
    SameKind(ins, other);
    SameKind(ins, Always(ins));
    if Passes(s, ins) {
      OutcomeByVerdict(s, ins, Always(ins));
      FailedConditionIsNop(s, other);
    } else {
      OutcomeByVerdict(s, other, Always(ins));
      FailedConditionIsNop(s, ins);
    }
  }

  /** Conditions 1110 and 1111 give identical outcomes, for branches too. */
  lemma UnconditionalTwins(s: State, x: word, y: word)
    requires Modelled(x) && CondField(x) == 14 && y == x + 0x1000_0000
    ensures Modelled(y) && Perform(s, x) == Perform(s, y)
  {
    assert x % 0x1000_0000 == y % 0x1000_0000;
    OutcomeByVerdict(s, x, y);
  }

  // ---- Immediate operands -------------------------------------------------

  /** Section A5.1.3: the shifter carry of an immediate operand. */
  function ManualImmediateCarry(s: State, ins: word): bool {
    if ins / 0x100 % 16 == 0 then FlagsOfState(s).c else Top(ImmediateOperand(s, ins).sop)
  }

  /** The operand is the immediate rotated right by twice the rotate field. */
  lemma ImmediateOperandValue(s: State, ins: word)
    ensures var imm, n := ins % 0x100, ins / 0x100 % 16 * 2;
            ImmediateOperand(s, ins).sop == imm / Pow2(n) + imm % Pow2(n) * Pow2(32 - n)
  {
    RorIsRotation(ins % 0x100, ins / 0x100 % 16 * 2);
  }

  /**
    After a logical flag-setting instruction with an immediate operand, C follows the
    rule of section A5.1.3 if and only if C was clear or the immediate and the rotation
    are both zero or both not zero.
   */
  lemma ImmediateCarry(s: State, ins: word)
    requires ClassField(ins) == 1 && IsLogical(OpcodeField(ins)) && SetsFlags(s, ins)
    ensures var imm, rot := ins % 0x100, ins / 0x100 % 16;
            FlagsOfState(AfterImmediateForm(s, ins).state).c == ManualImmediateCarry(s, ins)
            <==> !FlagsOfState(s).c || ((imm == 0) == (rot == 0))
  {
    var operand := ImmediateOperand(s, ins);
    FlagsAfter(s, ins, operand.sop, operand.sco);
    if ins % 0x100 == 0 {
      RotatedZero(ins / 0x100 % 16 * 2);
    }
  }

  lemma RotatedZero(n: nat)
    requires n < 32
    ensures Ror(0, n) == 0
  {
    if n > 0 {
      RorValue(0, n);
      QuotVanishes(0, n);
      ScaleZero(32 - n);
    }
  }

  /** A register operand with no shift is the register. */
  lemma UnshiftedOperand(s: State, ins: word)
    requires ins % 0x1000 < 16
    ensures RegisterOperand(s, ins).sop == CoreRead(s.regs, ins % 16)
  {
    var rm := ins % 0x1000;
    FieldAgrees(ins, rm, 1, 16, 0x100, 0x1000);
    FieldAgrees(ins, rm, 0x10, 2, 0x80, 0x1000);
    FieldAgrees(ins, rm, 0x20, 4, 0x20, 0x1000);
    FieldAgrees(ins, rm, 0x80, 32, 1, 0x1000);
    assert ins / 0x10 % 2 == 0 && ins / 0x20 % 4 == 0 && ins / 0x80 % 32 == 0;
  }

  // ---- Duality of addition and subtraction --------------------------------

  /** The word with its opcode field replaced. */
  function WithOpcode(ins: word, opcode: byte): word
    requires opcode < 16
  {
    var r := ins - OpcodeField(ins) * 0x20_0000 + opcode * 0x20_0000;
    FieldsRecompose(ins);
    r
  }

  lemma WithOpcodeFields(ins: word, opcode: byte)
    requires opcode < 16
    ensures var r := WithOpcode(ins, opcode);
            && OpcodeField(r) == opcode && CondField(r) == CondField(ins) && SField(r) == SField(ins)
            && RnField(r) == RnField(ins) && RdField(r) == RdField(ins)
  {
    var r := WithOpcode(ins, opcode);
    var low := ins % 0x20_0000;
    var high := ins / 0x200_0000;
    assert ins == high * 0x200_0000 + OpcodeField(ins) * 0x20_0000 + low;
    DivUnique(r, 0x20_0000, high * 16 + opcode, low);
    DivUnique(r / 0x20_0000, 16, high, opcode);
    assert CondField(ins) == high / 8;
    assert r == high * 0x200_0000 + (opcode * 0x20_0000 + low);
    DivUnique(r, 0x200_0000, high, opcode * 0x20_0000 + low);
    assert CondField(r) == r / 0x200_0000 / 8;
    assert r % 0x20_0000 == ins % 0x20_0000;
    FieldAgrees(r, ins, 0x10_0000, 2, 1, 0x20_0000);
    FieldAgrees(r, ins, 0x1_0000, 16, 2, 0x20_0000);
    FieldAgrees(r, ins, 0x1000, 16, 0x20, 0x20_0000);
  }

  lemma AluDuality(rn: word, sop: word, c: bool)
    ensures Alu(6, rn, sop, c) == Alu(5, rn, BNot(sop), c)
    ensures Alu(7, rn, sop, c) == Alu(6, sop, rn, c) == Alu(5, sop, BNot(rn), c)
    ensures Alu(3, rn, sop, c) == Alu(2, sop, rn, c) == Alu(5, sop, BNot(rn), true)
  {
    WrapPeriod(rn - sop - (1 - ToInt(c)));
    WrapPeriod(sop - rn - (1 - ToInt(c)));
    WrapPeriod(sop - rn);
  }

  /**
    The logical operations against addition: AND counts the digits that OR joins and
    EOR drops, BIC takes the AND away, MVN is the distance from all ones.
   */
  lemma LogicalArithmetic(rn: word, sop: word, c: bool)
    ensures Alu(0, rn, sop, c) + Alu(12, rn, sop, c) == rn + sop
    ensures 2 * Alu(0, rn, sop, c) + Alu(1, rn, sop, c) == rn + sop
    ensures Alu(14, rn, sop, c) == rn - Alu(0, rn, sop, c)
    ensures Alu(15, rn, sop, c) == 0xFFFF_FFFF - sop
  {
    WordSums(rn, sop);
  }

  lemma WordSums(x: word, y: word)
    ensures BAnd(x, y) + BOr(x, y) == x + y && 2 * BAnd(x, y) + BXor(x, y) == x + y
    ensures BAnd(x, BNot(y)) == x - BAnd(x, y) && BNot(y) == 0xFFFF_FFFF - y
  {
    Pow2Of32();
    DigitSums(x, y, 32);
    DigitDifference(x, y, 32);
  }

  lemma {:induction false} DigitSums(x: nat, y: nat, n: nat)
    requires x < Pow2(n) && y < Pow2(n)
    ensures Bitwise(And, x, y, n) + Bitwise(Or, x, y, n) == x + y
    ensures 2 * Bitwise(And, x, y, n) + Bitwise(Xor, x, y, n) == x + y
  {
    if n > 0 {
      DigitSums(x / 2, y / 2, n - 1);
    }
  }

  lemma {:induction false} DigitDifference(x: nat, y: nat, n: nat)
    requires x < Pow2(n) && y < Pow2(n)
    ensures Bitwise(And, x, Pow2(n) - 1 - y, n) == x - Bitwise(And, x, y, n)
  {
    if n > 0 {
      DigitDifference(x / 2, y / 2, n - 1);
      ComplementHalves(y, Pow2(n - 1));
    }
  }

  lemma ComplementHalves(y: nat, p: nat)
    requires y < 2 * p
    ensures (2 * p - 1 - y) / 2 == p - 1 - y / 2 && (2 * p - 1 - y) % 2 == 1 - y % 2
  {
  }

  lemma WrapPeriod(x: int)
    ensures Wrap(x + 0x1_0000_0000) == Wrap(x)
  {
  }

  /** The second state is the first but for the flags C and V. */
  predicate DifferInCV(s: State, t: State) {
    var f, g := FlagsOfState(s), FlagsOfState(t);
    t == s.(regs := s.regs[CPSR := WithFlags(s.regs[CPSR], f.(c := g.c, v := g.v))])
  }

  /**
    SBC does what ADC does on the complemented operand: to the whole state with S clear
    or the pc as destination, and but for C and V otherwise.
   */
  lemma SubtractIsAddComplement(s: State, ins: word, sop: word, sco: byte)
    requires OpcodeField(ins) == 6
    ensures var o, p := Executed(s, ins, sop, sco), Executed(s, WithOpcode(ins, 5), BNot(sop), sco);
            && o.status == p.status && DifferInCV(o.state, p.state)
            && (SField(ins) == 0 || RdField(ins) == PC ==> o == p)
  {
    if SetsFlags(s, ins) {
      FlagSettingSubtract(s, ins, sop, sco);
    } else {
      WithOpcodeFields(ins, 5);
      AluDuality(CoreRead(s.regs, RnField(ins)), sop, FlagsOfState(s).c);
      SelfDifference(Executed(s, ins, sop, sco).state);
    }
  }

  lemma SelfDifference(s: State)
    ensures DifferInCV(s, s)
  {
    FlagsRoundTrip(s.regs[CPSR], FlagsOfState(s));
    assert s.regs[CPSR := s.regs[CPSR]] == s.regs;
  }

  lemma FlagSettingSubtract(s: State, ins: word, sop: word, sco: byte)
    requires OpcodeField(ins) == 6 && SetsFlags(s, ins)
    ensures var o, p := Executed(s, ins, sop, sco), Executed(s, WithOpcode(ins, 5), BNot(sop), sco);
            o.status == p.status && DifferInCV(o.state, p.state)
  {
    var rn, res, f := CoreRead(s.regs, RnField(ins)), ResultOf(s, ins, sop), FlagsOfState(s);
    WithOpcodeFields(ins, 5);
    AluDuality(rn, sop, f.c);
    StatusDiffersInCV(s.regs[CPSR], FlagsOf(6, rn, sop, res, sco, f), FlagsOf(5, rn, BNot(sop), res, sco, f));
  }

  lemma StatusDiffersInCV(cpsr: word, f: Flags, g: Flags)
    requires f.n == g.n && f.z == g.z
    ensures var a, b := WithFlags(cpsr, f), WithFlags(cpsr, g);
            FlagsIn(a) == f && FlagsIn(b) == g && b == WithFlags(a, f.(c := g.c, v := g.v))
  {
    FlagsRoundTrip(cpsr, f);
    FlagsRoundTrip(cpsr, g);
    FlagsOverwrite(cpsr, f, g);
  }

  // ---- Results and destinations -------------------------------------------

  /**
    The S bit and the destination of a test do not matter: the encodings of MRS, MSR
    and BX run as tests and overwrite the flags.
   */
  lemma TestIgnoresS(s: State, x: word, y: word, sop: word, sco: byte)
    requires IsTest(OpcodeField(x)) && OpcodeField(y) == OpcodeField(x)
    requires CondField(y) == CondField(x) && RnField(y) == RnField(x)
    ensures Executed(s, x, sop, sco) == Executed(s, y, sop, sco)
    ensures Passes(s, x) ==> SetsFlags(s, x) && SetsFlags(s, y)
  {
  }

  /** The slot of a register in a state's mode, if the mode has it. */
  predicate IsSlotOf(s: State, name: Option<Name>, slot: nat)
    requires name.Some? ==> IsName(name.value)
  {
    name.Some? && slot == SlotOf(name.value)
  }

  /**
    A data-processing instruction changes no slot but that of its destination, which a
    test does not have, the CPSR, and the SPSR when it writes the pc with S set.
   */
  lemma OnlyDestinationChanges(s: State, ins: word, sop: word, sco: byte, slot: nat)
    requires slot < 37 && slot != CPSR
    requires IsTest(OpcodeField(ins)) || !IsSlotOf(s, NameOf(Mode(s.regs), RdField(ins)), slot)
    requires !IsTest(OpcodeField(ins)) && SField(ins) == 1 && RdField(ins) == PC
             ==> !IsSlotOf(s, SpsrName(Mode(s.regs)), slot)
    ensures Executed(s, ins, sop, sco).state.regs[slot] == s.regs[slot]
    ensures Executed(s, ins, sop, sco).state.mem == s.mem && Executed(s, ins, sop, sco).state.cycles == s.cycles
  {
    LowRegistersKeepCpsr(s.regs, RdField(ins), ResultOf(s, ins, sop));
  }

  /**
    Writing the pc with S set stores the CPSR in the SPSR, where section A2.5 asks for
    the opposite: the CPSR ends as the saved status only if they were equal before.
    User and System mode report an undefined instruction after the pc is written.
   */
  lemma PcWriteWithStatus(s: State, ins: word, sop: word, sco: byte)
    requires Passes(s, ins) && !IsTest(OpcodeField(ins))
    requires SField(ins) == 1 && RdField(ins) == PC && ValidMode(Mode(s.regs))
    ensures var o := Executed(s, ins, sop, sco);
            && o.state.regs[PC] == ResultOf(s, ins, sop)
            && o.status == (if s.regs[16] % 32 in {0x10, 0x1f} then UNDEFINED_INSTRUCTION else 0)
            && (s.regs[16] % 32 !in {0x10, 0x1f} ==>
                  ReadReg(o.state.regs, 17) == s.regs[CPSR]
                  && (o.state.regs[CPSR] == ReadReg(s.regs, 17) <==> s.regs[CPSR] == ReadReg(s.regs, 17)))
  {
    LowRegistersKeepCpsr(s.regs, PC, ResultOf(s, ins, sop));
  }
}
