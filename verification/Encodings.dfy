/** What each instruction does, told from the bits of its word and the slots of the array. */
module Encodings {
  import opened Words
  import opened StatusFlags
  import opened Shifter
  import opened Util
  import opened Registers
  import opened RegisterRuns
  import opened Memory
  import opened ArmCore
  import opened DataProcessing
  import opened Instruction
  import opened Conditions
  import opened DataLaws

  // ---- Fetch and dispatch -------------------------------------------------

  /** Four bytes as a number, the most significant first. */
  function FourBytes(a: int, b: int, c: int, d: int): int {
    0x100_0000 * a + 0x1_0000 * b + 0x100 * c + d
  }

  /** With the pc at 4k + r the word at a = 4k + r % 2 is fetched, and the pc becomes a + 4. */
  lemma FetchEffect(s: State, k: nat, r: nat)
    requires s.regs[15] == 4 * k + r && r < 4
    ensures var a := 4 * k + r % 2;
            && (CanFetch(s) <==> a + 4 <= |s.mem|)
            && (CanFetch(s) ==>
                  FetchedWord(s) == FourBytes(s.mem[a], s.mem[a + 1], s.mem[a + 2], s.mem[a + 3]))
            && AfterFetch(s) == State(s.regs[15 := (a + 4) % 0x1_0000_0000], s.mem, (s.cycles + 1) % 0x1_0000_0000)
  {
    PcViewValue(k, r);
    BackByFour(4 * k + r % 2);
    if CanFetch(s) {
      WordOfBytes(s.mem, 4 * k + r % 2);
    }
  }

  lemma BackByFour(a: nat)
    requires a < 0x1_0000_0000
    ensures Wrap((a + 4) % 0x1_0000_0000 - 4) == a
  {
  }

  lemma WordOfBytes(m: seq<byte>, a: nat)
    requires a + 4 <= |m|
    ensures FromBytes(Window(m, a, 4)) == FourBytes(m[a], m[a + 1], m[a + 2], m[a + 3])
  {
    var w := Window(m, a, 4);
    assert w[..3][..2] == w[..2] && w[..2][..1] == w[..1] && w[..1][..0] == [];
    assert FromBytes(w[..1]) == m[a];
    assert FromBytes(w[..2]) == FromBytes(w[..1]) * 0x100 + m[a + 1];
    assert FromBytes(w[..3]) == FromBytes(w[..2]) * 0x100 + m[a + 2];
  }

  /** Bits 27 to 25 choose the handler; class 000 with bits 4 and 7 set is never stepped. */
  lemma DispatchByBits(s: State, ins: word)
    ensures Modelled(ins) <==>
            if Bit(ins, 27) then !Bit(ins, 26) && Bit(ins, 25)
            else !Bit(ins, 26) && (Bit(ins, 25) || !(Bit(ins, 4) && Bit(ins, 7)))
    ensures Modelled(ins) ==>
              Perform(s, ins) ==
              if Bit(ins, 27) then AfterBranch(s, ins)
              else if Bit(ins, 25) then AfterImmediateForm(s, ins) else AfterShiftForm(s, ins)
  {
    LowPowers();
    BitDivision(ins, 4);
    BitDivision(ins, 7);
    ClassDigits(ins);
  }

  lemma ClassDigits(ins: word)
    ensures ClassField(ins) == 4 * ToInt(Bit(ins, 27)) + 2 * ToInt(Bit(ins, 26)) + ToInt(Bit(ins, 25))
  {
    TopDivision(ins, 25, 0x200_0000);
    TopDivision(ins, 26, 0x400_0000);
    TopDivision(ins, 27, 0x800_0000);
    ClassByDivision(ins);
  }

  lemma ClassByDivision(ins: word)
    ensures ClassField(ins) == 4 * (ins / 0x800_0000 % 2) + 2 * (ins / 0x400_0000 % 2) + ins / 0x200_0000 % 2
  {
    var q: int := ins / 0x200_0000;
    var low: int := ins % 0x200_0000;
    DivUnique(ins, 0x400_0000, q / 2, q % 2 * 0x200_0000 + low);
    DivUnique(ins, 0x800_0000, q / 4, q % 4 * 0x200_0000 + low);
    LowThreeDigits(q);
  }

  lemma LowThreeDigits(q: int)
    ensures q % 8 == 4 * (q / 4 % 2) + 2 * (q / 2 % 2) + q % 2
  {
    var p, d := q / 8, q % 8;
    var d4 := if d >= 4 then 1 else 0;
    var d2 := if d - 4 * d4 >= 2 then 1 else 0;
    DivUnique(q, 4, 2 * p + d4, d - 4 * d4);
    DivUnique(q, 2, 4 * p + 2 * d4 + d2, d - 4 * d4 - 2 * d2);
    DivUnique(2 * p + d4, 2, p, d4);
    DivUnique(4 * p + 2 * d4 + d2, 2, 2 * p + d4, d2);
  }

  lemma TopDivision(ins: word, i: nat, d: nat)
    requires (i == 25 && d == 0x200_0000) || (i == 26 && d == 0x400_0000) || (i == 27 && d == 0x800_0000)
    ensures ins / d % 2 == ToInt(Bit(ins, i))
  {
    LowPowers();
    assert Pow2(26) == 0x400_0000 && Pow2(27) == 0x800_0000;
    BitDivision(ins, i);
  }

  // ---- Register operands --------------------------------------------------

  lemma RegisterAmountFields(ins: word, rs: nat, kind: nat, rm: nat)
    requires rs < 16 && kind < 4 && rm < 16 && ins % 0x1000 == rs * 0x100 + kind * 0x20 + 0x10 + rm
    ensures ins % 16 == rm && ins / 0x10 % 2 == 1 && ins / 0x20 % 4 == kind && ins / 0x100 % 16 == rs
  {
    LowFields(ins, ins % 0x1000);
    SplitRegisterAmount(rs, kind, rm);
  }

  lemma SplitRegisterAmount(rs: nat, kind: nat, rm: nat)
    requires rs < 16 && kind < 4 && rm < 16
    ensures var low := rs * 0x100 + kind * 0x20 + 0x10 + rm;
            low % 16 == rm && low / 0x10 % 2 == 1 && low / 0x20 % 4 == kind && low / 0x100 % 16 == rs
  {
    var low := rs * 0x100 + kind * 0x20 + 0x10 + rm;
    DivUnique(low, 0x10, rs * 16 + kind * 2 + 1, rm);
    DivUnique(low, 0x20, rs * 8 + kind, 0x10 + rm);
    DivUnique(low, 0x100, rs, kind * 0x20 + 0x10 + rm);
  }

  lemma ImmediateAmountFields(ins: word, amount: nat, kind: nat, rm: nat)
    requires amount < 32 && kind < 4 && rm < 16 && ins % 0x1000 == amount * 0x80 + kind * 0x20 + rm
    ensures ins % 16 == rm && ins / 0x10 % 2 == 0 && ins / 0x20 % 4 == kind && ins / 0x80 % 32 == amount
  {
    LowFields(ins, ins % 0x1000);
    SplitImmediateAmount(amount, kind, rm);
  }

  lemma SplitImmediateAmount(amount: nat, kind: nat, rm: nat)
    requires amount < 32 && kind < 4 && rm < 16
    ensures var low := amount * 0x80 + kind * 0x20 + rm;
            low % 16 == rm && low / 0x10 % 2 == 0 && low / 0x20 % 4 == kind && low / 0x80 % 32 == amount
  {
    var low := amount * 0x80 + kind * 0x20 + rm;
    DivUnique(low, 0x10, amount * 8 + kind * 2, rm);
    DivUnique(low, 0x20, amount * 4 + kind, rm);
    DivUnique(low, 0x80, amount, kind * 0x20 + rm);
  }

  /** The low twelve bits alone decide the fields of the operand. */
  lemma LowFields(ins: word, low: word)
    requires low == ins % 0x1000
    ensures ins % 16 == low % 16 && ins / 0x10 % 2 == low / 0x10 % 2 && ins / 0x20 % 4 == low / 0x20 % 4
    ensures ins / 0x100 % 16 == low / 0x100 % 16 && ins / 0x80 % 32 == low / 0x80 % 32
  {
    FieldAgrees(ins, low, 1, 16, 0x100, 0x1000);
    FieldAgrees(ins, low, 0x10, 2, 0x80, 0x1000);
    FieldAgrees(ins, low, 0x20, 4, 0x20, 0x1000);
    FieldAgrees(ins, low, 0x100, 16, 1, 0x1000);
    FieldAgrees(ins, low, 0x80, 32, 1, 0x1000);
  }

  /**
    Rm shifted by Rs: bits 11 to 8 name Rs, bits 6 and 5 the kind, bits 3 to 0 Rm.  The low
    byte of Rs is the amount, but ROR takes its own from Rm.
   */
  lemma ShiftByRegisterOperand(s: State, ins: word, rs: byte, kind: nat, rm: byte)
    requires rs < 16 && kind < 4 && rm < 16 && ins % 0x1000 == rs * 0x100 + kind * 0x20 + 0x10 + rm
    ensures var op, x, n := RegisterOperand(s, ins), CoreRead(s.regs, rm), CoreRead(s.regs, rs) % 0x100;
            if n == 0 then op == Shifted(x, ToInt(FlagsOfState(s).c))
            else if kind == 0 then LeftBy(op, x, n)
            else if kind == 1 then RightBy(op, x, n)
            else if kind == 2 then SignedRightBy(op, x, n)
            else if x % 32 == 0 then op == Shifted(x, x / 0x8000_0000)
            else RotatedBy(op, x, x % 32)
  {
    RegisterAmountFields(ins, rs, kind, rm);
    RegisterShifts(CoreRead(s.regs, rs), CoreRead(s.regs, rm), ToInt(FlagsOfState(s).c));
  }

  /** Rm shifted by an immediate in bits 11 to 7. */
  lemma ShiftByImmediateOperand(s: State, ins: word, amount: nat, kind: nat, rm: byte)
    requires amount < 32 && kind < 4 && rm < 16 && ins % 0x1000 == amount * 0x80 + kind * 0x20 + rm
    ensures var op, x := RegisterOperand(s, ins), CoreRead(s.regs, rm);
            if amount > 0 then
              if kind == 0 then LeftBy(op, x, amount)
              else if kind == 1 then RightBy(op, x, amount)
              else if kind == 2 then SignedRightBy(op, x, amount)
              else RotatedBy(op, x, amount)
            else if kind == 0 then op == Shifted(x, ToInt(FlagsOfState(s).c))
            else if kind == 1 then op == Shifted(0, x / 0x8000_0000)
            else if kind == 2 then op == if x >= 0x8000_0000 then Shifted(0xFF_FFFF, 1) else Shifted(0, 0)
            else op == Shifted(2 * x % 0x1_0000_0000, x % 2)
  {
    ImmediateAmountFields(ins, amount, kind, rm);
    ImmediateShifts(amount, CoreRead(s.regs, rm), ToInt(FlagsOfState(s).c));
  }

  /** The carry of an immediate operand: its top bit, or C as it was when the immediate is 0. */
  lemma ImmediateOperandCarry(s: State, ins: word)
    ensures ImmediateOperand(s, ins).sco ==
            if ins % 0x100 == 0 then ToInt(FlagsOfState(s).c) else ImmediateOperand(s, ins).sop / 0x8000_0000
  {
  }

  // ---- What an instruction writes -----------------------------------------

  /** The flags are set by the four tests, and by the others with S set unless they write the pc. */
  lemma WhenFlagsAreSet(s: State, ins: word)
    ensures SetsFlags(s, ins) <==>
            && CondPassed(CondField(ins), FlagsOfState(s))
            && (OpcodeField(ins) in {8, 9, 10, 11} || (SField(ins) == 1 && RdField(ins) != 15))
  {
  }

  /** TST, TEQ, CMP and CMN change nothing but the flags, and set them whatever S is. */
  lemma TestsOnlySetFlags(s: State, ins: word, sop: word, sco: byte, slot: nat)
    requires OpcodeField(ins) in {8, 9, 10, 11} && slot < 37
    ensures var o := Executed(s, ins, sop, sco);
            && o.status == 0 && o.state.mem == s.mem && o.state.cycles == s.cycles
            && (slot != 16 ==> o.state.regs[slot] == s.regs[slot])
            && o.state.regs[16] % 0x1000_0000 == s.regs[16] % 0x1000_0000
            && (CondPassed(CondField(ins), FlagsOfState(s)) ==> SetsFlags(s, ins))
            && (!CondPassed(CondField(ins), FlagsOfState(s)) ==> o.state == s)
  {
    FlagsRoundTrip(s.regs[16], FlagsOf(OpcodeField(ins), Rn(s, ins), sop, ResultOf(s, ins, sop), sco, FlagsOfState(s)));
  }

  /** A number below the pc that the mode can write; r13 and r14 exist in the seven modes. */
  predicate Writable(mode: nat, rd: byte) {
    rd <= 7 || (rd <= 12 && mode != 0x11) || (13 <= rd <= 14 && mode in {0x10, 0x11, 0x12, 0x13, 0x17, 0x1b, 0x1f})
  }

  lemma WritableHolds(regs: RegArray, rd: byte)
    ensures Writable(regs[16] % 32, rd) ==> Holds(regs, rd)
  {
  }

  /** Any other opcode with S clear writes its result and keeps the CPSR. */
  lemma ClearSWritesResult(s: State, ins: word, sop: word, sco: byte)
    requires OpcodeField(ins) !in {8, 9, 10, 11} && SField(ins) == 0 && CondPassed(CondField(ins), FlagsOfState(s))
    ensures var o := Executed(s, ins, sop, sco);
            && o.status == 0
            && o.state == s.(regs := WriteReg(s.regs, RdField(ins), ResultOf(s, ins, sop)))
            && o.state.regs[16] == s.regs[16]
            && (RdField(ins) == 15 ==> o.state.regs == s.regs[15 := ResultOf(s, ins, sop)])
            && (Writable(s.regs[16] % 32, RdField(ins)) ==>
                  CoreRead(o.state.regs, RdField(ins)) == ResultOf(s, ins, sop))
  {
    var w := WriteReg(s.regs, RdField(ins), ResultOf(s, ins, sop));
    LowRegistersKeepCpsr(s.regs, RdField(ins), ResultOf(s, ins, sop));
    assert w[16 := s.regs[16]] == w;
    if Writable(s.regs[16] % 32, RdField(ins)) {
      WritableHolds(s.regs, RdField(ins));
      ReadBackResult(s.regs, RdField(ins), ResultOf(s, ins, sop), s.regs[16]);
    }
  }

  /** With S set and a destination below the pc it writes its result and the flags. */
  lemma SetSWritesResult(s: State, ins: word, sop: word, sco: byte)
    requires OpcodeField(ins) !in {8, 9, 10, 11} && SField(ins) == 1 && RdField(ins) != 15
    requires CondPassed(CondField(ins), FlagsOfState(s))
    ensures var o := Executed(s, ins, sop, sco);
            && o.status == 0 && SetsFlags(s, ins)
            && o.state == s.(regs := WriteReg(s.regs, RdField(ins), ResultOf(s, ins, sop))[16 := o.state.regs[16]])
            && o.state.regs[16] % 0x1000_0000 == s.regs[16] % 0x1000_0000
            && (Writable(s.regs[16] % 32, RdField(ins)) ==>
                  CoreRead(o.state.regs, RdField(ins)) == ResultOf(s, ins, sop))
  {
    FlagsRoundTrip(s.regs[16], FlagsOf(OpcodeField(ins), Rn(s, ins), sop, ResultOf(s, ins, sop), sco, FlagsOfState(s)));
    if Writable(s.regs[16] % 32, RdField(ins)) {
      WritableHolds(s.regs, RdField(ins));
      ResultAfter(s, ins, sop, sco);
    }
  }

  // ---- Branches -----------------------------------------------------------

  /** The offset field as a number of words. */
  function Offset(ins: word): int {
    if Bit(ins, 23) then ins % 0x100_0000 - 0x100_0000 else ins % 0x100_0000
  }

  lemma OffsetIsSigned(ins: word)
    ensures Offset(ins) == Signed24(ins % 0x100_0000)
  {
    assert Pow2(23) == 0x80_0000 by { LowPowers(); }
    BitDivision(ins, 23);
    var t := ins % 0x100_0000;
    FieldAgrees(ins, t, 0x80_0000, 2, 1, 0x100_0000);
  }

  /**
    A branch taken with the pc at 4k + r goes four times its offset from the next word
    address, keeping bit 0.  With bit 24 set r14 gets the address before that one, which
    in the fetched pc is the one after the branch; every other slot stays.
   */
  lemma BranchEffect(s: State, ins: word, k: nat, r: nat)
    requires s.regs[15] == 4 * k + r && r < 4 && CondPassed(CondField(ins), FlagsOfState(s))
    ensures var o := AfterBranch(s, ins);
            var linked := if Bit(ins, 24) then WriteReg(s.regs, 14, 4 * k + r % 2) else s.regs;
            && o.status == 0
            && o.state == s.(regs := linked[15 := (4 * k + 4 + r % 2 + 4 * Offset(ins)) % 0x1_0000_0000])
  {
    PcViewValue(k, r);
    BackByFour(4 * k + r % 2);
    OffsetIsSigned(ins);
    assert ins / 0x100_0000 % 2 == ToInt(Bit(ins, 24)) by {
      LowPowers();
      BitDivision(ins, 24);
    }
    WrapSum(4 * k + 4 + r % 2, 4 * Offset(ins));
  }

  lemma WrapSum(x: int, y: int)
    ensures Wrap(x % 0x1_0000_0000 + y) == (x + y) % 0x1_0000_0000
  {
  }

  // ---- One word from bits to registers ------------------------------------

  const MOV_LSL: word := 0xE1A0_0211  // mov r0, r1, lsl r2

  /** The word leaves r1 times 2^n modulo 2^32 in r0, n being the low byte of r2, and nothing else changes. */
  lemma MovLslEffect(s: State)
    ensures Modelled(MOV_LSL)
    ensures var n := CoreRead(s.regs, 2) % 0x100;
            Perform(s, MOV_LSL) ==
            Outcome(s.(regs := s.regs[0 := CoreRead(s.regs, 1) * Pow2(n) % 0x1_0000_0000]), 0)
  {
    var op, x, n := RegisterOperand(s, MOV_LSL), CoreRead(s.regs, 1), CoreRead(s.regs, 2) % 0x100;
    MovLslDecodes();
    ShiftByRegisterOperand(s, MOV_LSL, 2, 0, 1);
    LowWord(op, x, n);
    ClearSWritesResult(s, MOV_LSL, op.sop, op.sco);
    SharedInPlace(s.regs, 0, op.sop);
  }

  lemma MovLslDecodes()
    ensures CondField(MOV_LSL) == 14 && ClassField(MOV_LSL) == 0 && OpcodeField(MOV_LSL) == 13
    ensures SField(MOV_LSL) == 0 && RdField(MOV_LSL) == 0 && Modelled(MOV_LSL)
    ensures MOV_LSL % 0x1000 == 2 * 0x100 + 0x10 + 1
  {
  }

  /** The operand of a left shift is the product modulo 2^32. */
  lemma LowWord(op: Shifted, x: word, n: nat)
    ensures n > 0 && LeftBy(op, x, n) ==> op.sop == x * Pow2(n) % 0x1_0000_0000
    ensures x * Pow2(0) % 0x1_0000_0000 == x
  {
    var p := x * Pow2(n);
    if LeftBy(op, x, n) {
      var q := p / 0x2_0000_0000;
      DivUnique(p, 0x1_0000_0000, 2 * q + op.sco, op.sop);
    }
  }
}
