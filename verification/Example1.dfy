/**
  Examples/example1.s run instruction by instruction from memory: fetch, dispatch,
  branch with link, subtract, return and conditional branch.
 */
module Example1 {
  import opened Words
  import opened ArmConstants
  import opened StatusFlags
  import opened Util
  import opened Registers
  import opened Memory
  import opened ArmCore
  import opened DataProcessing
  import opened Instruction
  import opened DataLaws
  import opened Runs
  import opened Isolation
  import opened Countdown

  const SUBS_R0: word := 0xE250_0001    // decr: take one from r0 and set the flags
  const RETURN: word := 0xE1A0_F00E     //       return
  const MOV_R0: word := 0xE3A0_0005     // main: five rounds
  const BL_DECR: word := 0xEBFF_FFFB    // loop: call decr
  const BNE_LOOP: word := 0x1AFF_FFFD   //       again unless r0 reached zero

  // ---- The five encodings -------------------------------------------------

  predicate IsReturn(ins: word) {
    && CondField(ins) == 14 && ClassField(ins) == 0 && OpcodeField(ins) == 13 && SField(ins) == 0
    && RdField(ins) == PC && ins % 0x1000 == LR
  }

  predicate IsMovR0(ins: word, imm: byte) {
    && CondField(ins) == 14 && ClassField(ins) == 1 && OpcodeField(ins) == 13 && SField(ins) == 0
    && RdField(ins) == 0 && ins % 0x1000 == imm
  }

  predicate IsJump(ins: word, cond: byte, link: bool, words: int) {
    && CondField(ins) == cond && ClassField(ins) == 5 && (ins / 0x100_0000 % 2 == 1) == link
    && Signed24(ins % 0x100_0000) == words
  }

  lemma Encodings()
    ensures IsSubsOne(SUBS_R0, 0) && IsReturn(RETURN) && IsMovR0(MOV_R0, 5)
    ensures IsJump(BL_DECR, 14, true, -5) && IsJump(BNE_LOOP, 1, false, -3)
  {
  }

  // ---- Effects on a state that has fetched --------------------------------

  /** The processor in a valid mode with the given memory, pc and r0. */
  ghost predicate At(s: State, m: seq<byte>, mode: nat, pc: nat, r0: word) {
    s.mem == m && ValidMode(mode) && Mode(s.regs) == mode && s.regs[PC] == pc && s.regs[0] == r0
  }

  function LrOf(s: State): word {
    ReadReg(s.regs, LR)
  }

  lemma PcViewAligned(a: word)
    requires a % 4 == 0 && a + 4 < 0x1_0000_0000
    ensures PcView(a) == a + 4
  {
  }

  lemma MovEffect(f: State, ins: word, m: seq<byte>, mode: nat, pc: nat, r0: word, imm: byte)
    requires At(f, m, mode, pc, r0) && IsMovR0(ins, imm)
    ensures At(AfterImmediateForm(f, ins).state, m, mode, pc, imm)
  {
    PlainOperand(f, ins, imm);
    var operand := ImmediateOperand(f, ins);
    assert ResultOf(f, ins, operand.sop) == imm;
    assert Executed(f, ins, operand.sop, operand.sco) == Outcome(f.(regs := f.regs[0 := imm]), 0);
  }

  lemma SubsEffect(f: State, ins: word, m: seq<byte>, mode: nat, pc: nat, n: word)
    requires At(f, m, mode, pc, n) && IsSubsOne(ins, 0)
    ensures var t := AfterImmediateForm(f, ins).state;
            At(t, m, mode, pc, Rounds(n) - 1) && LrOf(t) == LrOf(f) && (FlagsOfState(t).z <==> Rounds(n) - 1 == 0)
  {
    var operand := ImmediateOperand(f, ins);
    SubsOneEffect(f, ins, 0);
    ExecutedIsolates(f, ins, operand.sop, operand.sco);
    LrApart(f.regs, Rounds(n) - 1, StatusOf(f, ins, operand.sop, operand.sco));
    PlainOperand(f, ins, 1);
  }

  /** Writing r0 and the flags leaves pc and lr alone. */
  lemma LrApart(regs: RegArray, v: word, cpsr: word)
    requires cpsr % 32 == Mode(regs)
    ensures var r := WriteReg(regs, 0, v)[CPSR := cpsr];
            ReadReg(r, LR) == ReadReg(regs, LR) && r[PC] == regs[PC]
  {
  }

  /** An unconditional MOV to the pc that leaves the flags. */
  lemma MovPcEffect(f: State, ins: word, sop: word, sco: byte)
    requires CondField(ins) == 14 && OpcodeField(ins) == 13 && SField(ins) == 0 && RdField(ins) == PC
    ensures Executed(f, ins, sop, sco) == Outcome(f.(regs := f.regs[PC := sop]), 0)
  {
    assert ResultOf(f, ins, sop) == sop;
  }

  /** The return takes its operand from r14. */
  lemma ReturnOperand(f: State, ins: word)
    requires ins % 0x1000 == LR
    ensures RegisterOperand(f, ins).sop == LrOf(f)
  {
    UnshiftedOperand(f, ins);
    FieldAgrees(ins, LR, 1, 16, 0x100, 0x1000);
  }

  lemma PcSet(f: State, m: seq<byte>, mode: nat, pc: nat, n: word, v: word)
    requires At(f, m, mode, pc, n)
    ensures var t := f.(regs := f.regs[PC := v]);
            At(t, m, mode, v, n) && FlagsOfState(t) == FlagsOfState(f)
  {
  }

  lemma ReturnEffect(f: State, ins: word, m: seq<byte>, mode: nat, pc: nat, n: word)
    requires At(f, m, mode, pc, n) && IsReturn(ins)
    ensures var t := AfterShiftForm(f, ins).state;
            At(t, m, mode, LrOf(f), n) && FlagsOfState(t) == FlagsOfState(f)
  {
    var operand := RegisterOperand(f, ins);
    ReturnOperand(f, ins);
    MovPcEffect(f, ins, operand.sop, operand.sco);
    PcSet(f, m, mode, pc, n, operand.sop);
  }

  lemma LinkEffect(f: State, m: seq<byte>, mode: nat, pc: word, n: word)
    requires At(f, m, mode, pc, n) && pc % 4 == 0 && pc + 4 < 0x1_0000_0000
    ensures At(Linked(f), m, mode, pc, n) && LrOf(Linked(f)) == pc && FlagsOfState(Linked(f)) == FlagsOfState(f)
  {
    PcViewAligned(pc);
  }

  lemma DisplaceEffect(f: State, m: seq<byte>, mode: nat, pc: word, n: word, offset: int)
    requires At(f, m, mode, pc, n)
    requires pc % 4 == 0 && pc + 4 < 0x1_0000_0000 && 0 <= pc + 4 + offset < 0x1_0000_0000
    ensures At(Displaced(f, offset), m, mode, pc + 4 + offset, n) && LrOf(Displaced(f, offset)) == LrOf(f)
  {
    PcViewAligned(pc);
    assert Displaced(f, offset).regs == f.regs[PC := pc + 4 + offset];
  }

  lemma JumpEffect(f: State, ins: word, m: seq<byte>, mode: nat, pc: word, n: word, cond: byte, link: bool, words: int)
    requires At(f, m, mode, pc, n) && IsJump(ins, cond, link, words)
    requires pc % 4 == 0 && pc + 4 < 0x1_0000_0000 && 0 <= pc + 4 + 4 * words < 0x1_0000_0000
    ensures var t := AfterBranch(f, ins).state;
            var taken := CondPassed(cond, FlagsOfState(f));
            && At(t, m, mode, if taken then pc + 4 + 4 * words else pc, n)
            && (taken && link ==> LrOf(t) == pc)
  {
    if CondPassed(cond, FlagsOfState(f)) {
      BranchInTwoParts(f, ins);
      LinkEffect(f, m, mode, pc, n);
      DisplaceEffect(if link then Linked(f) else f, m, mode, pc, n, 4 * words);
    }
  }

  // ---- Steps --------------------------------------------------------------

  /** The program is in memory at a word-aligned address. */
  ghost predicate Loaded(m: seq<byte>, base: nat) {
    && base % 4 == 0 && base + 20 <= |m| && base + 32 <= 0x1_0000_0000
    && FromBytes(Window(m, base, 4)) == SUBS_R0
    && FromBytes(Window(m, base + 4, 4)) == RETURN
    && FromBytes(Window(m, base + 8, 4)) == MOV_R0
    && FromBytes(Window(m, base + 12, 4)) == BL_DECR
    && FromBytes(Window(m, base + 16, 4)) == BNE_LOOP
  }

  /** The program as bytes. */
  function Image(): seq<byte> {
    ToBytes(SUBS_R0, 4) + ToBytes(RETURN, 4) + ToBytes(MOV_R0, 4) + ToBytes(BL_DECR, 4) + ToBytes(BNE_LOOP, 4)
  }

  /** Wherever those bytes stand at a word boundary, the program is loaded. */
  lemma ImageIsLoaded(prefix: seq<byte>, suffix: seq<byte>)
    requires |prefix| % 4 == 0 && |prefix| + 32 <= 0x1_0000_0000
    ensures Loaded(prefix + Image() + suffix, |prefix|)
  {
    var subs, ret, mov := ToBytes(SUBS_R0, 4), ToBytes(RETURN, 4), ToBytes(MOV_R0, 4);
    FivePieces(prefix, subs, ret, mov, ToBytes(BL_DECR, 4), ToBytes(BNE_LOOP, 4), suffix);
    Pow2Of32();
    BytesRoundTrip(SUBS_R0, 4);
    BytesRoundTrip(RETURN, 4);
    BytesRoundTrip(MOV_R0, 4);
    BytesRoundTrip(BL_DECR, 4);
    BytesRoundTrip(BNE_LOOP, 4);
  }

  lemma FivePieces(
      p: seq<byte>, a: seq<byte>, b: seq<byte>, c: seq<byte>, d: seq<byte>, e: seq<byte>, q: seq<byte>)
    requires |a| == |b| == |c| == |d| == |e| == 4
    ensures var m := p + (a + b + c + d + e) + q;
            && Window(m, |p|, 4) == a && Window(m, |p| + 4, 4) == b && Window(m, |p| + 8, 4) == c
            && Window(m, |p| + 12, 4) == d && Window(m, |p| + 16, 4) == e
  {
  }

  lemma FetchAligned(s: State, a: word)
    requires s.regs[PC] == a && a % 4 == 0 && a + 4 < 0x1_0000_0000
    ensures FetchAddress(s) == a
    ensures AfterFetch(s) == s.(regs := s.regs[PC := a + 4], cycles := Wrap(s.cycles + 1))
  {
    PcViewAligned(a);
  }

  /** A step that fetches a known word of a modelled class. */
  lemma StepOf(s: State, m: seq<byte>, mode: nat, a: word, r0: word, ins: word)
    requires At(s, m, mode, a, r0) && a % 4 == 0 && a + 4 < 0x1_0000_0000
    requires a + 4 <= |m| && FromBytes(Window(m, a, 4)) == ins && Modelled(ins)
    ensures CanStep(s) && StepOrStay(s) == Perform(AfterFetch(s), ins).state
    ensures At(AfterFetch(s), m, mode, a + 4, r0) && LrOf(AfterFetch(s)) == LrOf(s)
    ensures FlagsOfState(AfterFetch(s)) == FlagsOfState(s)
  {
    FetchAligned(s, a);
    FetchedFrom(s, a, ins);
    PcApart(s.regs, a + 4);
  }

  /** Advancing the pc leaves the other registers alone. */
  lemma PcApart(regs: RegArray, v: word)
    ensures var r := regs[PC := v];
            r[0] == regs[0] && r[CPSR] == regs[CPSR] && Mode(r) == Mode(regs) && ReadReg(r, LR) == ReadReg(regs, LR)
  {
  }

  lemma FetchedFrom(s: State, a: word, ins: word)
    requires FetchAddress(s) == a && a + 4 <= |s.mem| && FromBytes(Window(s.mem, a, 4)) == ins && Modelled(ins)
    ensures CanStep(s) && FetchedWord(s) == ins
  {
  }

  lemma StepMov(s: State, m: seq<byte>, mode: nat, base: nat, r0: word, ins: word)
    requires Loaded(m, base) && At(s, m, mode, base + 8, r0) && ins == MOV_R0
    ensures CanStep(s) && At(StepOrStay(s), m, mode, base + 12, 5)
  {
    Encodings();
    StepOf(s, m, mode, base + 8, r0, ins);
    MovEffect(AfterFetch(s), ins, m, mode, base + 12, r0, 5);
  }

  lemma StepBl(s: State, m: seq<byte>, mode: nat, base: nat, n: word, ins: word)
    requires Loaded(m, base) && At(s, m, mode, base + 12, n) && ins == BL_DECR
    ensures CanStep(s) && At(StepOrStay(s), m, mode, base, n) && LrOf(StepOrStay(s)) == base + 16
  {
    Encodings();
    StepOf(s, m, mode, base + 12, n, ins);
    JumpEffect(AfterFetch(s), ins, m, mode, base + 16, n, 14, true, -5);
  }

  lemma StepSubs(s: State, m: seq<byte>, mode: nat, base: nat, n: word, ins: word)
    requires Loaded(m, base) && At(s, m, mode, base, n) && ins == SUBS_R0
    ensures CanStep(s) && At(StepOrStay(s), m, mode, base + 4, Rounds(n) - 1)
    ensures LrOf(StepOrStay(s)) == LrOf(s)
    ensures FlagsOfState(StepOrStay(s)).z <==> Rounds(n) - 1 == 0
  {
    Encodings();
    StepOf(s, m, mode, base, n, ins);
    SubsEffect(AfterFetch(s), ins, m, mode, base + 4, n);
  }

  lemma StepReturn(s: State, m: seq<byte>, mode: nat, base: nat, n: word, ins: word)
    requires Loaded(m, base) && At(s, m, mode, base + 4, n) && LrOf(s) == base + 16 && ins == RETURN
    ensures CanStep(s) && At(StepOrStay(s), m, mode, base + 16, n)
    ensures FlagsOfState(StepOrStay(s)) == FlagsOfState(s)
  {
    Encodings();
    StepOf(s, m, mode, base + 4, n, ins);
    ReturnEffect(AfterFetch(s), ins, m, mode, base + 8, n);
  }

  lemma StepBne(s: State, m: seq<byte>, mode: nat, base: nat, n: word, ins: word)
    requires Loaded(m, base) && At(s, m, mode, base + 16, n) && ins == BNE_LOOP
    ensures CanStep(s)
    ensures At(StepOrStay(s), m, mode, if FlagsOfState(s).z then base + 20 else base + 12, n)
  {
    Encodings();
    StepOf(s, m, mode, base + 16, n, ins);
    JumpEffect(AfterFetch(s), ins, m, mode, base + 20, n, 1, false, -3);
  }

  // ---- The whole program --------------------------------------------------

  /** A state that can step and has not reached the end. */
  ghost function Running(stop: nat): State -> bool {
    (x: State) => CanStep(x) && x.regs[PC] != stop
  }

  /** At the loop head with k rounds to go, or at the end with none. */
  ghost predicate AtHead(x: State, m: seq<byte>, mode: nat, base: nat, k: nat) {
    if k == 0 then At(x, m, mode, base + 20, 0)
    else k <= 0x1_0000_0000 && At(x, m, mode, base + 12, if k == 0x1_0000_0000 then 0 else k)
  }

  ghost function Head(m: seq<byte>, mode: nat, base: nat): (State, nat) -> bool {
    (x: State, k: nat) => AtHead(x, m, mode, base, k)
  }

  /** One round of the loop: branch and link, subtract, return, test. */
  lemma Round(s: State, m: seq<byte>, mode: nat, base: nat, k: nat)
    requires Loaded(m, base) && 0 < k && AtHead(s, m, mode, base, k)
    ensures Throughout(Running(base + 20), StepOrStay, s, 4)
    ensures AtHead(Iterate(StepOrStay, s, 4), m, mode, base, k - 1)
  {
    var n: word := if k == 0x1_0000_0000 then 0 else k;
    var s1 := StepOrStay(s);
    StepBl(s, m, mode, base, n, BL_DECR);
    var s2 := StepOrStay(s1);
    StepSubs(s1, m, mode, base, n, SUBS_R0);
    var s3 := StepOrStay(s2);
    StepReturn(s2, m, mode, base, k - 1, RETURN);
    StepBne(s3, m, mode, base, k - 1, BNE_LOOP);
    assert AtHead(StepOrStay(s3), m, mode, base, k - 1);
    FourSteps(Running(base + 20), StepOrStay, s);
  }

  lemma RoundFromHead(x: State, m: seq<byte>, mode: nat, base: nat, k: nat)
    requires Loaded(m, base)
    ensures LeadsOn(Head(m, mode, base), Running(base + 20), StepOrStay, x, k)
  {
    if 0 < k && AtHead(x, m, mode, base, k) {
      Round(x, m, mode, base, k);
    }
  }

  /**
    From the loop head with n in r0 the program reaches its end for the first time after
    4 steps a round, n rounds from n >= 1 and 2^32 from 0, with r0 at zero and the
    memory and the mode as they were.
   */
  lemma LoopTerminates(s: State, m: seq<byte>, mode: nat, base: nat, n: word)
    requires Loaded(m, base) && At(s, m, mode, base + 12, n)
    ensures Throughout(Running(base + 20), StepOrStay, s, 4 * Rounds(n))
    ensures At(Iterate(StepOrStay, s, 4 * Rounds(n)), m, mode, base + 20, 0)
  {
    var head, running := Head(m, mode, base), Running(base + 20);
    forall x, k: nat
      ensures LeadsOn(head, running, StepOrStay, x, k)
    {
      RoundFromHead(x, m, mode, base, k);
    }
    assert head(s, Rounds(n));
    RoundsOfFour(head, running, StepOrStay, s, Rounds(n));
  }

  /** Example 1 from its first instruction: 21 steps, whatever the registers held. */
  lemma Example1Terminates(s: State, m: seq<byte>, mode: nat, base: nat, r0: word)
    requires Loaded(m, base) && At(s, m, mode, base + 8, r0)
    ensures CanRun(s, 21) && At(Steps(s, 21), m, mode, base + 20, 0)
  {
    StepMov(s, m, mode, base, r0, MOV_R0);
    LoopTerminates(StepOrStay(s), m, mode, base, 5);
    OneThenMore(Running(base + 20), StepOrStay, s, 20);
  }
}
