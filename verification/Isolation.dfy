/** What no run of data-processing and branch instructions can touch. */
module Isolation {
  import opened Words
  import opened ArmConstants
  import opened StatusFlags
  import opened Util
  import opened Registers
  import opened RegisterRuns
  import opened ArmCore
  import opened DataProcessing
  import opened Instruction
  import opened Runs

  /** The registers an instruction can name in a mode, its SPSR and the CPSR. */
  predicate Visible(mode: nat, nm: Name) {
    match nm
    case R(n) => n <= 7 || n == PC || (if n <= 12 then mode != FIQ else mode == USR || mode == SYS)
    case Banked(o, n) => OwnerOf(mode) == Some(o)
    case Cpsr => true
    case Spsr(o) => OwnerOf(mode) == Some(o)
  }

  /** r9 of FIQ sits in the slot of r13 of Abort. */
  predicate Aliased(mode: nat, nm: Name) {
    mode == ABT && nm == Banked(Fiq, 9)
  }

  /** Same memory, same CPSR but for the flags, same registers of every other mode. */
  ghost predicate Isolates(s: State, t: State) {
    && t.mem == s.mem
    && t.regs[CPSR] % 0x1000_0000 == s.regs[CPSR] % 0x1000_0000
    && Mode(t.regs) == Mode(s.regs)
    && (forall nm :: IsName(nm) && !Visible(Mode(s.regs), nm) && !Aliased(Mode(s.regs), nm)
          ==> t.regs[SlotOf(nm)] == s.regs[SlotOf(nm)])
  }

  lemma NamedIsVisible(mode: nat, reg: byte)
    ensures NameOf(mode, reg).Some? ==> Visible(mode, NameOf(mode, reg).value)
    ensures SpsrName(mode).Some? ==> Visible(mode, SpsrName(mode).value)
  {
  }

  /** Writing a visible register other than the CPSR isolates. */
  lemma WriteIsolates(s: State, name: Option<Name>, v: word)
    requires name.Some? ==> IsName(name.value) && name.value != Cpsr && Visible(Mode(s.regs), name.value)
    ensures Isolates(s, s.(regs := WriteName(s.regs, name, v)))
  {
    var regs' := WriteName(s.regs, name, v);
    if name.Some? {
      SlotsSeparate(Cpsr, name.value);
      forall nm | IsName(nm) && !Visible(Mode(s.regs), nm) && !Aliased(Mode(s.regs), nm)
        ensures regs'[SlotOf(nm)] == s.regs[SlotOf(nm)]
      {
        SlotsSeparate(nm, name.value);
      }
    }
  }

  lemma WriteRegIsolates(s: State, reg: byte, v: word)
    requires reg <= 15
    ensures Isolates(s, s.(regs := WriteReg(s.regs, reg, v)))
  {
    NamedIsVisible(Mode(s.regs), reg);
    WriteIsolates(s, NameOf(Mode(s.regs), reg), v);
  }

  lemma StatusIsolates(s: State, f: Flags)
    ensures Isolates(s, s.(regs := s.regs[CPSR := WithFlags(s.regs[CPSR], f)]))
  {
    FlagsRoundTrip(s.regs[CPSR], f);
    forall nm | IsName(nm) && !Visible(Mode(s.regs), nm)
      ensures SlotOf(nm) != CPSR
    {
      SlotsSeparate(nm, Cpsr);
    }
  }

  lemma IsolatesTransitive(s: State, t: State, u: State)
    requires Isolates(s, t) && Isolates(t, u)
    ensures Isolates(s, u)
  {
  }

  lemma ExecutedIsolates(s: State, ins: word, sop: word, sco: byte)
    ensures Isolates(s, Executed(s, ins, sop, sco).state)
  {
    var rd, res := RdField(ins), ResultOf(s, ins, sop);
    var t := if IsTest(OpcodeField(ins)) then s else s.(regs := WriteReg(s.regs, rd, res));
    WriteRegIsolates(s, rd, res);
    assert Isolates(s, t);
    LowRegistersKeepCpsr(s.regs, rd, res);
    var spsr := t.(regs := SpsrSet(t.regs, s.regs[CPSR]));
    NamedIsVisible(Mode(t.regs), 0);
    WriteIsolates(t, SpsrName(Mode(t.regs)), s.regs[CPSR]);
    IsolatesTransitive(s, t, spsr);
    var f := FlagsOf(OpcodeField(ins), CoreRead(s.regs, RnField(ins)), sop, res, sco, FlagsOfState(s));
    StatusIsolates(t, f);
    IsolatesTransitive(s, t, t.(regs := t.regs[CPSR := WithFlags(t.regs[CPSR], f)]));
  }

  /**
    The exception is real, and exact: in Abort mode an instruction keeps r9 of FIQ unless
    it writes another value to r13.
   */
  lemma AbortKeepsFiqR9(s: State, ins: word, sop: word, sco: byte)
    requires Mode(s.regs) == ABT
    ensures Executed(s, ins, sop, sco).state.regs[SlotOf(Banked(Fiq, 9))] == s.regs[SlotOf(Banked(Fiq, 9))]
            <==> !Passes(s, ins) || IsTest(OpcodeField(ins)) || RdField(ins) != 13
                 || ResultOf(s, ins, sop) == ReadReg(s.regs, 13)
  {
    LowRegistersKeepCpsr(s.regs, RdField(ins), ResultOf(s, ins, sop));
    AbortWrites(s.regs, RdField(ins), ResultOf(s, ins, sop));
  }

  lemma AbortWrites(regs: RegArray, reg: byte, v: word)
    requires Mode(regs) == ABT && reg <= 15
    ensures WriteReg(regs, reg, v)[SlotOf(Banked(Fiq, 9))] == if reg == 13 then v else regs[SlotOf(Banked(Fiq, 9))]
    ensures ReadReg(regs, 13) == regs[SlotOf(Banked(Fiq, 9))]
  {
  }

  /** A branch, linking or not, keeps it always. */
  lemma BranchKeepsFiqR9(s: State, ins: word)
    requires Mode(s.regs) == ABT
    ensures AfterBranch(s, ins).state.regs[SlotOf(Banked(Fiq, 9))] == s.regs[SlotOf(Banked(Fiq, 9))]
  {
  }

  lemma BranchIsolates(s: State, ins: word)
    ensures Isolates(s, AfterBranch(s, ins).state)
  {
    if Passes(s, ins) {
      BranchInTwoParts(s, ins);
      var offset := 4 * Signed24(ins % 0x100_0000);
      var t := if ins / 0x100_0000 % 2 == 1 then Linked(s) else s;
      WriteRegIsolates(s, LR, Wrap(CoreRead(s.regs, PC) - 4));
      assert Isolates(s, t);
      WriteRegIsolates(t, PC, Wrap(CoreRead(t.regs, PC) + offset));
      IsolatesTransitive(s, t, Displaced(t, offset));
    }
  }

  lemma PerformIsolates(s: State, ins: word)
    requires Modelled(ins)
    ensures Isolates(s, Perform(s, ins).state)
  {
    if ClassField(ins) == 0 {
      var operand := RegisterOperand(s, ins);
      ExecutedIsolates(s, ins, operand.sop, operand.sco);
    } else if ClassField(ins) == 1 {
      var operand := ImmediateOperand(s, ins);
      ExecutedIsolates(s, ins, operand.sop, operand.sco);
    } else {
      BranchIsolates(s, ins);
    }
  }

  /** A sequence of instruction words handed to the handlers. */
  function RunWords(s: State, code: seq<word>): State
    requires forall i :: 0 <= i < |code| ==> Modelled(code[i])
    decreases |code|
  {
    if code == [] then s else RunWords(Perform(s, code[0]).state, code[1..])
  }

  /** Every sequence of data-processing and branch words isolates. */
  lemma {:induction false} RunWordsIsolates(s: State, code: seq<word>)
    requires forall i :: 0 <= i < |code| ==> Modelled(code[i])
    ensures Isolates(s, RunWords(s, code))
    decreases |code|
  {
    if code != [] {
      var t := Perform(s, code[0]).state;
      PerformIsolates(s, code[0]);
      RunWordsIsolates(t, code[1..]);
      IsolatesTransitive(s, t, RunWords(t, code[1..]));
    }
  }

  /** The slots above 16 that an instruction in a mode can change or r8 to r12 of FIQ occupy. */
  function OwnSlots(mode: nat): set<nat> {
    if mode == 0x13 then {17, 18, 19} else if mode == 0x17 then {20, 21, 22} else if mode == 0x1b then {23, 24, 25}
    else if mode == 0x12 then {26, 27, 28} else if mode == 0x11 then {20, 29, 31, 32, 33, 34, 35, 36} else {}
  }

  /** The name of a slot above the CPSR; slot 20 has two. */
  function NameAt(slot: nat): Name
    requires 17 <= slot <= 36 && slot != 30
  {
    if slot == 29 then Banked(Fiq, 8) else if 31 <= slot <= 33 then Banked(Fiq, slot - 21)
    else
      var (o, base) := if slot <= 19 then (Svc, 17) else if slot <= 22 then (Abt, 20) else if slot <= 25 then (Und, 23)
                       else if slot <= 28 then (Irq, 26) else (Fiq, 34);
      if slot == base + 2 then Spsr(o) else Banked(o, 13 + slot - base)
  }

  /** Isolation slot by slot: what a mode does not own stays, and so do the user registers it replaces. */
  lemma PrivateSlotsKept(s: State, t: State, slot: nat)
    requires Isolates(s, t) && slot < 37 && slot != 30
    ensures var mode := s.regs[16] % 32;
            && (17 <= slot && slot !in OwnSlots(mode) ==> t.regs[slot] == s.regs[slot])
            && (13 <= slot <= 14 && mode != 0x10 && mode != 0x1f ==> t.regs[slot] == s.regs[slot])
            && (8 <= slot <= 12 && mode == 0x11 ==> t.regs[slot] == s.regs[slot])
  {
    if slot >= 17 {
      var nm := NameAt(slot);
      assert IsName(nm) && SlotOf(nm) == slot;
    } else if 8 <= slot <= 14 {
      assert IsName(R(slot)) && SlotOf(R(slot)) == slot;
    }
  }

  // ---- Runs of arm_step ---------------------------------------------------

  function StepOrStay(s: State): State {
    if CanStep(s) then Step(s).state else s
  }

  function Steps(s: State, n: nat): State {
    Iterate(StepOrStay, s, n)
  }

  /** Each of n steps fetches a word in memory that decodes to a modelled class. */
  ghost predicate CanRun(s: State, n: nat) {
    Throughout(CanStep, StepOrStay, s, n)
  }

  lemma StepIsolates(s: State)
    requires CanStep(s)
    ensures Isolates(s, StepOrStay(s))
  {
    var fetched := AfterFetch(s);
    WriteRegIsolates(s, PC, Wrap(FetchAddress(s) + 4));
    assert Isolates(s, fetched);
    PerformIsolates(fetched, FetchedWord(s));
    IsolatesTransitive(s, fetched, Step(s).state);
  }

  /** Runs of arm_step isolate as well. */
  lemma StepsIsolate(s: State, n: nat)
    requires CanRun(s, n)
    ensures Isolates(s, Steps(s, n))
  {
    forall x | CanStep(x)
      ensures Isolates(x, StepOrStay(x))
    {
      StepIsolates(x);
    }
    RelationKept(Isolates, CanStep, StepOrStay, s, n);
  }
}
