/**
  Whole runs of the register file against independent architectural registers.
 */
module RegisterRuns {
  import opened Words
  import opened ArmConstants
  import opened Registers

  // ---- Registers in their slots -------------------------------------------

  /** The number reads and writes one slot. */
  ghost predicate InSlot(regs: RegArray, reg: byte, v: word, slot: nat)
    requires slot < 37
  {
    ReadReg(regs, reg) == regs[slot] && WriteReg(regs, reg, v) == regs[slot := v]
  }

  /** The number reads zero and its writes are lost. */
  ghost predicate InNoSlot(regs: RegArray, reg: byte, v: word) {
    ReadReg(regs, reg) == 0 && WriteReg(regs, reg, v) == regs
  }

  /**
    The shared registers are in the slots of their own numbers: r0 to r7, the pc and the
    CPSR in every mode, r8 to r12 outside FIQ mode, r13 and r14 in User and System mode.
   */
  lemma SharedInPlace(regs: RegArray, reg: byte, v: word)
    requires var mode := regs[16] % 32;
             reg <= 7 || reg == 15 || reg == 16
             || (8 <= reg <= 12 && mode != 0x11) || (13 <= reg <= 14 && (mode == 0x10 || mode == 0x1f))
    ensures InSlot(regs, reg, v, reg)
  {
  }

  /** r13, r14 and the SPSR of the exception modes, and r8 to r12 of FIQ, which no write reaches. */
  lemma PrivateInPlace(regs: RegArray, v: word)
    ensures var mode := regs[16] % 32;
            && (mode == 0x13 ==> InSlot(regs, 13, v, 17) && InSlot(regs, 14, v, 18) && InSlot(regs, 17, v, 19))
            && (mode == 0x17 ==> InSlot(regs, 13, v, 20) && InSlot(regs, 14, v, 21) && InSlot(regs, 17, v, 22))
            && (mode == 0x1b ==> InSlot(regs, 13, v, 23) && InSlot(regs, 14, v, 24) && InSlot(regs, 17, v, 25))
            && (mode == 0x12 ==> InSlot(regs, 13, v, 26) && InSlot(regs, 14, v, 27) && InSlot(regs, 17, v, 28))
            && (mode == 0x11 ==> InSlot(regs, 13, v, 34) && InSlot(regs, 14, v, 35) && InSlot(regs, 17, v, 36))
    ensures regs[16] % 32 == 0x11 ==>
              && ReadReg(regs, 8) == regs[29] && ReadReg(regs, 9) == regs[20] && ReadReg(regs, 10) == regs[31]
              && ReadReg(regs, 11) == regs[32] && ReadReg(regs, 12) == regs[33]
              && forall reg: byte :: 8 <= reg <= 12 ==> WriteReg(regs, reg, v) == regs
  {
  }

  /**
    The numbers without a register: above 17, the SPSR of User and System mode, and in
    the unused modes the SPSR and r13 and r14 too.
   */
  lemma NotInPlace(regs: RegArray, reg: byte, v: word)
    requires reg >= 13 && reg != 15 && reg != 16
    requires var mode := regs[16] % 32;
             reg > 17 || (reg == 17 && (mode == 0x10 || mode == 0x1f))
             || mode !in {0x10, 0x11, 0x12, 0x13, 0x17, 0x1b, 0x1f}
    ensures InNoSlot(regs, reg, v)
  {
  }

  /** The user view is slots 0 to 16, whatever the mode; the SPSR view is number 17. */
  lemma UserInPlace(regs: RegArray, reg: byte, v: word)
    ensures reg <= 16 ==> UsrValue(regs, reg) == regs[reg] && WriteUsr(regs, reg, v) == regs[reg := v]
    ensures reg > 16 ==> UsrValue(regs, reg) == 0 && WriteUsr(regs, reg, v) == regs
    ensures SpsrValue(regs) == ReadReg(regs, 17) && SpsrSet(regs, v) == WriteReg(regs, 17, v)
  {
  }

  // ---- Bank layout --------------------------------------------------------

  /** Slots are in range and distinct names have distinct slots, but for one pair. */
  lemma SlotsSeparate(a: Name, b: Name)
    requires IsName(a) && IsName(b)
    ensures SlotOf(a) < 37
    ensures SlotOf(a) == SlotOf(b) <==>
            a == b || {a, b} == {Banked(Fiq, 9), Banked(Abt, 13)}
  {
    assert {a, b} == {Banked(Fiq, 9), Banked(Abt, 13)} <==>
           (a == Banked(Fiq, 9) && b == Banked(Abt, 13)) || (a == Banked(Abt, 13) && b == Banked(Fiq, 9)) by {
      if {a, b} == {Banked(Fiq, 9), Banked(Abt, 13)} {
        assert Banked(Fiq, 9) in {a, b} && Banked(Abt, 13) in {a, b};
      }
    }
  }

  /** A register number reaches the same register in two modes exactly when A2.3 shares it. */
  lemma SharedAcrossModes(m1: nat, m2: nat, reg: byte)
    requires ValidMode(m1) && ValidMode(m2) && reg <= 16
    ensures NameOf(m1, reg) == NameOf(m2, reg) <==>
            m1 == m2 || reg <= 7 || reg == PC || reg == CPSR
            || (reg <= 12 && m1 != FIQ && m2 != FIQ)
            || (OwnerOf(m1).None? && OwnerOf(m2).None?)
  {
  }

  /**
    Number 17 reads the saved status register of the mode and writes its slot only;
    slot 17, which is r13 of Supervisor, is never reached through it.
   */
  lemma SeventeenIsSpsr(regs: RegArray, v: word, slot: nat)
    requires slot < 37
    ensures ReadReg(regs, 17) == SpsrValue(regs)
    ensures WriteReg(regs, 17, v)[slot] ==
            match OwnerOf(Mode(regs))
            case Some(o) => (if slot == SlotOf(Spsr(o)) then v else regs[slot])
            case None => regs[slot]
    ensures WriteReg(regs, 17, v)[17] == regs[17]
    ensures forall o :: SlotOf(Spsr(o)) != 17
    ensures ValidMode(Mode(regs)) ==>
              (WriteReg(regs, 17, v) == regs && ReadReg(regs, 17) == 0)
              || (Mode(regs) != USR && Mode(regs) != SYS && ReadReg(WriteReg(regs, 17, v), 17) == v)
  {
    if OwnerOf(Mode(regs)).Some? {
      SlotsSeparate(Spsr(OwnerOf(Mode(regs)).value), Cpsr);
    }
  }

  // ---- Runs ---------------------------------------------------------------

  datatype RegOp = Write(reg: byte, v: word) | WriteUser(reg: byte, v: word) | SetCpsr(v: word) | SetSpsr(v: word)

  function AfterOp(regs: RegArray, op: RegOp): RegArray {
    match op
    case Write(reg, v) => WriteReg(regs, reg, v)
    case WriteUser(reg, v) => WriteUsr(regs, reg, v)
    case SetCpsr(v) => regs[CPSR := v]
    case SetSpsr(v) => SpsrSet(regs, v)
  }

  function Run(regs: RegArray, ops: seq<RegOp>): RegArray
    decreases |ops|
  {
    if ops == [] then regs else Run(AfterOp(regs, ops[0]), ops[1..])
  }

  /** The reference: one independent value for each architectural register. */
  type Arch = Name -> word

  function ArchMode(m: Arch): nat {
    m(Cpsr) % 32
  }

  /** The register an operation is addressed to, with the value it carries. */
  function Target(m: Arch, op: RegOp): Option<Name> {
    match op
    case Write(reg, v) => NameOf(ArchMode(m), reg)
    case WriteUser(reg, v) => UsrName(reg)
    case SetCpsr(v) => Some(Cpsr)
    case SetSpsr(v) => SpsrName(ArchMode(m))
  }

  function ArchStep(m: Arch, op: RegOp): Arch {
    var t := Target(m, op);
    (nm: Name) => if t == Some(nm) then op.v else m(nm)
  }

  function ArchRun(m: Arch, ops: seq<RegOp>): Arch
    decreases |ops|
  {
    if ops == [] then m else ArchRun(ArchStep(m, ops[0]), ops[1..])
  }

  /** The array holds every register but r8 to r12 of FIQ. */
  ghost predicate Represents(regs: RegArray, m: Arch) {
    forall nm :: IsName(nm) && !FiqHigh(nm) ==> regs[SlotOf(nm)] == m(nm)
  }

  /** What the array holds initially, read by name. */
  function Initial(regs: RegArray): Arch {
    (nm: Name) => if IsName(nm) then regs[SlotOf(nm)] else 0
  }

  /** The slots that only r8, r10, r11 and r12 of FIQ name, and the one nothing names. */
  predicate Unwritable(slot: nat) {
    slot in {R8_FIQ, 30, R10_FIQ, R11_FIQ, R12_FIQ}
  }

  lemma StepRefines(regs: RegArray, m: Arch, op: RegOp)
    requires Represents(regs, m)
    ensures Represents(AfterOp(regs, op), ArchStep(m, op))
    ensures forall s :: 0 <= s < 37 && Unwritable(s) ==> AfterOp(regs, op)[s] == regs[s]
  {
    assert IsName(Cpsr) && regs[SlotOf(Cpsr)] == m(Cpsr);
    var t := Target(m, op);
    assert t.Some? ==> IsName(t.value);
    var regs' := AfterOp(regs, op);
    assert regs' == WriteName(regs, t, op.v);
    forall nm | IsName(nm) && !FiqHigh(nm)
      ensures regs'[SlotOf(nm)] == ArchStep(m, op)(nm)
    {
      if t.Some? {
        SlotsSeparate(nm, t.value);
      }
    }
  }

  /**
    Over every run, from any array and through any modes, the array keeps behaving
    like independent architectural registers.
   */
  lemma {:induction false} RunRefines(regs: RegArray, m: Arch, ops: seq<RegOp>)
    requires Represents(regs, m)
    ensures Represents(Run(regs, ops), ArchRun(m, ops))
    ensures forall s :: 0 <= s < 37 && Unwritable(s) ==> Run(regs, ops)[s] == regs[s]
    decreases |ops|
  {
    if ops != [] {
      StepRefines(regs, m, ops[0]);
      RunRefines(AfterOp(regs, ops[0]), ArchStep(m, ops[0]), ops[1..]);
    }
  }

  /**
    Every read after every run: the last value written to that architectural register;
    for r9 of FIQ the last value written to r13 of Abort; for r8 and r10 to r12 of FIQ
    the initial contents; 0 where the mode has no such register.
   */
  lemma ReadAfterRun(regs: RegArray, ops: seq<RegOp>, reg: byte)
    ensures var m := ArchRun(Initial(regs), ops);
            ReadReg(Run(regs, ops), reg) ==
            match NameOf(ArchMode(m), reg)
            case None => 0
            case Some(nm) =>
              if !FiqHigh(nm) then m(nm)
              else if reg == 9 then m(Banked(Abt, 13))
              else Initial(regs)(nm)
    ensures UsrValue(Run(regs, ops), reg) ==
            match UsrName(reg)
            case None => 0
            case Some(nm) => ArchRun(Initial(regs), ops)(nm)
  {
    RunRefines(regs, Initial(regs), ops);
    var m, regs' := ArchRun(Initial(regs), ops), Run(regs, ops);
    assert IsName(Cpsr) && regs'[SlotOf(Cpsr)] == m(Cpsr);
    var name := NameOf(Mode(regs'), reg);
    if name.Some? && FiqHigh(name.value) {
      assert name.value == Banked(Fiq, reg);
      if reg == 9 {
        assert IsName(Banked(Abt, 13));
      } else {
        assert Unwritable(SlotOf(name.value));
      }
    }
  }

  /** The last operation addressed to a register decides its value in the reference. */
  lemma {:induction false} LastWriteWins(m: Arch, ops: seq<RegOp>, nm: Name, k: nat)
    requires k < |ops| && Target(ArchRun(m, ops[..k]), ops[k]) == Some(nm)
    requires forall j :: k < j < |ops| ==> Target(ArchRun(m, ops[..j]), ops[j]) != Some(nm)
    ensures ArchRun(m, ops)(nm) == ops[k].v
    decreases |ops|
  {
    var last := |ops| - 1;
    LastStep(m, ops);
    if k < last {
      var front := ops[..last];
      assert front[..k] == ops[..k];
      forall j | k < j < |front|
        ensures Target(ArchRun(m, front[..j]), front[j]) != Some(nm)
      {
        assert front[..j] == ops[..j];
      }
      LastWriteWins(m, front, nm, k);
    }
  }

  /** A register no operation is addressed to keeps its initial value in the reference. */
  lemma {:induction false} UnaddressedKeepsValue(m: Arch, ops: seq<RegOp>, nm: Name)
    requires forall j :: 0 <= j < |ops| ==> Target(ArchRun(m, ops[..j]), ops[j]) != Some(nm)
    ensures ArchRun(m, ops)(nm) == m(nm)
    decreases |ops|
  {
    if ops != [] {
      var last := |ops| - 1;
      var front := ops[..last];
      LastStep(m, ops);
      forall j | 0 <= j < |front|
        ensures Target(ArchRun(m, front[..j]), front[j]) != Some(nm)
      {
        assert front[..j] == ops[..j];
      }
      UnaddressedKeepsValue(m, front, nm);
    }
  }

  lemma LastStep(m: Arch, ops: seq<RegOp>)
    requires ops != []
    ensures ArchRun(m, ops) == ArchStep(ArchRun(m, ops[..|ops| - 1]), ops[|ops| - 1])
  {
    var last := |ops| - 1;
    ArchRunSplit(m, ops, last);
    assert ops[last..] == [ops[last]];
    assert [ops[last]][1..] == [];
  }

  lemma {:induction false} ArchRunSplit(m: Arch, ops: seq<RegOp>, k: nat)
    requires k <= |ops|
    ensures ArchRun(m, ops) == ArchRun(ArchRun(m, ops[..k]), ops[k..])
    decreases k
  {
    if k == 0 {
      assert ops[..0] == [] && ops[0..] == ops;
    } else {
      ArchRunSplit(ArchStep(m, ops[0]), ops[1..], k - 1);
      assert ops[..k][1..] == ops[1..][..k - 1];
      assert ops[1..][k - 1..] == ops[k..];
    }
  }

  // ---- Where the code departs from the reference --------------------------

  /**
    Reading back a register just written gives the value written, except exactly for
    r8 to r12 in FIQ mode, where the write is lost unless it changes nothing.
   */
  lemma ReadBack(regs: RegArray, reg: byte, v: word)
    requires NameOf(Mode(regs), reg).Some?
    ensures ReadReg(WriteReg(regs, reg, v), reg) == v <==>
            !(Mode(regs) == FIQ && 8 <= reg <= 12) || ReadReg(regs, reg) == v
  {
    if reg != CPSR {
      SlotsSeparate(NameOf(Mode(regs), reg).value, Cpsr);
    }
  }

  /** The shared slot seen from outside: r9 of FIQ reads back r13 of Abort. */
  lemma FiqR9ReadsAbortR13(regs: RegArray, v: word, cpsr: word)
    requires Mode(regs) == ABT && cpsr % 32 == FIQ
    ensures ReadReg(Run(regs, [Write(13, v), SetCpsr(cpsr)]), 9) == v
  {
    var a := AfterOp(regs, Write(13, v));
    var b := AfterOp(a, SetCpsr(cpsr));
    assert Run(regs, [Write(13, v), SetCpsr(cpsr)]) == b by {
      assert [Write(13, v), SetCpsr(cpsr)][1..] == [SetCpsr(cpsr)];
      assert [SetCpsr(cpsr)][1..] == [];
      assert Run(b, []) == b;
      assert Run(a, [SetCpsr(cpsr)]) == b;
    }
  }
}
