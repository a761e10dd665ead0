/** Long additions and subtractions as programs: runs of one ADDS and ADCS words, or one SUBS and SBCS words. */
module LongPrograms {
  import opened Words
  import opened ArmConstants
  import opened StatusFlags
  import opened Shifter
  import opened Util
  import opened Registers
  import opened RegisterRuns
  import opened ArmCore
  import opened DataProcessing
  import opened Instruction
  import opened Conditions
  import opened DataLaws
  import opened MultiWord
  import opened Isolation

  // ---- From code to chains ------------------------------------------------

  /** An unconditional flag-setting word of an opcode, with a destination the mode holds. */
  predicate LimbWord(regs: RegArray, ins: word, opcode: byte) {
    && CondField(ins) == 14 && IsDataProcessing(ins) && SField(ins) == 1
    && OpcodeField(ins) == opcode && Holds(regs, RdField(ins))
  }

  predicate CarryCode(regs: RegArray, code: seq<word>, opcode: byte) {
    forall i :: 0 <= i < |code| ==> LimbWord(regs, code[i], opcode)
  }

  predicate LongCode(regs: RegArray, code: seq<word>, first: byte, rest: byte) {
    code != [] && LimbWord(regs, code[0], first) && CarryCode(regs, code[1..], rest)
  }

  /** One ADDS and ADCS words. */
  predicate AddCode(regs: RegArray, code: seq<word>) {
    LongCode(regs, code, 4, 5)
  }

  /** One SUBS and SBCS words. */
  predicate SubtractCode(regs: RegArray, code: seq<word>) {
    LongCode(regs, code, 2, 6)
  }

  function OperandOf(s: State, ins: word): Shifted {
    if ClassField(ins) == 0 then RegisterOperand(s, ins) else ImmediateOperand(s, ins)
  }

  function LimbOf(s: State, ins: word): Limb {
    Limb(s, ins, OperandOf(s, ins).sop, OperandOf(s, ins).sco)
  }

  /** The operations a run of the code performs. */
  function ChainOf(s: State, code: seq<word>): seq<Limb>
    requires forall i :: 0 <= i < |code| ==> Modelled(code[i])
    decreases |code|
  {
    if code == [] then [] else [LimbOf(s, code[0])] + ChainOf(Perform(s, code[0]).state, code[1..])
  }

  lemma LimbWordStep(s: State, ins: word, opcode: byte)
    requires LimbWord(s.regs, ins, opcode) && !IsTest(opcode)
    ensures Operates(LimbOf(s, ins), opcode) && LimbOf(s, ins).After() == Perform(s, ins).state
    ensures Mode(Perform(s, ins).state.regs) == Mode(s.regs)
  {
    PerformIsolates(s, ins);
  }

  lemma {:induction false} CarryCodeIsChain(s: State, code: seq<word>, opcode: byte)
    requires CarryCode(s.regs, code, opcode) && !IsTest(opcode)
    ensures CarryChain(ChainOf(s, code), opcode) && |ChainOf(s, code)| == |code|
    ensures code != [] ==> ChainOf(s, code)[0].before == s
    ensures CarryOf(ChainOf(s, code), FlagsOfState(s).c) == FlagsOfState(RunWords(s, code)).c
    decreases |code|
  {
    if code != [] {
      var t, rest := Perform(s, code[0]).state, code[1..];
      LimbWordStep(s, code[0], opcode);
      CarryCodeIsChain(t, rest, opcode);
      ConsChain(LimbOf(s, code[0]), ChainOf(t, rest), t, opcode);
    }
  }

  /** Prefixing a limb to a chain that starts where it ends. */
  lemma ConsChain(l: Limb, ls: seq<Limb>, t: State, opcode: byte)
    requires Operates(l, opcode) && CarryChain(ls, opcode) && l.After() == t && (ls != [] ==> ls[0].before == t)
    ensures CarryChain([l] + ls, opcode)
    ensures CarryOf([l] + ls, l.CarryBefore()) == CarryOf(ls, FlagsOfState(t).c)
  {
    var all := [l] + ls;
    forall i | 0 < i < |all|
      ensures all[i].CarryBefore() == all[i - 1].CarryAfter()
    {
      if i > 1 {
        assert ls[i - 1].CarryBefore() == ls[i - 2].CarryAfter();
      }
    }
  }

  /** The same with the instruction that takes no carry in front. */
  lemma ConsFirst(l: Limb, ls: seq<Limb>, t: State, first: byte, rest: byte)
    requires Operates(l, first) && CarryChain(ls, rest) && l.After() == t && (ls != [] ==> ls[0].before == t)
    ensures LongChain([l] + ls, first, rest)
    ensures CarryOf([l] + ls, false) == CarryOf(ls, FlagsOfState(t).c)
  {
    assert ([l] + ls)[1..] == ls;
  }

  /**
    Every run of one ADDS word and ADCS words, or one SUBS word and SBCS words, of any
    length and operand form, is a chain.
   */
  lemma LongCodeIsChain(s: State, code: seq<word>, first: byte, rest: byte)
    requires LongCode(s.regs, code, first, rest) && !IsTest(first) && !IsTest(rest)
    ensures LongChain(ChainOf(s, code), first, rest) && |ChainOf(s, code)| == |code|
    ensures CarryOf(ChainOf(s, code), false) == FlagsOfState(RunWords(s, code)).c
  {
    var t, others := Perform(s, code[0]).state, code[1..];
    LimbWordStep(s, code[0], first);
    CarryCodeIsChain(t, others, rest);
    ConsFirst(LimbOf(s, code[0]), ChainOf(t, others), t, first, rest);
  }

  /** The same instruction pair gives chains of every length, from every state. */
  lemma ChainsOfEveryLength(s: State, n: nat)
    requires n >= 1
    ensures var code := [0xE090_2001] + seq(n - 1, i => 0xE0B0_2001);  // ADDS then ADCS r2,r0,r1
            AddCode(s.regs, code) && AddChain(ChainOf(s, code)) && |ChainOf(s, code)| == n
  {
    var code := [0xE090_2001] + seq(n - 1, i => 0xE0B0_2001);
    assert LimbWord(s.regs, 0xE090_2001, 4) && LimbWord(s.regs, 0xE0B0_2001, 5);
    assert AddCode(s.regs, code);
    LongCodeIsChain(s, code, 4, 5);
  }

  // ---- Numbers held in registers ------------------------------------------

  function RmField(ins: word): byte {
    ins % 16
  }

  /** The registers a field of the code names, read in one state. */
  function Reads(s: State, code: seq<word>, field: word -> byte): seq<word>
    decreases |code|
  {
    if code == [] then [] else [CoreRead(s.regs, field(code[0]))] + Reads(s, code[1..], field)
  }

  /** Operations on two unshifted registers. */
  predicate PlainWord(regs: RegArray, ins: word) {
    ClassField(ins) == 0 && ins % 0x1000 < 16 && LimbWord(regs, ins, OpcodeField(ins)) && !IsTest(OpcodeField(ins))
  }

  predicate PlainCode(regs: RegArray, code: seq<word>) {
    forall i :: 0 <= i < |code| ==> PlainWord(regs, code[i])
  }

  /** No destination is written twice, or read after it is written. */
  predicate Independent(code: seq<word>) {
    forall i, j :: 0 <= i < j < |code| ==>
      RdField(code[i]) != RdField(code[j]) && RdField(code[i]) != RnField(code[j])
      && RdField(code[i]) != RmField(code[j])
  }

  lemma OtherRegisterKept(regs: RegArray, rd: byte, v: word, cpsr: word, q: byte)
    requires rd < PC && q < 16 && q != rd && cpsr % 32 == regs[CPSR] % 32
    ensures CoreRead(WriteReg(regs, rd, v)[CPSR := cpsr], q) == CoreRead(regs, q)
  {
    var mode := Mode(regs);
    if NameOf(mode, q).Some? {
      SlotsSeparate(NameOf(mode, q).value, Cpsr);
      if NameOf(mode, rd).Some? {
        SlotsSeparate(NameOf(mode, q).value, NameOf(mode, rd).value);
      }
    }
  }

  /** An operation keeps every register but its destination. */
  lemma LimbKeepsOthers(s: State, ins: word, opcode: byte, q: byte)
    requires LimbWord(s.regs, ins, opcode) && !IsTest(opcode)
    requires q < 16 && q != RdField(ins)
    ensures CoreRead(Perform(s, ins).state.regs, q) == CoreRead(s.regs, q)
  {
    var operand := OperandOf(s, ins);
    var res, status := ResultOf(s, ins, operand.sop), StatusOf(s, ins, operand.sop, operand.sco);
    assert Perform(s, ins) == Executed(s, ins, operand.sop, operand.sco);
    FlagsRoundTrip(s.regs[CPSR],
                   FlagsOf(opcode, Rn(s, ins), operand.sop, res, operand.sco, FlagsOfState(s)));
    OtherRegisterKept(s.regs, RdField(ins), res, status, q);
  }

  lemma PlainTail(s: State, code: seq<word>)
    requires code != [] && PlainCode(s.regs, code)
    ensures PlainCode(Perform(s, code[0]).state.regs, code[1..])
    ensures Mode(Perform(s, code[0]).state.regs) == Mode(s.regs)
  {
    PerformIsolates(s, code[0]);
    var t, rest := Perform(s, code[0]).state, code[1..];
    forall i | 0 <= i < |rest|
      ensures PlainWord(t.regs, rest[i])
    {
      assert rest[i] == code[i + 1];
    }
  }

  /** A run keeps every register that is no destination of it. */
  lemma {:induction false} RunKeepsOthers(s: State, code: seq<word>, q: byte)
    requires PlainCode(s.regs, code) && q < 16
    requires forall i :: 0 <= i < |code| ==> RdField(code[i]) != q
    ensures CoreRead(RunWords(s, code).regs, q) == CoreRead(s.regs, q)
    decreases |code|
  {
    if code != [] {
      LimbKeepsOthers(s, code[0], OpcodeField(code[0]), q);
      PlainTail(s, code);
      RunKeepsOthers(Perform(s, code[0]).state, code[1..], q);
    }
  }

  lemma {:induction false} ReadsAgree(s: State, t: State, code: seq<word>, field: word -> byte)
    requires forall i :: 0 <= i < |code| ==> CoreRead(t.regs, field(code[i])) == CoreRead(s.regs, field(code[i]))
    ensures Reads(t, code, field) == Reads(s, code, field)
    decreases |code|
  {
    if code != [] {
      assert CoreRead(t.regs, field(code[0])) == CoreRead(s.regs, field(code[0]));
      forall i | 0 <= i < |code[1..]|
        ensures CoreRead(t.regs, field(code[1..][i])) == CoreRead(s.regs, field(code[1..][i]))
      {
        assert code[1..][i] == code[i + 1];
      }
      ReadsAgree(s, t, code[1..], field);
    }
  }

  lemma LimbValues(s: State, ins: word)
    requires ClassField(ins) == 0 && ins % 0x1000 < 16
    ensures LimbOf(s, ins).A() == CoreRead(s.regs, RnField(ins))
    ensures LimbOf(s, ins).sop == CoreRead(s.regs, RmField(ins))
  {
    UnshiftedOperand(s, ins);
  }

  /** The sources of the rest of the code read after its first word as before it. */
  lemma SourcesKept(s: State, code: seq<word>)
    requires code != [] && PlainCode(s.regs, code) && Independent(code)
    ensures var t, rest := Perform(s, code[0]).state, code[1..];
            Reads(t, rest, RnField) == Reads(s, rest, RnField) && Reads(t, rest, RmField) == Reads(s, rest, RmField)
  {
    var t, rest := Perform(s, code[0]).state, code[1..];
    forall i | 0 <= i < |rest|
      ensures CoreRead(t.regs, RnField(rest[i])) == CoreRead(s.regs, RnField(rest[i]))
      ensures CoreRead(t.regs, RmField(rest[i])) == CoreRead(s.regs, RmField(rest[i]))
    {
      assert rest[i] == code[i + 1];
      LimbKeepsOthers(s, code[0], OpcodeField(code[0]), RnField(rest[i]));
      LimbKeepsOthers(s, code[0], OpcodeField(code[0]), RmField(rest[i]));
    }
    ReadsAgree(s, t, rest, RnField);
    ReadsAgree(s, t, rest, RmField);
  }

  /** The limbs operated on are the initial sources, and the limbs produced stay in the destinations. */
  lemma {:induction false} ChainReads(s: State, code: seq<word>)
    requires PlainCode(s.regs, code) && Independent(code)
    ensures As(ChainOf(s, code)) == Reads(s, code, RnField)
    ensures Bs(ChainOf(s, code)) == Reads(s, code, RmField)
    ensures Results(ChainOf(s, code)) == Reads(RunWords(s, code), code, RdField)
    decreases |code|
  {
    if code != [] {
      var t, rest := Perform(s, code[0]).state, code[1..];
      LimbWordStep(s, code[0], OpcodeField(code[0]));
      PlainTail(s, code);
      LimbValues(s, code[0]);
      SourcesKept(s, code);
      ChainReads(t, rest);
      RunKeepsOthers(t, rest, RdField(code[0]));
      ChainParts(LimbOf(s, code[0]), ChainOf(t, rest));
    }
  }

  lemma ChainParts(l: Limb, ls: seq<Limb>)
    ensures As([l] + ls) == [l.A()] + As(ls) && Bs([l] + ls) == [l.sop] + Bs(ls)
    ensures Results([l] + ls) == [l.Result()] + Results(ls)
  {
    assert ([l] + ls)[1..] == ls;
  }

  /** Limb i is computed in the state the first i words lead to. */
  lemma {:induction false} ChainStates(s: State, code: seq<word>, i: nat)
    requires (forall k :: 0 <= k < |code| ==> Modelled(code[k])) && i < |code|
    ensures |ChainOf(s, code)| == |code|
    ensures ChainOf(s, code)[i] == LimbOf(RunWords(s, code[..i]), code[i])
    decreases |code|
  {
    var t, rest := Perform(s, code[0]).state, code[1..];
    if rest != [] {
      ChainStates(t, rest, if i == 0 then 0 else i - 1);
    }
    if i > 0 {
      assert rest[..i - 1] == code[..i][1..];
    } else {
      assert code[..0] == [];
    }
  }

  /** The carry a word of the program runs with. */
  function CarryInto(s: State, code: seq<word>, i: nat): bool
    requires (forall k :: 0 <= k < |code| ==> Modelled(code[k])) && i <= |code|
  {
    FlagsOfState(RunWords(s, code[..i])).c
  }

  /** Word i is an ADCS that runs with Rn all ones and a carry in. */
  predicate CarryLostAt(s: State, code: seq<word>, i: nat)
    requires (forall k :: 0 <= k < |code| ==> Modelled(code[k])) && i < |code|
  {
    0 < i && CoreRead(s.regs, RnField(code[i])) == 0xFFFF_FFFF && CarryInto(s, code, i)
  }

  /** No word of the program does. */
  predicate NothingLostBy(s: State, code: seq<word>)
    requires forall k :: 0 <= k < |code| ==> Modelled(code[k])
  {
    forall i :: 0 <= i < |code| ==> !CarryLostAt(s, code, i)
  }

  lemma {:induction false} ReadsAt(s: State, code: seq<word>, field: word -> byte, i: nat)
    requires i < |code|
    ensures |Reads(s, code, field)| == |code| && Reads(s, code, field)[i] == CoreRead(s.regs, field(code[i]))
    decreases |code|
  {
    if |code| > 1 {
      ReadsAt(s, code[1..], field, if i == 0 then 0 else i - 1);
    }
  }

  lemma {:induction false} AsAt(ls: seq<Limb>, i: nat)
    requires i < |ls|
    ensures |As(ls)| == |ls| && As(ls)[i] == ls[i].A()
    decreases |ls|
  {
    if |ls| > 1 {
      AsAt(ls[1..], if i == 0 then 0 else i - 1);
    }
  }

  lemma {:induction false} BsAt(ls: seq<Limb>, i: nat)
    requires i < |ls|
    ensures |Bs(ls)| == |ls| && Bs(ls)[i] == ls[i].sop
    decreases |ls|
  {
    if |ls| > 1 {
      BsAt(ls[1..], if i == 0 then 0 else i - 1);
    }
  }

  /** The operands and the state of limb i, from the initial registers. */
  lemma LimbAt(s: State, code: seq<word>, i: nat)
    requires PlainCode(s.regs, code) && Independent(code) && i < |code|
    ensures |ChainOf(s, code)| == |code|
    ensures var l := ChainOf(s, code)[i];
            && l.ins == code[i] && l.CarryBefore() == CarryInto(s, code, i)
            && l.A() == CoreRead(s.regs, RnField(code[i])) && l.sop == CoreRead(s.regs, RmField(code[i]))
  {
    ChainReads(s, code);
    ChainStates(s, code, i);
    AsAt(ChainOf(s, code), i);
    BsAt(ChainOf(s, code), i);
    ReadsAt(s, code, RnField, i);
    ReadsAt(s, code, RmField, i);
  }

  /** Which word of the program loses its carry, told from the initial registers. */
  lemma LosesAt(s: State, code: seq<word>, i: nat)
    requires PlainCode(s.regs, code) && Independent(code) && AddCode(s.regs, code) && i < |code|
    ensures |ChainOf(s, code)| == |code|
    ensures ChainOf(s, code)[i].Loses() <==> CarryLostAt(s, code, i)
  {
    LimbAt(s, code, i);
    if i > 0 {
      assert code[i] == code[1..][i - 1];
    }
  }

  /**
    After a run of one ADDS and ADCS words that keep off each other's registers, the
    destinations and C hold the exact sum of the initial sources if and only if no ADCS
    runs with Rn all ones and a carry in.  Distinct destinations below the pc leave room
    for up to fifteen limbs; LongCodeIsChain has no such bound.
   */
  lemma AddProgramSums(s: State, code: seq<word>)
    requires AddCode(s.regs, code) && PlainCode(s.regs, code) && Independent(code)
    ensures var t := RunWords(s, code);
            Value(Reads(t, code, RdField)) + (if FlagsOfState(t).c then Pow2(32 * |code|) else 0) ==
            Value(Reads(s, code, RnField)) + Value(Reads(s, code, RmField))
            <==> NothingLostBy(s, code)
  {
    var ls := ChainOf(s, code);
    LongCodeIsChain(s, code, 4, 5);
    ChainReads(s, code);
    MultiWordExactness(ls);
    LostNowhere(s, code);
  }

  lemma LostNowhere(s: State, code: seq<word>)
    requires PlainCode(s.regs, code) && Independent(code) && AddCode(s.regs, code)
    ensures var ls := ChainOf(s, code);
            (forall i :: 0 <= i < |ls| ==> !ls[i].Loses()) <==> NothingLostBy(s, code)
  {
    var ls := ChainOf(s, code);
    ChainStates(s, code, 0);
    forall i | 0 <= i < |ls|
      ensures ls[i].Loses() <==> CarryLostAt(s, code, i)
    {
      LosesAt(s, code, i);
    }
  }

  /** In word i of a subtraction, told from the initial registers, the carry is the absence of a borrow. */
  predicate BorrowTold(s: State, code: seq<word>, i: nat)
    requires (forall k :: 0 <= k < |code| ==> Modelled(code[k])) && i < |code|
  {
    var x, y := CoreRead(s.regs, RnField(code[i])), CoreRead(s.regs, RmField(code[i]));
    if i == 0 then TellsBorrow(x, y, 0, 0, false)
    else
      var c := ToInt(CarryInto(s, code, i));
      TellsBorrow(x, y, 1 - c, c, BoundWraps(x, c))
  }

  predicate EveryBorrowTold(s: State, code: seq<word>)
    requires forall k :: 0 <= k < |code| ==> Modelled(code[k])
  {
    forall i :: 0 <= i < |code| ==> BorrowTold(s, code, i)
  }

  lemma ToldAt(s: State, code: seq<word>, i: nat)
    requires PlainCode(s.regs, code) && Independent(code) && SubtractCode(s.regs, code) && i < |code|
    ensures |ChainOf(s, code)| == |code|
    ensures var l := ChainOf(s, code)[i];
            SumTellsBorrow(l.before, l.ins, l.sop) <==> BorrowTold(s, code, i)
  {
    LimbAt(s, code, i);
    if i > 0 {
      assert code[i] == code[1..][i - 1];
    }
    ToldByOperands(ChainOf(s, code)[i], if i == 0 then 2 else 6);
  }

  lemma ToldByOperands(l: Limb, opcode: byte)
    requires OpcodeField(l.ins) == opcode && (opcode == 2 || opcode == 6)
    ensures SumTellsBorrow(l.before, l.ins, l.sop) <==>
            if opcode == 2 then TellsBorrow(l.A(), l.sop, 0, 0, false)
            else TellsBorrow(l.A(), l.sop, 1 - ToInt(l.CarryBefore()), ToInt(l.CarryBefore()),
                             BoundWraps(l.A(), ToInt(l.CarryBefore())))
  {
  }

  /**
    After a run of one SUBS and SBCS words that keep off each other's registers, the
    destinations and the borrow hold the exact difference of the initial sources if and
    only if every word's addition test happens to tell its borrow.
   */
  lemma SubtractProgramDiffers(s: State, code: seq<word>)
    requires SubtractCode(s.regs, code) && PlainCode(s.regs, code) && Independent(code)
    ensures var t := RunWords(s, code);
            Value(Reads(t, code, RdField)) - (if FlagsOfState(t).c then 0 else Pow2(32 * |code|)) ==
            Value(Reads(s, code, RnField)) - Value(Reads(s, code, RmField))
            <==> EveryBorrowTold(s, code)
  {
    var ls := ChainOf(s, code);
    LongCodeIsChain(s, code, 2, 6);
    ChainReads(s, code);
    SubtractionExactness(ls);
    ToldThroughout(s, code);
  }

  lemma ToldThroughout(s: State, code: seq<word>)
    requires PlainCode(s.regs, code) && Independent(code) && SubtractCode(s.regs, code)
    ensures var ls := ChainOf(s, code);
            (forall i :: 0 <= i < |ls| ==> SumTellsBorrow(ls[i].before, ls[i].ins, ls[i].sop))
            <==> EveryBorrowTold(s, code)
  {
    var ls := ChainOf(s, code);
    ChainStates(s, code, 0);
    forall i | 0 <= i < |ls|
      ensures SumTellsBorrow(ls[i].before, ls[i].ins, ls[i].sop) <==> BorrowTold(s, code, i)
    {
      ToldAt(s, code, i);
    }
  }

  // ---- Two limbs ----------------------------------------------------------

  const ADDS_LOW: word := 0xE090_4002   // adds r4, r0, r2
  const ADCS_HIGH: word := 0xE0B1_5003  // adcs r5, r1, r3
  const SUBS_LOW: word := 0xE050_4002   // subs r4, r0, r2
  const SBCS_HIGH: word := 0xE0D1_5003  // sbcs r5, r1, r3

  const LongAdd: seq<word> := [ADDS_LOW, ADCS_HIGH]
  const LongSubtract: seq<word> := [SUBS_LOW, SBCS_HIGH]

  /** Code on the registers of those two programs. */
  predicate OnPairs(code: seq<word>) {
    && |code| == 2
    && RnField(code[0]) == 0 && RmField(code[0]) == 2 && RdField(code[0]) == 4
    && RnField(code[1]) == 1 && RmField(code[1]) == 3 && RdField(code[1]) == 5
  }

  /** A 64-bit number in two registers. */
  function Pair(s: State, low: byte, high: byte): nat {
    CoreRead(s.regs, low) + 0x1_0000_0000 * CoreRead(s.regs, high)
  }

  /** Two plain words of the given opcodes. */
  predicate PairCode(code: seq<word>, first: byte, rest: byte) {
    && OnPairs(code) && OpcodeField(code[0]) == first && OpcodeField(code[1]) == rest
    && PlainFields(code[0]) && PlainFields(code[1])
  }

  predicate PlainFields(ins: word) {
    CondField(ins) == 14 && ClassField(ins) == 0 && SField(ins) == 1 && ins % 0x1000 < 16
  }

  predicate Decodes(ins: word, opcode: byte, rd: byte, rn: byte, rm: byte) {
    && PlainFields(ins) && OpcodeField(ins) == opcode
    && RdField(ins) == rd && RnField(ins) == rn && RmField(ins) == rm
  }

  lemma AddDecodes()
    ensures Decodes(ADDS_LOW, 4, 4, 0, 2) && Decodes(ADCS_HIGH, 5, 5, 1, 3)
  {
  }

  lemma SubtractDecodes()
    ensures Decodes(SUBS_LOW, 2, 4, 0, 2) && Decodes(SBCS_HIGH, 6, 5, 1, 3)
  {
  }

  lemma PairOf(low: word, high: word, first: byte, rest: byte)
    requires Decodes(low, first, 4, 0, 2) && Decodes(high, rest, 5, 1, 3)
    ensures PairCode([low, high], first, rest)
  {
  }

  lemma PairPrograms()
    ensures PairCode(LongAdd, 4, 5) && PairCode(LongSubtract, 2, 6)
  {
    AddDecodes();
    SubtractDecodes();
    PairOf(ADDS_LOW, ADCS_HIGH, 4, 5);
    PairOf(SUBS_LOW, SBCS_HIGH, 2, 6);
  }

  lemma PlainFieldsFit(regs: RegArray, ins: word, opcode: byte)
    requires PlainFields(ins) && RdField(ins) < 8 && OpcodeField(ins) == opcode && !IsTest(opcode)
    ensures LimbWord(regs, ins, opcode) && PlainWord(regs, ins)
  {
    FieldAgrees(ins, ins % 0x1000, 0x10, 2, 0x80, 0x1000);
  }

  lemma PairCodeFits(s: State, code: seq<word>, first: byte, rest: byte)
    requires PairCode(code, first, rest) && !IsTest(first) && !IsTest(rest)
    ensures Independent(code) && PlainCode(s.regs, code) && LongCode(s.regs, code, first, rest)
    ensures forall k :: 0 <= k < |code| ==> Modelled(code[k])
  {
    PlainFieldsFit(s.regs, code[0], first);
    PlainFieldsFit(s.regs, code[1], rest);
  }

  lemma ReadsOfTwo(s: State, code: seq<word>, field: word -> byte)
    requires |code| == 2
    ensures Reads(s, code, field) == [CoreRead(s.regs, field(code[0])), CoreRead(s.regs, field(code[1]))]
  {
    assert Reads(s, code[1..], field) == [CoreRead(s.regs, field(code[1]))] by {
      assert code[1..][1..] == [];
    }
  }

  lemma PairValue(low: word, high: word)
    ensures Value([low, high]) == low + 0x1_0000_0000 * high
  {
    assert [low, high][1..] == [high];
    assert Value([high]) == high;
  }

  /** The limbs of such code are the register pairs. */
  lemma PairsRead(s: State, code: seq<word>)
    requires OnPairs(code)
    ensures Value(Reads(s, code, RnField)) == Pair(s, 0, 1)
    ensures Value(Reads(s, code, RmField)) == Pair(s, 2, 3)
    ensures Value(Reads(s, code, RdField)) == Pair(s, 4, 5)
  {
    ReadsOfTwo(s, code, RnField);
    ReadsOfTwo(s, code, RmField);
    ReadsOfTwo(s, code, RdField);
    PairValue(CoreRead(s.regs, 0), CoreRead(s.regs, 1));
    PairValue(CoreRead(s.regs, 2), CoreRead(s.regs, 3));
    PairValue(CoreRead(s.regs, 4), CoreRead(s.regs, 5));
  }

  /** The carry one plain ADDS or SUBS leaves. */
  lemma CarryOfFirst(s: State, ins: word)
    requires PlainWord(s.regs, ins) && OpcodeField(ins) in {2, 4}
    ensures FlagsOfState(RunWords(s, [ins])).c <==>
            CoreRead(s.regs, RnField(ins)) + CoreRead(s.regs, RmField(ins)) >= 0x1_0000_0000
  {
    var l := LimbOf(s, ins);
    LimbWordStep(s, ins, OpcodeField(ins));
    LimbValues(s, ins);
    FlagsAfter(s, ins, l.sop, l.sco);
    assert [ins][1..] == [];
  }

  predicate LowCarries(s: State) {
    CoreRead(s.regs, 0) + CoreRead(s.regs, 2) >= 0x1_0000_0000
  }

  lemma CarryOfLow(s: State, code: seq<word>)
    requires OnPairs(code) && PlainCode(s.regs, code) && OpcodeField(code[0]) in {2, 4}
    ensures CarryInto(s, code, 1) <==> LowCarries(s)
  {
    CarryOfFirst(s, code[0]);
    assert code[..1] == [code[0]];
  }

  function AfterPairs(s: State, code: seq<word>, first: byte, rest: byte): State
    requires PairCode(code, first, rest) && !IsTest(first) && !IsTest(rest)
  {
    PairCodeFits(s, code, first, rest);
    RunWords(s, code)
  }

  /** Exact from every state but those with r1 all ones in which the low halves carry. */
  lemma PairsAdd(s: State, code: seq<word>)
    requires PairCode(code, 4, 5)
    ensures var t := AfterPairs(s, code, 4, 5);
            Pair(t, 4, 5) + (if FlagsOfState(t).c then Pow2(64) else 0) == Pair(s, 0, 1) + Pair(s, 2, 3)
            <==> !(CoreRead(s.regs, 1) == 0xFFFF_FFFF && LowCarries(s))
  {
    PairCodeFits(s, code, 4, 5);
    CarryOfLow(s, code);
    AddProgramSums(s, code);
    PairsRead(s, code);
    PairsRead(RunWords(s, code), code);
    NothingLostByTwo(s, code);
  }

  lemma NothingLostByTwo(s: State, code: seq<word>)
    requires |code| == 2 && forall k :: 0 <= k < |code| ==> Modelled(code[k])
    ensures NothingLostBy(s, code) <==> !CarryLostAt(s, code, 1)
  {
    if !NothingLostBy(s, code) {
      var i: nat :| i < |code| && CarryLostAt(s, code, i);
      assert i == 1;
    }
  }

  /** The low halves carry as a sum when they need no borrow, and the high halves do so with that carry. */
  predicate PairsTell(s: State) {
    var x, y, c := CoreRead(s.regs, 1), CoreRead(s.regs, 3), ToInt(LowCarries(s));
    && (LowCarries(s) <==> CoreRead(s.regs, 0) >= CoreRead(s.regs, 2))
    && (x + y + c >= 0x1_0000_0000 && !BoundWraps(x, c) <==> x >= y + 1 - c)
  }

  lemma PairsSubtract(s: State, code: seq<word>)
    requires PairCode(code, 2, 6)
    ensures var t := AfterPairs(s, code, 2, 6);
            Pair(t, 4, 5) - (if FlagsOfState(t).c then 0 else Pow2(64)) == Pair(s, 0, 1) - Pair(s, 2, 3)
            <==> PairsTell(s)
  {
    PairCodeFits(s, code, 2, 6);
    CarryOfLow(s, code);
    SubtractProgramDiffers(s, code);
    PairsRead(s, code);
    PairsRead(RunWords(s, code), code);
    BorrowToldByTwo(s, code);
    PairsTold(s, code);
  }

  lemma BorrowToldByTwo(s: State, code: seq<word>)
    requires |code| == 2 && forall k :: 0 <= k < |code| ==> Modelled(code[k])
    ensures EveryBorrowTold(s, code) <==> BorrowTold(s, code, 0) && BorrowTold(s, code, 1)
  {
    if !EveryBorrowTold(s, code) {
      var i: nat :| i < |code| && !BorrowTold(s, code, i);
      assert i == 0 || i == 1;
    }
  }

  lemma PairsTold(s: State, code: seq<word>)
    requires OnPairs(code) && forall k :: 0 <= k < |code| ==> Modelled(code[k])
    requires CarryInto(s, code, 1) <==> LowCarries(s)
    ensures BorrowTold(s, code, 0) && BorrowTold(s, code, 1) <==> PairsTell(s)
  {
  }

  /** ADDS r4,r0,r2; ADCS r5,r1,r3 from every state. */
  lemma LongAddSums(s: State)
    ensures PairCode(LongAdd, 4, 5)
    ensures var t := AfterPairs(s, LongAdd, 4, 5);
            Pair(t, 4, 5) + (if FlagsOfState(t).c then Pow2(64) else 0) == Pair(s, 0, 1) + Pair(s, 2, 3)
            <==> !(CoreRead(s.regs, 1) == 0xFFFF_FFFF && LowCarries(s))
  {
    PairPrograms();
    PairsAdd(s, LongAdd);
  }

  /** SUBS r4,r0,r2; SBCS r5,r1,r3 from every state. */
  lemma LongSubtractDiffers(s: State)
    ensures PairCode(LongSubtract, 2, 6)
    ensures var t := AfterPairs(s, LongSubtract, 2, 6);
            Pair(t, 4, 5) - (if FlagsOfState(t).c then 0 else Pow2(64)) == Pair(s, 0, 1) - Pair(s, 2, 3)
            <==> PairsTell(s)
  {
    PairPrograms();
    PairsSubtract(s, LongSubtract);
  }
}
