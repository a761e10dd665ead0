/** What the condition codes mean after an addition, and where the code departs from that. */
module Conditions {
  import opened Words
  import opened ArmConstants
  import opened StatusFlags
  import opened Util
  import opened Registers
  import opened ArmCore
  import opened DataProcessing

  /** ADD, CMN and ADC. */
  predicate IsAddition(opcode: byte) {
    opcode in {4, 5, 11}
  }

  /** An instruction that passes its condition and updates the flags. */
  predicate SetsFlags(s: State, ins: word) {
    && Passes(s, ins)
    && (IsTest(OpcodeField(ins)) || (SField(ins) == 1 && RdField(ins) != PC))
  }

  function Rn(s: State, ins: word): word {
    CoreRead(s.regs, RnField(ins))
  }

  function Cin(s: State, ins: word): nat {
    CarryIn(OpcodeField(ins), FlagsOfState(s).c)
  }

  /** The flags a flag-setting instruction leaves in the state. */
  lemma FlagsAfter(s: State, ins: word, sop: word, sco: byte)
    requires SetsFlags(s, ins)
    ensures FlagsOfState(Executed(s, ins, sop, sco).state) ==
            FlagsOf(OpcodeField(ins), Rn(s, ins), sop, ResultOf(s, ins, sop), sco, FlagsOfState(s))
  {
    FlagsRoundTrip(s.regs[CPSR],
                   FlagsOf(OpcodeField(ins), Rn(s, ins), sop, ResultOf(s, ins, sop), sco, FlagsOfState(s)));
  }

  /** A destination below the pc that the mode can both write and read back. */
  predicate Holds(regs: RegArray, rd: byte) {
    rd < PC && NameOf(Mode(regs), rd).Some? && !(Mode(regs) == FIQ && 8 <= rd <= 12)
  }

  lemma ReadBackResult(regs: RegArray, rd: byte, v: word, cpsr: word)
    requires Holds(regs, rd) && cpsr % 32 == regs[CPSR] % 32
    ensures CoreRead(WriteReg(regs, rd, v)[CPSR := cpsr], rd) == v
  {
  }

  /** The register a flag-setting instruction leaves its result in reads as the result. */
  lemma ResultAfter(s: State, ins: word, sop: word, sco: byte)
    requires SetsFlags(s, ins) && !IsTest(OpcodeField(ins)) && Holds(s.regs, RdField(ins))
    ensures CoreRead(Executed(s, ins, sop, sco).state.regs, RdField(ins)) == ResultOf(s, ins, sop)
  {
    var f := FlagsOf(OpcodeField(ins), Rn(s, ins), sop, ResultOf(s, ins, sop), sco, FlagsOfState(s));
    FlagsRoundTrip(s.regs[CPSR], f);
    ReadBackResult(s.regs, RdField(ins), ResultOf(s, ins, sop), WithFlags(s.regs[CPSR], f));
  }

  /** N and V of a sum against the exact signed sum. */
  lemma SignedSum(rn: word, sop: word, cin: nat, res: word)
    requires cin <= 1 && res == Wrap(rn + sop + cin)
    ensures var exact := Signed(rn) + Signed(sop) + cin;
            var carry := rn + sop + cin >= 0x1_0000_0000;
            var v := ((Top(sop) != Top(rn)) != Top(res)) != carry;
            && (v <==> !(-0x8000_0000 <= exact < 0x8000_0000))
            && (Top(res) == v <==> exact >= 0)
            && (res == 0 && !v ==> exact == 0) && (exact == 0 ==> res == 0)
            && (res == 0 && v ==> exact < 0)
  {
    assert res == if rn + sop + cin >= 0x1_0000_0000 then rn + sop + cin - 0x1_0000_0000 else rn + sop + cin;
  }

  /** What each condition says of the exact sums. */
  ghost predicate SpeaksOfSums(f: Flags, sum: int, signed: int) {
    && (CondPassed(0, f) <==> Wrap(sum) == 0)
    && (CondPassed(2, f) <==> sum >= 0x1_0000_0000)
    && (CondPassed(4, f) <==> Wrap(sum) >= 0x8000_0000)
    && (CondPassed(6, f) <==> !(-0x8000_0000 <= signed < 0x8000_0000))
    && (CondPassed(8, f) <==> sum > 0x1_0000_0000)
    && (CondPassed(10, f) <==> signed >= 0)
    && (CondPassed(11, f) <==> signed < 0)
    && (CondPassed(12, f) <==> signed > 0)
    && (CondPassed(13, f) <==> signed <= 0)
  }

  /** The flags of a sum; Z speaks of the wrapped result, and can be set by the sum -2^32. */
  lemma FlagsSpeakOfSums(f: Flags, rn: word, sop: word, cin: nat)
    requires cin <= 1
    requires var res := Wrap(rn + sop + cin);
             f.n == Top(res) && f.z == (res == 0) && f.c == (rn + sop + cin >= 0x1_0000_0000)
             && f.v == (((Top(sop) != Top(rn)) != Top(res)) != f.c)
    ensures SpeaksOfSums(f, rn + sop + cin, Signed(rn) + Signed(sop) + cin)
  {
    SignedSum(rn, sop, cin, Wrap(rn + sop + cin));
  }

  /**
    After ADDS, CMN or ADCS the conditions speak of the exact sums, unless the
    instruction runs with Rn all ones and a carry in.
   */
  lemma ConditionsAfterAddition(s: State, ins: word, sop: word, sco: byte)
    requires SetsFlags(s, ins) && IsAddition(OpcodeField(ins))
    requires !BoundWraps(Rn(s, ins), Cin(s, ins))
    ensures SpeaksOfSums(FlagsOfState(Executed(s, ins, sop, sco).state),
                         Rn(s, ins) + sop + Cin(s, ins), Signed(Rn(s, ins)) + Signed(sop) + Cin(s, ins))
  {
    FlagsAfter(s, ins, sop, sco);
    FlagsSpeakOfSums(FlagsOfState(Executed(s, ins, sop, sco).state), Rn(s, ins), sop, Cin(s, ins));
  }

  /**
    The exclusion is exact for CS, VS, GE and LT: with Rn all ones and a carry in, each
    of them answers the opposite of the exact sum.  HI, GT and LE do so too, unless the
    operand is zero.  EQ and MI are exact from every state.
   */
  lemma ConditionsExactlyOutsideWrap(s: State, ins: word, sop: word, sco: byte)
    requires SetsFlags(s, ins) && IsAddition(OpcodeField(ins))
    ensures var f := FlagsOfState(Executed(s, ins, sop, sco).state);
            var sum := Rn(s, ins) + sop + Cin(s, ins);
            var signed := Signed(Rn(s, ins)) + Signed(sop) + Cin(s, ins);
            var exact := !BoundWraps(Rn(s, ins), Cin(s, ins));
            && ((CondPassed(2, f) <==> sum >= 0x1_0000_0000) <==> exact)
            && ((CondPassed(6, f) <==> !(-0x8000_0000 <= signed < 0x8000_0000)) <==> exact)
            && ((CondPassed(10, f) <==> signed >= 0) <==> exact)
            && ((CondPassed(11, f) <==> signed < 0) <==> exact)
            && ((CondPassed(8, f) <==> sum > 0x1_0000_0000) <==> exact || sop == 0)
            && ((CondPassed(12, f) <==> signed > 0) <==> exact || sop == 0)
            && ((CondPassed(13, f) <==> signed <= 0) <==> exact || sop == 0)
            && (CondPassed(0, f) <==> Wrap(sum) == 0)
            && (CondPassed(4, f) <==> Wrap(sum) >= 0x8000_0000)
  {
    if BoundWraps(Rn(s, ins), Cin(s, ins)) {
      FlagsAfter(s, ins, sop, sco);
      assert ResultOf(s, ins, sop) == sop;
    } else {
      ConditionsAfterAddition(s, ins, sop, sco);
    }
  }

  // ---- Subtractions -------------------------------------------------------

  /** SUB, RSB, SBC, RSC and CMP. */
  predicate IsSubtraction(opcode: byte) {
    opcode in {2, 3, 6, 7, 10}
  }

  /** RSB and RSC subtract Rn from the operand. */
  predicate IsReversed(opcode: byte) {
    opcode == 3 || opcode == 7
  }

  /** What a subtraction takes which number from, and the borrow that enters it. */
  function Minuend(s: State, ins: word, sop: word): word {
    if IsReversed(OpcodeField(ins)) then sop else Rn(s, ins)
  }

  function Subtrahend(s: State, ins: word, sop: word): word {
    if IsReversed(OpcodeField(ins)) then Rn(s, ins) else sop
  }

  function Borrow(s: State, ins: word): nat {
    if UsesCarry(OpcodeField(ins)) then 1 - ToInt(FlagsOfState(s).c) else 0
  }

  /** The exact differences of the operands, read unsigned and signed. */
  function Difference(s: State, ins: word, sop: word): int {
    Minuend(s, ins, sop) - Subtrahend(s, ins, sop) - Borrow(s, ins)
  }

  function SignedDifference(s: State, ins: word, sop: word): int {
    Signed(Minuend(s, ins, sop)) - Signed(Subtrahend(s, ins, sop)) - Borrow(s, ins)
  }

  /**
    The operands for which the addition test happens to tell "no borrow".  With no borrow
    the sum must carry out and the bound must not wrap; with a borrow the other way round.
   */
  predicate TellsBorrow(x: word, y: word, borrow: nat, cin: nat, wraps: bool) {
    if x < y + borrow then x + y + cin < 0x1_0000_0000 || wraps
    else x + y + cin >= 0x1_0000_0000 && !wraps
  }

  predicate SumTellsBorrow(s: State, ins: word, sop: word) {
    TellsBorrow(Minuend(s, ins, sop), Subtrahend(s, ins, sop), Borrow(s, ins), Cin(s, ins),
                BoundWraps(Rn(s, ins), Cin(s, ins)))
  }

  lemma DifferenceIsZero(x: word, y: word)
    ensures Wrap(x - y) == 0 <==> x == y
  {
  }

  /** Whatever carry the flag update uses, V is true signed overflow iff it is the borrow. */
  lemma OverflowByBorrow(x: word, y: word, b: nat, carry: bool)
    requires b <= 1
    ensures var res, exact := Wrap(x - y - b), Signed(x) - Signed(y) - b;
            var v := ((Top(y) != Top(x)) != Top(res)) != carry;
            && ((v <==> !(-0x8000_0000 <= exact < 0x8000_0000)) <==> (carry <==> x < y + b))
            && ((Top(res) == v <==> exact >= 0) <==> (carry <==> x < y + b))
            && (res == 0 <==> x - y - b == 0 || x - y - b == -0x1_0000_0000)
            && (res == 0 ==> exact == 0 || exact == -0x1_0000_0000)
            && (exact == 0 ==> res == 0)
  {
    var d := x - y - b;
    assert Wrap(d) == if d >= 0 then d else d + 0x1_0000_0000;
  }

  /** C and V after a subtraction, by the state's operands. */
  lemma SubtractionFlags(s: State, ins: word, sop: word, sco: byte)
    requires SetsFlags(s, ins) && IsSubtraction(OpcodeField(ins))
    ensures var f, res := FlagsOfState(Executed(s, ins, sop, sco).state), Wrap(Difference(s, ins, sop));
            && f.n == Top(res) && f.z == (res == 0)
            && f.c == CarryOut(OpcodeField(ins), Rn(s, ins), sop, FlagsOfState(s).c)
            && f.v == (((Top(Subtrahend(s, ins, sop)) != Top(Minuend(s, ins, sop))) != Top(res)) != f.c)
  {
    FlagsAfter(s, ins, sop, sco);
  }

  lemma CarryAgainstBorrow(s: State, ins: word, sop: word)
    requires IsSubtraction(OpcodeField(ins))
    ensures (CarryOut(OpcodeField(ins), Rn(s, ins), sop, FlagsOfState(s).c) <==> Difference(s, ins, sop) >= 0)
            <==> SumTellsBorrow(s, ins, sop)
  {
  }

  /**
    After every SUB, RSB, SBC, RSC and CMP exactly one of C and V is right: C is the
    absence of a borrow if and only if V is not signed overflow.  Which of the two it
    is depends on the operands only.
   */
  lemma OneOfCarryAndOverflow(s: State, ins: word, sop: word, sco: byte)
    requires SetsFlags(s, ins) && IsSubtraction(OpcodeField(ins))
    ensures var f := FlagsOfState(Executed(s, ins, sop, sco).state);
            var cRight := f.c <==> Difference(s, ins, sop) >= 0;
            var vRight := f.v <==> !(-0x8000_0000 <= SignedDifference(s, ins, sop) < 0x8000_0000);
            cRight != vRight && (cRight <==> SumTellsBorrow(s, ins, sop))
  {
    SubtractionFlags(s, ins, sop, sco);
    var f := FlagsOfState(Executed(s, ins, sop, sco).state);
    CarryAgainstBorrow(s, ins, sop);
    OverflowByBorrow(Minuend(s, ins, sop), Subtrahend(s, ins, sop), Borrow(s, ins), f.c);
  }

  /** What each condition answers, given which of C and V is right. */
  ghost predicate AnswersDifference(f: Flags, d: int, signed: int, cRight: bool) {
    && (CondPassed(0, f) <==> Wrap(d) == 0)
    && (CondPassed(4, f) <==> Wrap(d) >= 0x8000_0000)
    && ((CondPassed(2, f) <==> d >= 0) <==> cRight)
    && ((CondPassed(3, f) <==> d < 0) <==> cRight)
    && ((CondPassed(8, f) <==> d > 0) <==> cRight || Wrap(d) == 0)
    && ((CondPassed(9, f) <==> d <= 0) <==> cRight || Wrap(d) == 0)
    && ((CondPassed(6, f) <==> !(-0x8000_0000 <= signed < 0x8000_0000)) <==> !cRight)
    && ((CondPassed(10, f) <==> signed >= 0) <==> !cRight)
    && ((CondPassed(11, f) <==> signed < 0) <==> !cRight)
    && ((CondPassed(12, f) <==> signed > 0) <==> !cRight || Wrap(d) == 0)
    && ((CondPassed(13, f) <==> signed <= 0) <==> !cRight || Wrap(d) == 0)
  }

  lemma FlagsAnswerDifference(f: Flags, x: word, y: word, b: nat, cRight: bool)
    requires b <= 1 && cRight == (f.c <==> x - y - b >= 0)
    requires var res := Wrap(x - y - b);
             f.n == Top(res) && f.z == (res == 0) && f.v == (((Top(y) != Top(x)) != Top(res)) != f.c)
    ensures AnswersDifference(f, x - y - b, Signed(x) - Signed(y) - b, cRight)
  {
    OverflowByBorrow(x, y, b, f.c);
  }

  lemma AnswersByFlags(s: State, ins: word, sop: word, f: Flags)
    requires var res := Wrap(Difference(s, ins, sop));
             f.n == Top(res) && f.z == (res == 0)
             && f.v == (((Top(Subtrahend(s, ins, sop)) != Top(Minuend(s, ins, sop))) != Top(res)) != f.c)
    requires (f.c <==> Difference(s, ins, sop) >= 0) <==> SumTellsBorrow(s, ins, sop)
    ensures AnswersDifference(f, Difference(s, ins, sop), SignedDifference(s, ins, sop), SumTellsBorrow(s, ins, sop))
  {
    FlagsAnswerDifference(f, Minuend(s, ins, sop), Subtrahend(s, ins, sop), Borrow(s, ins),
                          SumTellsBorrow(s, ins, sop));
  }

  lemma SubtractionAnswers(s: State, ins: word, sop: word, sco: byte)
    requires SetsFlags(s, ins) && IsSubtraction(OpcodeField(ins))
    ensures AnswersDifference(FlagsOfState(Executed(s, ins, sop, sco).state), Difference(s, ins, sop),
                              SignedDifference(s, ins, sop), SumTellsBorrow(s, ins, sop))
  {
    var f := FlagsOfState(Executed(s, ins, sop, sco).state);
    SubtractionFlags(s, ins, sop, sco);
    OneOfCarryAndOverflow(s, ins, sop, sco);
    AnswersByFlags(s, ins, sop, f);
  }

  /**
    After every subtraction, from any state, EQ and MI are exact; CS and HI answer the
    unsigned comparison exactly where VS, GE, LT, GT and LE miss the signed one, and
    the other way round, but that HI, GT and LE are also right on a zero result.
   */
  lemma ConditionsAfterSubtraction(s: State, ins: word, sop: word, sco: byte)
    requires SetsFlags(s, ins) && IsSubtraction(OpcodeField(ins))
    ensures var f := FlagsOfState(Executed(s, ins, sop, sco).state);
            && AnswersDifference(f, Difference(s, ins, sop), SignedDifference(s, ins, sop), SumTellsBorrow(s, ins, sop))
            && (OpcodeField(ins) in {2, 10} ==>
                  (CondPassed(0, f) <==> Rn(s, ins) == sop)
                  && (CondPassed(2, f) <==> Rn(s, ins) + sop >= 0x1_0000_0000))
  {
    SubtractionAnswers(s, ins, sop, sco);
    if OpcodeField(ins) in {2, 10} {
      AfterCompare(s, ins, sop, sco);
    }
  }

  lemma AfterCompare(s: State, ins: word, sop: word, sco: byte)
    requires SetsFlags(s, ins) && OpcodeField(ins) in {2, 10}
    ensures var f := FlagsOfState(Executed(s, ins, sop, sco).state);
            && (CondPassed(0, f) <==> Rn(s, ins) == sop)
            && (CondPassed(2, f) <==> Rn(s, ins) + sop >= 0x1_0000_0000)
  {
    FlagsAfter(s, ins, sop, sco);
    DifferenceIsZero(Rn(s, ins), sop);
  }

  /** A concrete miss: comparing 1 with 0 leaves C clear although nothing is borrowed. */
  lemma CompareOneWithZero(s: State, ins: word, sco: byte)
    requires SetsFlags(s, ins) && OpcodeField(ins) == 10 && Rn(s, ins) == 1
    ensures !CondPassed(2, FlagsOfState(Executed(s, ins, 0, sco).state))
  {
    ConditionsAfterSubtraction(s, ins, 0, sco);
  }

  /**
    The carry every addition and subtraction leaves, with the carry that enters written
    out: ADC, SBC and RSC take it in, and lose theirs with Rn all ones.
   */
  lemma CarryByOperands(s: State, ins: word, sop: word, sco: byte)
    requires SetsFlags(s, ins) && OpcodeField(ins) in {2, 3, 4, 5, 6, 7, 10, 11}
    ensures var f, c := FlagsOfState(Executed(s, ins, sop, sco).state), ToInt(FlagsOfState(s).c);
            f.c <==> if OpcodeField(ins) in {5, 6, 7}
                     then Rn(s, ins) + sop + c >= 0x1_0000_0000 && !(Rn(s, ins) == 0xFFFF_FFFF && c == 1)
                     else Rn(s, ins) + sop >= 0x1_0000_0000
  {
    FlagsAfter(s, ins, sop, sco);
  }

  // ---- Logical operations -------------------------------------------------

  /** Digit i of a logical result, from digit i of the operands. */
  predicate ResultDigit(opcode: byte, rn: word, sop: word, i: nat) {
    LogicalDigit(opcode, Bit(rn, i), Bit(sop, i))
  }

  lemma {:induction false} NoDigitInZero(i: nat)
    ensures !Bit(0, i)
  {
    if i > 0 {
      NoDigitInZero(i - 1);
    }
  }

  lemma {:induction false} SomeDigit(x: nat, n: nat) returns (i: nat)
    requires 0 < x < Pow2(n)
    ensures i < n && Bit(x, i)
  {
    if x % 2 == 1 {
      i := 0;
    } else {
      i := SomeDigit(x / 2, n - 1);
      i := i + 1;
    }
  }

  lemma LogicalFlags(s: State, ins: word, sop: word, sco: byte)
    requires SetsFlags(s, ins) && OpcodeField(ins) in {0, 1, 8, 9, 12, 13, 14, 15}
    ensures var f, res := FlagsOfState(Executed(s, ins, sop, sco).state), ResultOf(s, ins, sop);
            f.n == (res >= 0x8000_0000) && f.z == (res == 0) && f.c == (sco != 0) && f.v == FlagsOfState(s).v
  {
    FlagsAfter(s, ins, sop, sco);
  }

  /** Zero and sign of a logical result, by the truth table of its opcode. */
  lemma LogicalZeroAndSign(opcode: byte, rn: word, sop: word, c: bool)
    requires opcode in {0, 1, 8, 9, 12, 13, 14, 15}
    ensures var res := Alu(opcode, rn, sop, c);
            && (res == 0 <==> forall i :: 0 <= i < 32 ==> !ResultDigit(opcode, rn, sop, i))
            && (res >= 0x8000_0000 <==> ResultDigit(opcode, rn, sop, 31))
  {
    var res := Alu(opcode, rn, sop, c);
    LogicalDigits(opcode, rn, sop, c);
    DigitsDecide(opcode, rn, sop, res);
  }

  /** A word is zero if all its digits are, and its sign is its top digit. */
  lemma DigitsDecide(opcode: byte, rn: word, sop: word, res: word)
    requires ActsOnDigits(opcode, rn, sop, res)
    ensures res == 0 <==> forall i :: 0 <= i < 32 ==> !ResultDigit(opcode, rn, sop, i)
    ensures res >= 0x8000_0000 <==> ResultDigit(opcode, rn, sop, 31)
  {
    SignBit(res);
    if res == 0 {
      forall i | 0 <= i < 32
        ensures !ResultDigit(opcode, rn, sop, i)
      {
        NoDigitInZero(i);
      }
    } else {
      Pow2Of32();
      var i := SomeDigit(res, 32);
      assert ResultDigit(opcode, rn, sop, i);
    }
  }

  /**
    After a logical operation or test, EQ and MI speak of the result and of its digits,
    CS is the shifter's carry, and VS is what it was.
   */
  lemma ConditionsAfterLogical(s: State, ins: word, sop: word, sco: byte)
    requires SetsFlags(s, ins) && OpcodeField(ins) in {0, 1, 8, 9, 12, 13, 14, 15}
    ensures var f, res := FlagsOfState(Executed(s, ins, sop, sco).state), ResultOf(s, ins, sop);
            && (CondPassed(0, f) <==> res == 0)
            && (CondPassed(4, f) <==> res >= 0x8000_0000)
            && (CondPassed(2, f) <==> sco != 0)
            && (CondPassed(6, f) <==> FlagsOfState(s).v)
    ensures var f, op, rn := FlagsOfState(Executed(s, ins, sop, sco).state), OpcodeField(ins), Rn(s, ins);
            && (CondPassed(0, f) <==> forall i :: 0 <= i < 32 ==> !ResultDigit(op, rn, sop, i))
            && (CondPassed(4, f) <==> ResultDigit(op, rn, sop, 31))
  {
    LogicalFlags(s, ins, sop, sco);
    ZeroAndSign(s, ins, sop);
  }

  lemma ZeroAndSign(s: State, ins: word, sop: word)
    requires OpcodeField(ins) in {0, 1, 8, 9, 12, 13, 14, 15}
    ensures var op, rn, res := OpcodeField(ins), Rn(s, ins), ResultOf(s, ins, sop);
            && (res == 0 <==> forall i :: 0 <= i < 32 ==> !ResultDigit(op, rn, sop, i))
            && (res >= 0x8000_0000 <==> ResultDigit(op, rn, sop, 31))
  {
    LogicalZeroAndSign(OpcodeField(ins), Rn(s, ins), sop, FlagsOfState(s).c);
  }
}
