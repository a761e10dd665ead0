/** Long addition by one ADDS and ADCS, and long subtraction by one SUBS and SBCS, limb by limb. */
module MultiWord {
  import opened Words
  import opened Util
  import opened ArmCore
  import opened DataProcessing
  import opened Conditions

  /** One instruction: the state it runs in, the instruction, and the shifter's output. */
  datatype Limb = Limb(before: State, ins: word, sop: word, sco: byte) {
    function After(): State {
      Executed(before, ins, sop, sco).state
    }

    function A(): word {
      Rn(before, ins)
    }

    function Result(): word {
      CoreRead(After().regs, RdField(ins))
    }

    function CarryBefore(): bool {
      FlagsOfState(before).c
    }

    function CarryAfter(): bool {
      FlagsOfState(After()).c
    }

    /** The instruction meets the one operand pair whose carry the code loses. */
    predicate Loses() {
      BoundWraps(A(), Cin(before, ins))
    }

    /** How far C is off as the absence of a borrow: by -1, 0 or 1. */
    function BorrowError(): int {
      ToInt(CarryAfter()) as int - ToInt(Difference(before, ins, sop) >= 0)
    }
  }

  predicate Operates(l: Limb, opcode: byte) {
    SetsFlags(l.before, l.ins) && OpcodeField(l.ins) == opcode && Holds(l.before.regs, RdField(l.ins))
  }

  /** A run of one operation; between instructions anything may happen that keeps the carry flag. */
  ghost predicate CarryChain(ls: seq<Limb>, opcode: byte) {
    && (forall i :: 0 <= i < |ls| ==> Operates(ls[i], opcode))
    && (forall i :: 0 < i < |ls| ==> ls[i].CarryBefore() == ls[i - 1].CarryAfter())
  }

  /** One instruction that starts without a carry, then a run of one that takes it in. */
  ghost predicate LongChain(ls: seq<Limb>, first: byte, rest: byte) {
    && ls != [] && Operates(ls[0], first) && CarryChain(ls[1..], rest)
    && (|ls| > 1 ==> ls[1].CarryBefore() == ls[0].CarryAfter())
  }

  /** One ADDS, then ADCS. */
  ghost predicate AddChain(ls: seq<Limb>) {
    LongChain(ls, 4, 5)
  }

  /** One SUBS, then SBCS. */
  ghost predicate SubtractChain(ls: seq<Limb>) {
    LongChain(ls, 2, 6)
  }

  lemma ChainTail(ls: seq<Limb>, opcode: byte)
    requires CarryChain(ls, opcode) && ls != []
    ensures CarryChain(ls[1..], opcode)
    ensures |ls| > 1 ==> ls[1..][0].CarryBefore() == ls[0].CarryAfter()
  {
    var rest := ls[1..];
    forall i | 0 < i < |rest|
      ensures rest[i].CarryBefore() == rest[i - 1].CarryAfter()
    {
      assert ls[i + 1].CarryBefore() == ls[i].CarryAfter();
    }
  }

  /** Limbs as one number, least significant first, and the weight above n limbs. */
  function Value(ws: seq<word>): nat
    decreases |ws|
  {
    if ws == [] then 0 else ws[0] + 0x1_0000_0000 * Value(ws[1..])
  }

  function Weight(n: nat): nat {
    if n == 0 then 1 else 0x1_0000_0000 * Weight(n - 1)
  }

  lemma {:induction false} WeightIsPower(n: nat)
    ensures Weight(n) == Pow2(32 * n)
  {
    if n > 0 {
      WeightIsPower(n - 1);
      Pow2Of32();
      Pow2Split(32, 32 * (n - 1));
    }
  }

  lemma Pow2Split(a: nat, b: nat)
    ensures Pow2(a + b) == Pow2(a) * Pow2(b)
  {
    ScaleOne(a + b);
    ScaleOne(b);
    ScaleCompose(1, b, a);
    ScaleIsProduct(Pow2(b), a);
  }

  function As(ls: seq<Limb>): seq<word>
    decreases |ls|
  {
    if ls == [] then [] else [ls[0].A()] + As(ls[1..])
  }

  function Bs(ls: seq<Limb>): seq<word>
    decreases |ls|
  {
    if ls == [] then [] else [ls[0].sop] + Bs(ls[1..])
  }

  function Results(ls: seq<Limb>): seq<word>
    decreases |ls|
  {
    if ls == [] then [] else [ls[0].Result()] + Results(ls[1..])
  }

  /** The carries the code drops, each with the weight of the limb it should have entered. */
  function Lost(ls: seq<Limb>): nat
    decreases |ls|
  {
    if ls == [] then 0
    else (if ls[0].Loses() then 0x1_0000_0000 else 0) + 0x1_0000_0000 * Lost(ls[1..])
  }

  function CarryOf(ls: seq<Limb>, c: bool): bool {
    if ls == [] then c else ls[|ls| - 1].CarryAfter()
  }

  lemma SumSplits(a: word, b: word, cin: nat)
    requires cin <= 1
    ensures var carry := a + b + cin >= 0x1_0000_0000 && !BoundWraps(a, cin);
            Wrap(a + b + cin) + 0x1_0000_0000 * (ToInt(carry) + ToInt(BoundWraps(a, cin))) == a + b + cin
  {
  }

  /** One limb, exactly: result, carry and dropped carry account for the whole sum. */
  lemma LimbIsExact(l: Limb, opcode: byte)
    requires (opcode == 4 || opcode == 5) && Operates(l, opcode)
    ensures l.Result() + 0x1_0000_0000 * (ToInt(l.CarryAfter()) + ToInt(l.Loses())) ==
            l.A() + l.sop + (if opcode == 5 then ToInt(l.CarryBefore()) else 0)
  {
    FlagsAfter(l.before, l.ins, l.sop, l.sco);
    ResultAfter(l.before, l.ins, l.sop, l.sco);
    SumSplits(l.A(), l.sop, Cin(l.before, l.ins));
  }

  /** A chain of ADCS from a given carry, for every length. */
  lemma {:induction false} AdcChainIsExact(ls: seq<Limb>, c: bool)
    requires CarryChain(ls, 5) && (ls != [] ==> ls[0].CarryBefore() == c)
    ensures Value(Results(ls)) + (if CarryOf(ls, c) then Weight(|ls|) else 0) + Lost(ls) ==
            Value(As(ls)) + Value(Bs(ls)) + ToInt(c)
    decreases |ls|
  {
    if ls != [] {
      var l, rest := ls[0], ls[1..];
      LimbIsExact(l, 5);
      ChainTail(ls, 5);
      AdcChainIsExact(rest, l.CarryAfter());
      assert CarryOf(rest, l.CarryAfter()) == CarryOf(ls, c);
      Heads(ls);
    }
  }

  lemma Heads(ls: seq<Limb>)
    requires ls != []
    ensures Value(Results(ls)) == ls[0].Result() + 0x1_0000_0000 * Value(Results(ls[1..]))
    ensures Value(As(ls)) == ls[0].A() + 0x1_0000_0000 * Value(As(ls[1..]))
    ensures Value(Bs(ls)) == ls[0].sop + 0x1_0000_0000 * Value(Bs(ls[1..]))
  {
    assert Results(ls)[1..] == Results(ls[1..]);
    assert As(ls)[1..] == As(ls[1..]);
    assert Bs(ls)[1..] == Bs(ls[1..]);
  }

  /** Conservation over the whole addition, dropped carries included. */
  lemma MultiWordAddition(ls: seq<Limb>)
    requires AddChain(ls)
    ensures Value(Results(ls)) + (if CarryOf(ls, false) then Weight(|ls|) else 0) + Lost(ls) ==
            Value(As(ls)) + Value(Bs(ls))
  {
    LimbIsExact(ls[0], 4);
    AdcChainIsExact(ls[1..], ls[0].CarryAfter());
    Heads(ls);
    assert CarryOf(ls[1..], ls[0].CarryAfter()) == CarryOf(ls, false);
  }

  lemma {:induction false} NothingLost(ls: seq<Limb>)
    ensures Lost(ls) == 0 <==> forall i :: 0 <= i < |ls| ==> !ls[i].Loses()
    decreases |ls|
  {
    if ls != [] {
      NothingLost(ls[1..]);
      if forall i :: 0 <= i < |ls[1..]| ==> !ls[1..][i].Loses() {
        assert forall i :: 1 <= i < |ls| ==> ls[i] == ls[1..][i - 1];
      } else {
        var i :| 0 <= i < |ls[1..]| && ls[1..][i].Loses();
        assert ls[i + 1].Loses();
      }
    }
  }

  /**
    The limbs and the final carry are the exact sum if and only if no instruction
    runs with Rn all ones and a carry in.
   */
  lemma MultiWordExactness(ls: seq<Limb>)
    requires AddChain(ls)
    ensures Value(Results(ls)) + (if CarryOf(ls, false) then Pow2(32 * |ls|) else 0) ==
            Value(As(ls)) + Value(Bs(ls))
            <==> forall i :: 0 <= i < |ls| ==> !ls[i].Loses()
  {
    MultiWordAddition(ls);
    NothingLost(ls);
    WeightIsPower(|ls|);
  }

  // ---- Subtraction --------------------------------------------------------

  /** One limb, exactly: result, carry and error of the carry account for the whole difference. */
  lemma SubtractLimbIsExact(l: Limb, opcode: byte)
    requires (opcode == 2 || opcode == 6) && Operates(l, opcode)
    ensures l.Result() - 0x1_0000_0000 * (1 - ToInt(l.CarryAfter())) ==
            l.A() - l.sop - (if opcode == 6 then 1 - ToInt(l.CarryBefore()) else 0) + 0x1_0000_0000 * l.BorrowError()
    ensures l.BorrowError() == 0 <==> SumTellsBorrow(l.before, l.ins, l.sop)
    ensures -1 <= l.BorrowError() <= 1
  {
    ErrorOfCarry(l, opcode);
    DifferenceOfLimb(l, opcode);
    DifferenceSplits(l.A(), l.sop, Borrow(l.before, l.ins));
  }

  lemma ErrorOfCarry(l: Limb, opcode: byte)
    requires (opcode == 2 || opcode == 6) && Operates(l, opcode)
    ensures l.BorrowError() == 0 <==> SumTellsBorrow(l.before, l.ins, l.sop)
  {
    OneOfCarryAndOverflow(l.before, l.ins, l.sop, l.sco);
  }

  lemma DifferenceOfLimb(l: Limb, opcode: byte)
    requires (opcode == 2 || opcode == 6) && Operates(l, opcode)
    ensures Difference(l.before, l.ins, l.sop) == l.A() - l.sop - Borrow(l.before, l.ins)
    ensures l.Result() == Wrap(l.A() - l.sop - Borrow(l.before, l.ins))
    ensures Borrow(l.before, l.ins) == if opcode == 6 then 1 - ToInt(l.CarryBefore()) else 0
  {
    ResultAfter(l.before, l.ins, l.sop, l.sco);
  }

  lemma DifferenceSplits(a: word, b: word, borrow: nat)
    requires borrow <= 1
    ensures Wrap(a - b - borrow) ==
            a - b - borrow + 0x1_0000_0000 * (1 - ToInt(a - b - borrow >= 0))
  {
  }

  function BorrowErrors(ls: seq<Limb>): seq<int>
    decreases |ls|
  {
    if ls == [] then [] else [ls[0].BorrowError()] + BorrowErrors(ls[1..])
  }

  /** The errors of the carries, each with the weight of the limb it enters. */
  function Weighted(es: seq<int>): int
    decreases |es|
  {
    if es == [] then 0 else 0x1_0000_0000 * (es[0] + Weighted(es[1..]))
  }

  lemma ErrorHead(ls: seq<Limb>)
    requires ls != []
    ensures Weighted(BorrowErrors(ls)) == 0x1_0000_0000 * (ls[0].BorrowError() + Weighted(BorrowErrors(ls[1..])))
  {
    assert BorrowErrors(ls)[1..] == BorrowErrors(ls[1..]);
  }

  /** A chain of SBCS from a given carry, for every length. */
  lemma {:induction false} SbcChainIsExact(ls: seq<Limb>, c: bool)
    requires CarryChain(ls, 6) && (ls != [] ==> ls[0].CarryBefore() == c)
    ensures Value(Results(ls)) - (if CarryOf(ls, c) then 0 else Weight(|ls|)) ==
            Value(As(ls)) - Value(Bs(ls)) - (1 - ToInt(c)) + Weighted(BorrowErrors(ls))
    decreases |ls|
  {
    if ls != [] {
      SubtractLimbIsExact(ls[0], 6);
      ChainTail(ls, 6);
      SbcChainIsExact(ls[1..], ls[0].CarryAfter());
      assert CarryOf(ls[1..], ls[0].CarryAfter()) == CarryOf(ls, c);
      Heads(ls);
      ErrorHead(ls);
    }
  }

  /** Conservation over the whole subtraction, errors of the carries included. */
  lemma MultiWordSubtraction(ls: seq<Limb>)
    requires SubtractChain(ls)
    ensures Value(Results(ls)) - (if CarryOf(ls, false) then 0 else Weight(|ls|)) ==
            Value(As(ls)) - Value(Bs(ls)) + Weighted(BorrowErrors(ls))
  {
    SubtractLimbIsExact(ls[0], 2);
    SbcChainIsExact(ls[1..], ls[0].CarryAfter());
    Heads(ls);
    ErrorHead(ls);
    assert CarryOf(ls[1..], ls[0].CarryAfter()) == CarryOf(ls, false);
  }

  /** Errors of either sign never cancel: each is smaller than the weight of the next. */
  lemma {:induction false} NoneCancel(es: seq<int>)
    requires forall i :: 0 <= i < |es| ==> -1 <= es[i] <= 1
    ensures Weighted(es) % 0x1_0000_0000 == 0
    ensures Weighted(es) == 0 <==> forall i :: 0 <= i < |es| ==> es[i] == 0
    decreases |es|
  {
    if es != [] {
      NoneCancel(es[1..]);
      assert forall i :: 1 <= i < |es| ==> es[i] == es[1..][i - 1];
      assert (forall i :: 0 <= i < |es| ==> es[i] == 0)
             <==> es[0] == 0 && forall i :: 0 <= i < |es[1..]| ==> es[1..][i] == 0;
    }
  }

  lemma {:induction false} BorrowErrorAt(ls: seq<Limb>, i: nat)
    requires i < |ls|
    ensures |BorrowErrors(ls)| == |ls| && BorrowErrors(ls)[i] == ls[i].BorrowError()
    decreases |ls|
  {
    if |ls| > 1 {
      BorrowErrorAt(ls[1..], if i == 0 then 0 else i - 1);
    }
  }

  /**
    The limbs and the final borrow are the exact difference if and only if in every
    limb the addition test happens to tell the borrow.
   */
  lemma SubtractionExactness(ls: seq<Limb>)
    requires SubtractChain(ls)
    ensures Value(Results(ls)) - (if CarryOf(ls, false) then 0 else Pow2(32 * |ls|)) ==
            Value(As(ls)) - Value(Bs(ls))
            <==> forall i :: 0 <= i < |ls| ==> SumTellsBorrow(ls[i].before, ls[i].ins, ls[i].sop)
  {
    var es := BorrowErrors(ls);
    forall i | 0 <= i < |ls|
      ensures |es| == |ls| && -1 <= es[i] <= 1
      ensures es[i] == 0 <==> SumTellsBorrow(ls[i].before, ls[i].ins, ls[i].sop)
    {
      if i > 0 {
        assert ls[i] == ls[1..][i - 1];
      }
      SubtractLimbIsExact(ls[i], if i == 0 then 2 else 6);
      BorrowErrorAt(ls, i);
    }
    MultiWordSubtraction(ls);
    assert |es| == |ls|;
    NoneCancel(es);
    WeightIsPower(|ls|);
  }
}
