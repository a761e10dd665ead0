/** The rest of util.c: decoding, the condition test, branch offsets and the flag update. */
module Util {
  import opened Words
  import opened ArmConstants
  import opened StatusFlags

  // ---- Fields of a data-processing instruction ----------------------------

  datatype RegFields = RegFields(cond: byte, opcode: byte, S: byte, Rn: byte, Rd: byte, Sop: word, RnVal: word)

  /** util.c:91-98.  RnVal is the caller's to fill. */
  function ExtractDataProcFields(ins: word, rf: RegFields, sop: word): RegFields {
    FieldRanges(ins);
    rf.(cond := GetBits(ins, 31, 28), opcode := GetBits(ins, 24, 21), S := GetBit(ins, 20),
        Rn := GetBits(ins, 19, 16), Rd := GetBits(ins, 15, 12), Sop := sop)
  }

  /** The fields of an instruction word as plain arithmetic. */
  function CondField(ins: word): byte { ins / 0x1000_0000 }
  function ClassField(ins: word): byte { ins / 0x200_0000 % 8 }
  function OpcodeField(ins: word): byte { ins / 0x20_0000 % 16 }
  function SField(ins: word): byte { ins / 0x10_0000 % 2 }
  function RnField(ins: word): byte { ins / 0x1_0000 % 16 }
  function RdField(ins: word): byte { ins / 0x1000 % 16 }

  lemma LowPowers()
    ensures Pow2(1) == 2 && Pow2(2) == 4 && Pow2(3) == 8 && Pow2(4) == 16 && Pow2(5) == 32
    ensures Pow2(7) == 0x80 && Pow2(8) == 0x100 && Pow2(12) == 0x1000 && Pow2(16) == 0x1_0000
    ensures Pow2(20) == 0x10_0000 && Pow2(21) == 0x20_0000 && Pow2(24) == 0x100_0000 && Pow2(25) == 0x200_0000
    ensures Pow2(28) == 0x1000_0000
  {
    assert Pow2(8) == 0x100;
    assert Pow2(16) == 0x1_0000;
    assert Pow2(24) == 0x100_0000;
  }

  lemma FieldRanges(ins: word)
    ensures GetBits(ins, 31, 28) == CondField(ins) < 16
    ensures GetBits(ins, 27, 25) == ClassField(ins)
    ensures GetBits(ins, 24, 21) == OpcodeField(ins)
    ensures GetBit(ins, 20) == SField(ins)
    ensures GetBits(ins, 19, 16) == RnField(ins)
    ensures GetBits(ins, 15, 12) == RdField(ins)
  {
    LowPowers();
    BitDivision(ins, 20);
  }

  /** The fields partition the word: with the class and the operand bits they give it back. */
  lemma FieldsRecompose(ins: word)
    ensures ins == CondField(ins) * 0x1000_0000 + ClassField(ins) * 0x200_0000 + OpcodeField(ins) * 0x20_0000
                   + SField(ins) * 0x10_0000 + RnField(ins) * 0x1_0000 + RdField(ins) * 0x1000 + ins % 0x1000
  {
    var a, b, d, e, f := ins / 0x1000, ins / 0x1_0000, ins / 0x10_0000, ins / 0x20_0000, ins / 0x200_0000;
    assert a / 16 == b && b / 16 == d && d / 2 == e && e / 16 == f && f / 8 == CondField(ins);
  }

  // ---- Condition test -----------------------------------------------------

  /** The file-scope variable of util.c. */
  class UtilState {
    var regCPSR: word

    constructor () {
      regCPSR := 0;
    }

    /** util.c:42-44 */
    predicate CheckFs(flag: nat, state: nat)
      requires flag < 32
      reads this
    {
      GetBit(regCPSR, flag) == state
    }

    lemma ChecksReadFlags()
      ensures var f := FlagsIn(regCPSR);
              && CheckFs(N, 1) == f.n && CheckFs(N, 0) == !f.n
              && CheckFs(Z, 1) == f.z && CheckFs(Z, 0) == !f.z
              && CheckFs(C, 1) == f.c && CheckFs(C, 0) == !f.c
              && CheckFs(V, 1) == f.v && CheckFs(V, 0) == !f.v
    {
      FlagBits(regCPSR);
    }

    /** util.c:46-82.  Any non-zero result counts as true for the callers. */
    method CondValid(cond: byte, reg: word) returns (r: int)
      modifies this
      ensures regCPSR == reg
      ensures r != 0 <==> CondPassed(cond, FlagsIn(reg))
      ensures r == if cond >= 15 then -1 else if CondPassed(cond, FlagsIn(reg)) then 1 else 0
    {
      regCPSR := reg;
      ChecksReadFlags();
      var ok: bool;
      match cond {
        case 0 => ok := CheckFs(Z, 1);
        case 1 => ok := CheckFs(Z, 0);
        case 2 => ok := CheckFs(C, 1);
        case 3 => ok := CheckFs(C, 0);
        case 4 => ok := CheckFs(N, 1);
        case 5 => ok := CheckFs(N, 0);
        case 6 => ok := CheckFs(V, 1);
        case 7 => ok := CheckFs(V, 0);
        case 8 => ok := CheckFs(C, 1) && CheckFs(Z, 0);
        case 9 => ok := CheckFs(C, 0) || CheckFs(Z, 1);
        case 10 => ok := (CheckFs(N, 1) && CheckFs(V, 1)) || (CheckFs(N, 0) && CheckFs(V, 0));
        case 11 => ok := (CheckFs(N, 1) && CheckFs(V, 0)) || (CheckFs(N, 0) && CheckFs(V, 1));
        case 12 => ok := CheckFs(Z, 0) && ((CheckFs(N, 1) && CheckFs(V, 1)) || (CheckFs(N, 0) && CheckFs(V, 0)));
        case 13 => ok := CheckFs(Z, 1) || (CheckFs(N, 1) && CheckFs(V, 0)) || (CheckFs(N, 0) && CheckFs(V, 1));
        case 14 => return 1;
        case _ => return -1;
      }
      r := ToInt(ok);
    }
  }

  // ---- Branch offsets -----------------------------------------------------

  /** util.c:84-89 */
  function JmpCalc(jmpTarget: word, sign: int): word {
    if sign != 0 then Shl(BOr(Wrap(Scale(-1, 24)), jmpTarget), 2) else Shl(jmpTarget, 2)
  }

  /** The two's complement reading of a 24-bit field. */
  function Signed24(t: nat): int {
    if t < 0x80_0000 then t else t - 0x100_0000
  }

  /** Sign extension by OR: the field below eight ones. */
  lemma OrSignExtends(t: word)
    requires t < 0x100_0000
    ensures BOr(Wrap(Scale(-1, 24)), t) == 0xFF00_0000 + t
  {
    LowPowers();
    ScaleIsProduct(-1, 24);
    ScaleIsProduct(0xFF, 24);
    OrFields(t, 0xFF, 24);
  }

  lemma SignOfField(t: word)
    requires t < 0x100_0000
    ensures GetBit(t, 23) == if t < 0x80_0000 then 0 else 1
  {
    assert Pow2(8) == 0x100;
    assert Pow2(16) == 0x1_0000;
    assert Pow2(23) == 0x80_0000;
    BitDivision(t, 23);
  }

  /** A branch offset is four times the signed field (section A4.1.5). */
  lemma JmpCalcValue(t: word)
    requires t < 0x100_0000
    ensures JmpCalc(t, GetBit(t, 23)) == Wrap(4 * Signed24(t))
    ensures Signed(JmpCalc(t, GetBit(t, 23))) == 4 * Signed24(t)
  {
    SignOfField(t);
    if t < 0x80_0000 {
      ScaleByFour(t);
      assert JmpCalc(t, GetBit(t, 23)) == 4 * t;
    } else {
      OrSignExtends(t);
      ScaleByFour(0xFF00_0000 + t);
      assert JmpCalc(t, GetBit(t, 23)) == 0xFC00_0000 + 4 * t;
    }
  }

  lemma ScaleByFour(x: int)
    ensures Scale(x, 2) == 4 * x
  {
    assert Scale(x, 2) == 2 * Scale(x, 1);
  }

  /** The field that encodes an offset. */
  function OffsetField(offset: int): word {
    offset / 4 % 0x100_0000
  }

  /** Fields and multiples of 4 in [-2^25, 2^25 - 4] correspond one to one. */
  lemma JmpCalcBijective(t: word, offset: int)
    requires t < 0x100_0000
    requires -0x200_0000 <= offset <= 0x200_0000 - 4 && offset % 4 == 0
    ensures -0x200_0000 <= Signed(JmpCalc(t, GetBit(t, 23))) <= 0x200_0000 - 4
    ensures Signed(JmpCalc(t, GetBit(t, 23))) % 4 == 0
    ensures OffsetField(Signed(JmpCalc(t, GetBit(t, 23)))) == t
    ensures var u := OffsetField(offset); u < 0x100_0000 && Signed(JmpCalc(u, GetBit(u, 23))) == offset
  {
    OffsetOfField(t);
    FieldOfOffset(offset);
  }

  lemma OffsetOfField(t: word)
    requires t < 0x100_0000
    ensures var o := Signed(JmpCalc(t, GetBit(t, 23)));
            -0x200_0000 <= o <= 0x200_0000 - 4 && o % 4 == 0 && OffsetField(o) == t
  {
    JmpCalcValue(t);
    OffsetRoundTrip(t, 0);
    MultipleOfFour(Signed24(t));
  }

  lemma MultipleOfFour(k: int)
    ensures 4 * k % 4 == 0
  {
  }

  lemma FieldOfOffset(offset: int)
    requires -0x200_0000 <= offset <= 0x200_0000 - 4 && offset % 4 == 0
    ensures var u := OffsetField(offset); u < 0x100_0000 && Signed(JmpCalc(u, GetBit(u, 23))) == offset
  {
    OffsetRoundTrip(0, offset);
    JmpCalcValue(OffsetField(offset));
  }

  lemma OffsetRoundTrip(t: word, offset: int)
    requires t < 0x100_0000
    requires -0x200_0000 <= offset <= 0x200_0000 - 4 && offset % 4 == 0
    ensures -0x80_0000 <= Signed24(t) < 0x80_0000 && OffsetField(4 * Signed24(t)) == t
    ensures OffsetField(offset) < 0x100_0000 && 4 * Signed24(OffsetField(offset)) == offset
  {
    var k := offset / 4;
    DivUnique(k, 0x100_0000, if k < 0 then -1 else 0, if k < 0 then k + 0x100_0000 else k);
    var g := Signed24(t);
    assert 4 * g / 4 == g;
    DivUnique(g, 0x100_0000, if g < 0 then -1 else 0, t);
  }

  // ---- Flag update --------------------------------------------------------

  /** AND, EOR, TST, TEQ, ORR, MOV, BIC and MVN. */
  predicate IsLogical(opcode: byte) {
    opcode in {0, 1, 8, 9, 12, 13, 14, 15}
  }

  /** ADC, SBC and RSC. */
  predicate UsesCarry(opcode: byte) {
    opcode in {5, 6, 7}
  }

  /** The carry that enters the carry test of an opcode. */
  function CarryIn(opcode: byte, c: bool): nat {
    if UsesCarry(opcode) then ToInt(c) else 0
  }

  /** The one input pair for which the carry bound of the source wraps around. */
  predicate BoundWraps(rn: word, cin: nat) {
    rn == 0xFFFF_FFFF && cin == 1
  }

  predicate Top(x: word) {
    x >= 0x8000_0000
  }

  /** The carry the addition test delivers, for every non-logical opcode. */
  predicate CarryOut(opcode: byte, rn: word, sop: word, c: bool) {
    var cin := CarryIn(opcode, c);
    rn + sop + cin >= 0x1_0000_0000 && !BoundWraps(rn, cin)
  }

  /** The flags of an arithmetic or logical result, as exact conditions on integers. */
  function FlagsOf(opcode: byte, rn: word, sop: word, res: word, sco: byte, prev: Flags): Flags {
    var f := Flags(Top(res), res == 0, prev.c, prev.v);
    if IsLogical(opcode) then f.(c := sco != 0)
    else
      var carry := CarryOut(opcode, rn, sop, prev.c);
      f.(c := carry, v := ((Top(sop) != Top(rn)) != Top(res)) != carry)
  }

  function Put(f: Flags, pos: nat, b: bool): Flags {
    if pos == N then f.(n := b) else if pos == Z then f.(z := b) else if pos == C then f.(c := b) else f.(v := b)
  }

  /** Rewriting one flag bit is rewriting one field of Flags. */
  lemma FlagWritten(reg: word, pos: nat)
    requires pos in {N, Z, C, V}
    ensures SetBit(reg, pos) == WithFlags(reg, Put(FlagsIn(reg), pos, true))
    ensures ClrBit(reg, pos) == WithFlags(reg, Put(FlagsIn(reg), pos, false))
  {
    var f := FlagsIn(reg);
    FlagPowers();
    FlagBits(reg);
    FlagsRoundTrip(reg, f);
    PutWeight(reg, f, pos, true);
    PutWeight(reg, f, pos, false);
  }

  function FlagAt(f: Flags, pos: nat): bool {
    if pos == N then f.n else if pos == Z then f.z else if pos == C then f.c else f.v
  }

  /** Rewriting one field moves the status word by the weight of its bit, or not at all. */
  lemma PutWeight(reg: word, f: Flags, pos: nat, b: bool)
    ensures WithFlags(reg, Put(f, pos, b)) ==
            WithFlags(reg, f) + (ToInt(b) as int - ToInt(FlagAt(f, pos))) * FlagWeight(pos)
  {
  }

  function FlagWeight(pos: nat): nat {
    if pos == N then 0x8000_0000 else if pos == Z then 0x4000_0000 else if pos == C then 0x2000_0000 else 0x1000_0000
  }

  lemma {:induction false} BitOfPow2(pos: nat, i: nat)
    ensures Bit(Pow2(pos), i) == (i == pos)
  {
    ScaleOne(pos);
    BitOfScaled(1, pos, i);
    if i > pos {
      BitBeyond(1, 1, i - pos);
    }
  }

  /** util.c:100-102.  The word behind the pointer is the out-parameter. */
  method ModBit(reg0: word, b: int, pos: nat) returns (reg: word)
    requires pos < 32
    ensures forall i :: 0 <= i < 32 ==> Bit(reg, i) == if i == pos then b != 0 else Bit(reg0, i)
    ensures pos in {N, Z, C, V} ==> reg == WithFlags(reg0, Put(FlagsIn(reg0), pos, b != 0))
  {
    if b != 0 {
      reg := SetBit(reg0, pos);
    } else {
      reg := ClrBit(reg0, pos);
    }
    if pos in {N, Z, C, V} {
      FlagWritten(reg0, pos);
    }
    forall i | 0 <= i < 32
      ensures Bit(SetBit(reg0, pos), i) == (i == pos || Bit(reg0, i))
      ensures Bit(ClrBit(reg0, pos), i) == (i != pos && Bit(reg0, i))
    {
      BitsOfSetClr(reg0, pos, i);
    }
  }

  lemma BitsOfSetClr(x: word, pos: nat, i: nat)
    requires pos < 32 && i < 32
    ensures Bit(SetBit(x, pos), i) == (i == pos || Bit(x, i))
    ensures Bit(ClrBit(x, pos), i) == (i != pos && Bit(x, i))
  {
    OneShifted(pos);
    BitOfPow2(pos, i);
    BitOfOr(x, Shl(1, pos), i);
    BitOfNot(Shl(1, pos), i);
    BitOfAnd(x, BNot(Shl(1, pos)), i);
  }

  /** A status word whose flags are tracked against the initial one stays tracked. */
  lemma FlagTracked(reg0: word, f: Flags, reg: word, pos: nat, b: bool)
    requires pos in {N, Z, C, V}
    requires reg == WithFlags(reg0, f)
    ensures FlagsIn(reg) == f
    ensures WithFlags(reg, Put(f, pos, b)) == WithFlags(reg0, Put(f, pos, b))
    ensures FlagsIn(WithFlags(reg0, Put(f, pos, b))) == Put(f, pos, b)
  {
    FlagsRoundTrip(reg0, f);
    FlagsOverwrite(reg0, f, Put(f, pos, b));
    FlagsRoundTrip(reg0, Put(f, pos, b));
  }

  lemma XorDigits(x: byte, y: byte)
    requires x <= 1 && y <= 1
    ensures BXor(x, y) == ToInt(x != y)
  {
    XorBools(x != 0, y != 0);
    if x == 0 {
      if y != 0 {
        assert y == 1;
      }
    } else {
      assert x == 1;
    }
  }

  lemma XorBools(p: bool, q: bool)
    ensures BXor(ToInt(p), ToInt(q)) == ToInt(p != q)
  {
    XorZero(31);
    assert Bitwise(Xor, ToInt(p), ToInt(q), 32) == ToInt(p != q) + 2 * Bitwise(Xor, 0, 0, 31);
  }

  lemma {:induction false} XorZero(n: nat)
    ensures Bitwise(Xor, 0, 0, n) == 0
  {
    if n > 0 {
      XorZero(n - 1);
    }
  }

  /** util.c:129, an unsigned comparison with a bound computed modulo 2^32. */
  method CarryTest(rn: word, sop: word, carryOut: byte) returns (carry: bool)
    requires carryOut <= 1
    ensures carry <==> rn + sop + carryOut >= 0x1_0000_0000 && !BoundWraps(rn, carryOut)
  {
    var maxVal: word := 0xFFFF_FFFF;
    carry := !(sop <= Wrap(Wrap(maxVal + Wrap(BNot(rn) + 1)) - carryOut));
  }

  lemma CarryBit(reg: word)
    ensures GetBit(reg, C) == ToInt(FlagsIn(reg).c)
  {
    FlagBits(reg);
  }

  /** ModBit on a status word whose flags are known against the initial one. */
  method WriteFlag(reg: word, b: int, pos: nat, ghost reg0: word, ghost f: Flags) returns (r: word)
    requires pos in {N, Z, C, V} && reg == WithFlags(reg0, f)
    ensures r == WithFlags(reg0, Put(f, pos, b != 0))
  {
    FlagTracked(reg0, f, reg, pos, b != 0);
    r := ModBit(reg, b, pos);
  }

  /** get_bit(reg, C) on such a word. */
  method ReadCarry(reg: word, ghost reg0: word, ghost f: Flags) returns (c: byte)
    requires reg == WithFlags(reg0, f)
    ensures c == ToInt(f.c)
  {
    FlagsRoundTrip(reg0, f);
    CarryBit(reg);
    c := GetBit(reg, C);
  }

  method XorOf(x: byte, y: byte) returns (r: word)
    requires x <= 1 && y <= 1
    ensures r == ToInt(x != y)
  {
    XorDigits(x, y);
    r := BXor(x, y);
  }

  method TopBit(x: word) returns (b: byte)
    ensures b == ToInt(Top(x))
  {
    SignBit(x);
    b := GetBit(x, 31);
  }

  /** util.c:126-130 */
  method UpdateCV(reg0: word, rf: RegFields, lastCarry: byte, ghost first: word, ghost f: Flags) returns (reg: word)
    requires reg0 == WithFlags(first, f) && lastCarry <= 1
    ensures var carry := CarryOut(rf.opcode, rf.RnVal, rf.Sop, f.c);
            reg == WithFlags(first, f.(c := carry, v := (lastCarry == 1) != carry))
  {
    var carryOut: byte := 0;
    if rf.opcode == 6 || rf.opcode == 7 || rf.opcode == 5 {
      carryOut := ReadCarry(reg0, first, f);
    }
    var carry := CarryTest(rf.RnVal, rf.Sop, carryOut);
    reg := WriteFlag(reg0, ToInt(carry), C, first, f);
    var c := ReadCarry(reg, first, f.(c := carry));
    var v := XorOf(lastCarry, c);
    reg := WriteFlag(reg, v, V, first, f.(c := carry));
  }

  /** util.c:104-133 */
  method UpdateFlags(reg0: word, rf: RegFields, res: word, sco: byte) returns (reg: word)
    ensures reg == WithFlags(reg0, FlagsOf(rf.opcode, rf.RnVal, rf.Sop, res, sco, FlagsIn(reg0)))
  {
    ghost var f := FlagsIn(reg0);
    ghost var nz := f.(n := Top(res), z := res == 0);
    FlagsRoundTrip(reg0, f);
    var sopTop := TopBit(rf.Sop);
    var rnTop := TopBit(rf.RnVal);
    var resTop := TopBit(res);
    var topSum := XorOf(sopTop, rnTop);
    var lastCarry := ToInt(topSum != resTop);

    reg := WriteFlag(reg0, resTop, N, reg0, f);
    reg := WriteFlag(reg, ToInt(res == 0), Z, reg0, f.(n := Top(res)));
    if IsLogical(rf.opcode) {
      reg := WriteFlag(reg, sco, C, reg0, nz);
    } else {
      reg := UpdateCV(reg, rf, lastCarry, reg0, nz);
    }
  }
}
