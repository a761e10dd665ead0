/**
  The barrel shifter of util.c: asr and ror as the bit expressions of the source,
  their integer meaning, and do_shift proved against one integer law per shift kind.
 */
module Shifter {
  import opened Words
  import opened ArmConstants

  // ---- asr and ror --------------------------------------------------------

  /** util.c:29-31.  The all-ones int shifted left by 32 - shift, as a uint32_t. */
  function Asr(value: word, shift: nat): word
    requires 1 <= shift < 32
  {
    BOr(Shr(value, shift), if GetBit(value, 31) != 0 then Wrap(Scale(-1, 32 - shift)) else 0)
  }

  /**
    util.c:33-35.  A rotation by 0 shifts left by 32, which C leaves undefined;
    it is taken as the identity here.
   */
  function Ror(value: word, rotation: nat): word
    requires rotation < 32
  {
    if rotation == 0 then value
    else BOr(Shr(value, rotation), Shl(value, 32 - rotation))
  }

  /** The two fields a rotation exchanges fit side by side in a word. */
  lemma RotatedFields(x: word, n: nat)
    requires n <= 32
    ensures 0 <= Quot(x, n) < Pow2(32 - n)
    ensures 0 <= Scale(Rem(x, n), 32 - n) && Quot(x, n) + Scale(Rem(x, n), 32 - n) < 0x1_0000_0000
  {
    Pow2Of32();
    QuotRem(x, n);
    QuotBelow(x, n, 32 - n);
    FieldsFit(Quot(x, n), Rem(x, n), 32 - n, n);
  }

  /** Rotation as integer arithmetic: the low field moves to the top. */
  lemma RorValue(x: word, n: nat)
    requires 1 <= n < 32
    ensures Ror(x, n) == Quot(x, n) + Scale(Rem(x, n), 32 - n)
  {
    RotatedFields(x, n);
    CutScaled(x, 32 - n, n);
    WrapIsRem(Scale(x, 32 - n));
    OrFields(Quot(x, n), Rem(x, n), 32 - n);
  }

  /** The same with powers of two written out, for every amount. */
  lemma RorIsRotation(x: word, n: nat)
    requires n < 32
    ensures Ror(x, n) == x / Pow2(n) + x % Pow2(n) * Pow2(32 - n)
  {
    QuotIsDivision(x, n);
    ScaleIsProduct(Rem(x, n), 32 - n);
    if n > 0 {
      RorValue(x, n);
    } else {
      ScaleZero(32);
    }
  }

  /** Digit i of a rotation is digit i + n of the value, counted around the word. */
  lemma RorBit(x: word, n: nat, i: nat)
    requires n < 32 && i < 32
    ensures Bit(Ror(x, n), i) == Bit(x, (i + n) % 32)
  {
    if n > 0 {
      BitOfOr(Shr(x, n), Shl(x, 32 - n), i);
      BitOfQuot(x, n, i);
      BitOfShl(x, 32 - n, i);
      if i + n >= 32 {
        NoBitAbove(x, n + i);
      }
      PlaceAfter(i, n);
    }
  }

  lemma PlaceAfter(i: nat, n: nat)
    requires i < 32 && n < 32
    ensures (i + n) % 32 == if i + n >= 32 then i - (32 - n) else n + i
  {
  }

  lemma AroundTheWord(i: nat, a: nat, b: nat)
    ensures ((i + b) % 32 + a) % 32 == (i + (a + b) % 32) % 32
  {
  }

  /** Rotations compose by adding their amounts modulo 32. */
  lemma RorCompose(x: word, a: nat, b: nat)
    requires a < 32 && b < 32
    ensures Ror(Ror(x, a), b) == Ror(x, (a + b) % 32)
  {
    var y, z := Ror(Ror(x, a), b), Ror(x, (a + b) % 32);
    forall i | 0 <= i < 32
      ensures Bit(y, i) == Bit(z, i)
    {
      RorComposeBit(x, a, b, i);
    }
    WordsEqual(y, z);
  }

  lemma RorComposeBit(x: word, a: nat, b: nat, i: nat)
    requires a < 32 && b < 32 && i < 32
    ensures Bit(Ror(Ror(x, a), b), i) == Bit(Ror(x, (a + b) % 32), i)
  {
    RorBit(Ror(x, a), b, i);
    RorBit(x, a, (i + b) % 32);
    RorBit(x, (a + b) % 32, i);
    AroundTheWord(i, a, b);
  }

  /** Bit 31 of a rotated word is the last bit rotated out. */
  lemma RorCarry(x: word, n: nat)
    requires 1 <= n < 32
    ensures GetBit(Ror(x, n), 31) == GetBit(x, n - 1)
  {
    PlaceAfter(31, n);
    RorBit(x, n, 31);
  }

  lemma SignedQuot(x: word, n: nat)
    requires n <= 32
    ensures Quot(Signed(x), n) == Quot(x, n) - (if x >= 0x8000_0000 then Pow2(32 - n) else 0)
  {
    Pow2Of32();
    QuotMinus(x, n, 32 - n);
  }

  /** The vacated positions take the sign: a value of n bits less, read signed. */
  lemma AsrFields(x: word, n: nat)
    requires 1 <= n < 32
    ensures 0 <= Quot(x, n) < Pow2(32 - n) && Pow2(32 - n) == 2 * Pow2(31 - n) <= 0x8000_0000
    ensures (x >= 0x8000_0000) == (Pow2(31 - n) <= Quot(x, n))
  {
    Pow2Of32();
    FlagPowers();
    QuotBelow(x, n, 32 - n);
    Pow2Monotone(32 - n, 31);
    if x >= 0x8000_0000 {
      QuotAtLeast(x, n, 31 - n);
    } else {
      QuotBelow(x, n, 31 - n);
    }
  }

  /** Asr fills the top n places with copies of the sign. */
  lemma AsrBits(x: word, n: nat)
    requires 1 <= n < 32
    ensures Asr(x, n) ==
            if x >= 0x8000_0000 then Quot(x, n) + (0x1_0000_0000 - Pow2(32 - n)) else Quot(x, n)
  {
    SignBit(x);
    AsrFields(x, n);
    if x >= 0x8000_0000 {
      var ones := Pow2(n) - 1;
      OnesAbove(n);
      OrFields(Quot(x, n), ones, 32 - n);
    } else {
      OrNothing(Quot(x, n));
    }
  }

  lemma OnesAbove(n: nat)
    requires 1 <= n < 32
    ensures Wrap(Scale(-1, 32 - n)) == Scale(Pow2(n) - 1, 32 - n) == 0x1_0000_0000 - Pow2(32 - n)
  {
    Pow2Of32();
    ScaleMinusOne(n, 32 - n);
    Pow2Monotone(32 - n, 32);
  }

  /** Arithmetic shift is the floor of the signed value over 2^n. */
  lemma AsrValue(x: word, n: nat)
    requires 1 <= n < 32
    ensures Asr(x, n) == Wrap(Quot(Signed(x), n))
    ensures Signed(Asr(x, n)) == Quot(Signed(x), n)
  {
    AsrBits(x, n);
    AsrFields(x, n);
    SignedQuot(x, n);
    SignExtended(Quot(x, n), Pow2(31 - n));
  }

  /** A number below 2h, read as a signed one of that width, in a word. */
  lemma SignExtended(q: nat, h: nat)
    requires q < 2 * h <= 0x8000_0000
    ensures var v := if h <= q then q - 2 * h else q;
            var w: int := if h <= q then q + (0x1_0000_0000 - 2 * h) else q;
            0 <= w < 0x1_0000_0000 && Wrap(v) == w && Signed(w) == v
  {
  }

  lemma AsrIsFloorDivision(x: word, n: nat)
    requires 1 <= n < 32
    ensures Signed(Asr(x, n)) == Signed(x) / Pow2(n)
  {
    AsrValue(x, n);
    QuotIsDivision(Signed(x), n);
  }

  /** Arithmetic shifts compose additively while the total stays below 32. */
  lemma AsrCompose(x: word, a: nat, b: nat)
    requires 1 <= a && 1 <= b && a + b < 32
    ensures Asr(Asr(x, a), b) == Asr(x, a + b)
  {
    AsrValue(x, a);
    AsrValue(Asr(x, a), b);
    AsrValue(x, a + b);
    QuotCompose(Signed(x), a, b);
  }

  // ---- do_shift -----------------------------------------------------------

  /** The shifter operand and the shifter carry-out. */
  datatype Shifted = Shifted(sop: word, sco: byte)

  /** What shifting by a known positive amount means on integers. */
  function ShiftLaw(kind: nat, n: nat, rm: word): Shifted
    requires kind <= ROR && n >= 1 && (kind == ROR ==> n < 32)
  {
    if kind == LSL then
      Shifted(Wrap(Scale(rm, n)), Quot(Scale(rm, n), 32) % 2)
    else if kind == LSR then
      Shifted(Wrap(Quot(rm, n)), Quot(rm, n - 1) % 2)
    else if kind == ASR then
      // Shifting a negative value by 32 or more leaves 24 ones, not 32.
      Shifted(if n >= 32 && Signed(rm) < 0 then 0xFF_FFFF else Wrap(Quot(Signed(rm), n)),
              Quot(Signed(rm), n - 1) % 2)
    else
      Shifted(Wrap(Quot(rm, n) + Scale(Rem(rm, n), 32 - n)), Quot(rm, n - 1) % 2)
  }

  /** The amount an encoded immediate stands for (section A5.1). */
  function ImmediateAmount(kind: nat, data: nat): nat {
    if (kind == LSR || kind == ASR) && data == 0 then 32 else data
  }

  /** The operand do_shift delivers, case by case of section A5.1 as the code has it. */
  function ShifterOperand(mode: nat, kind: nat, data: word, rm: word, c: byte): Shifted
    requires mode <= REG && kind <= ROR && (mode == IMM ==> data < 32)
  {
    if mode == IMM then
      var n := ImmediateAmount(kind, data);
      if n > 0 then ShiftLaw(kind, n, rm)
      else if kind == LSL then Shifted(rm, c)
      else Shifted(Wrap(2 * rm), rm % 2)            // RRX, as coded
    else if data % 0x100 == 0 then Shifted(rm, c)
    else if kind != ROR then ShiftLaw(kind, data % 0x100, rm)
    else if rm % 32 == 0 then Shifted(rm, if rm >= 0x8000_0000 then 1 else 0)
    else ShiftLaw(ROR, rm % 32, rm)                 // the amount comes from Rm
  }

  lemma LslBelow32(rm: word, n: nat)
    requires 1 <= n < 32
    ensures ShiftLaw(LSL, n, rm) == Shifted(Shl(rm, n), GetBit(rm, 32 - n))
  {
    CutScaled(rm, n, 32 - n);
    BitValue(rm, 32 - n);
  }

  lemma LslFrom32(rm: word, n: nat)
    requires 32 <= n
    ensures ShiftLaw(LSL, n, rm) == Shifted(0, if n == 32 then GetBit(rm, 0) else 0)
  {
    var t := Scale(rm, n - 32);
    ScaleCompose(rm, n - 32, 32);
    CutScaled(t, 32, 0);
    WrapIsRem(Scale(t, 32));
    ScaleZero(32);
    assert Scale(Rem(t, 0), 32) == 0;
  }

  lemma {:induction false} ScaleZero(n: nat)
    ensures Scale(0, n) == 0
  {
    if n > 0 {
      ScaleZero(n - 1);
    }
  }

  lemma LsrBelow32(rm: word, n: nat)
    requires 1 <= n < 32
    ensures ShiftLaw(LSR, n, rm) == Shifted(Shr(rm, n), GetBit(rm, n - 1))
  {
    BitValue(rm, n - 1);
  }

  lemma AsrBelow32(rm: word, n: nat)
    requires 1 <= n < 32
    ensures ShiftLaw(ASR, n, rm) == Shifted(Asr(rm, n), GetBit(rm, n - 1))
  {
    AsrValue(rm, n);
    BitValue(rm, n - 1);
    SameParity(rm, n - 1);
  }

  lemma SameParity(x: word, k: nat)
    requires k < 32
    ensures Quot(Signed(x), k) % 2 == Quot(x, k) % 2
  {
    SignedQuot(x, k);
    var q, p := Quot(x, k), Pow2(32 - k - 1);
    assert Pow2(32 - k) == 2 * p;
    assert (q - 2 * p) % 2 == q % 2;
  }

  lemma RorBelow32(rm: word, n: nat)
    requires 1 <= n < 32
    ensures ShiftLaw(ROR, n, rm) == Shifted(Ror(rm, n), GetBit(rm, n - 1))
  {
    RorValue(rm, n);
    assert Wrap(Ror(rm, n)) == Ror(rm, n);
    BitValue(rm, n - 1);
  }

  lemma SignedSaturates(x: word, n: nat)
    requires 31 <= n
    ensures Quot(Signed(x), n) == if x >= 0x8000_0000 then -1 else 0
  {
    QuotCompose(Signed(x), 31, n - 31);
    SignedQuot(x, 31);
    SignBit(x);
    assert Pow2(1) == 2;
    Steady(n - 31);
  }

  lemma LsrFrom32(rm: word, n: nat)
    requires 32 <= n
    ensures ShiftLaw(LSR, n, rm) == Shifted(0, if n == 32 then GetBit(rm, 31) else 0)
  {
    Pow2Of32();
    Pow2Monotone(32, n);
    QuotVanishes(rm, n);
    if n > 32 {
      Pow2Monotone(32, n - 1);
      QuotVanishes(rm, n - 1);
    } else {
      BitValue(rm, 31);
    }
  }

  lemma AsrFrom32(rm: word, n: nat)
    requires 32 <= n
    ensures ShiftLaw(ASR, n, rm) == if rm >= 0x8000_0000 then Shifted(0xFF_FFFF, 1) else Shifted(0, 0)
  {
    SignedSaturates(rm, n);
    SignedSaturates(rm, n - 1);
  }

  lemma AmountFields(data: word, rm: word)
    ensures GetBits(data, 7, 0) == data % 0x100 && GetBits(rm, 4, 0) == rm % 32
  {
    assert Pow2(0) == 1 && Pow2(5) == 32 && Pow2(8) == 0x100;
  }

  /** util.c:142-194, the immediate amounts. */
  method ShiftByImmediate(data: word, valRm: word, shift: nat, c: byte) returns (sop: word, sco: byte)
    requires shift <= ROR && data < 32
    ensures Shifted(sop, sco) == ShifterOperand(IMM, shift, data, valRm, c)
  {
    if shift == 0 {
      if data == 0 {
        sop, sco := valRm, c;
      } else {
        sop, sco := Shl(valRm, data), GetBit(valRm, 32 - data);
        LslBelow32(valRm, data);
      }
    } else if shift == 1 {
      if data == 0 {
        sop, sco := 0, GetBit(valRm, 31);
        LsrFrom32(valRm, 32);
      } else {
        sop, sco := Shr(valRm, data), GetBit(valRm, data - 1);
        LsrBelow32(valRm, data);
      }
    } else if shift == 2 {
      if data == 0 {
        if GetBit(valRm, 31) != 0 {
          sop, sco := 0xFF_FFFF, 1;
        } else {
          sop, sco := 0, 0;
        }
        SignBit(valRm);
        AsrFrom32(valRm, 32);
      } else {
        sop, sco := Asr(valRm, data), GetBit(valRm, data - 1);
        AsrBelow32(valRm, data);
      }
    } else {
      if data == 0 {
        sop, sco := BOr(Shr(c, 31), Shl(valRm, 1)), GetBit(valRm, 0);
        RrxAsCoded(valRm, c);
      } else {
        sop, sco := Ror(valRm, data), GetBit(valRm, data - 1);
        RorBelow32(valRm, data);
      }
    }
  }

  /** util.c:198-264, the amounts held in a register. */
  method ShiftByRegister(data: word, valRm: word, shift: nat, c: byte) returns (sop: word, sco: byte)
    requires shift <= ROR
    ensures Shifted(sop, sco) == ShifterOperand(REG, shift, data, valRm, c)
  {
    var temp := GetBits(data, 7, 0);
    var temp2 := GetBits(valRm, 4, 0);
    AmountFields(data, valRm);
    if temp == 0 {
      sop, sco := valRm, c;
    } else {
      if shift == 0 {
        if temp < 32 {
          sop, sco := Shl(valRm, temp), GetBit(valRm, 32 - temp);
          LslBelow32(valRm, temp);
        } else if temp == 32 {
          sop, sco := 0, GetBit(valRm, 0);
          LslFrom32(valRm, temp);
        } else {
          sop, sco := 0, 0;
          LslFrom32(valRm, temp);
        }
      } else if shift == 1 {
        if temp < 32 {
          sop, sco := Shr(valRm, temp), GetBit(valRm, temp - 1);
          LsrBelow32(valRm, temp);
        } else if temp == 32 {
          sop, sco := 0, GetBit(valRm, 31);
          LsrFrom32(valRm, temp);
        } else {
          sop, sco := 0, 0;
          LsrFrom32(valRm, temp);
        }
      } else if shift == 2 {
        if temp < 32 {
          sop, sco := Asr(valRm, temp), GetBit(valRm, temp - 1);
          AsrBelow32(valRm, temp);
        } else {
          if GetBit(valRm, 31) != 0 {
            sop, sco := 0xFF_FFFF, 1;
          } else {
            sop, sco := 0, 0;
          }
          SignBit(valRm);
          AsrFrom32(valRm, temp);
        }
      } else {
        if temp2 == 0 {
          sop, sco := valRm, GetBit(valRm, 31);
          SignBit(valRm);
        } else {
          sop, sco := Ror(valRm, temp2), GetBit(valRm, temp2 - 1);
          RorBelow32(valRm, temp2);
        }
      }
    }
  }

  /** util.c:137-272.  The pointer results are out-parameters. */
  method DoShift(data: word, valRm: word, shift: nat, mode: nat, c: byte) returns (sop: word, sco: byte)
    requires mode <= REG && shift <= ROR
    requires mode == IMM ==> data < 32
    ensures Shifted(sop, sco) == ShifterOperand(mode, shift, data, valRm, c)
  {
    if mode == IMM {
      sop, sco := ShiftByImmediate(data, valRm, shift, c);
    } else {
      sop, sco := ShiftByRegister(data, valRm, shift, c);
    }
  }

  lemma RrxAsCoded(rm: word, c: byte)
    ensures BOr(Shr(c, 31), Shl(rm, 1)) == Wrap(2 * rm)
  {
    FlagPowers();
    QuotVanishes(c, 31);
    assert Scale(rm, 1) == 2 * Scale(rm, 0);
    OrNothing(Wrap(2 * rm));
  }

  // ---- The shifter laws of section A5.1 -----------------------------------

  /** The carry and operand of a left shift are the low 33 bits of the exact product. */
  lemma LslIsExact(rm: word, n: nat)
    requires n >= 1
    ensures var s := ShiftLaw(LSL, n, rm);
            s.sco * 0x1_0000_0000 + s.sop == rm * Pow2(n) % 0x2_0000_0000
  {
    ScaleIsProduct(rm, n);
    LowDigits33(Scale(rm, n));
  }

  lemma LowDigits33(t: int)
    ensures Quot(t, 32) % 2 * 0x1_0000_0000 + Wrap(t) == t % 0x2_0000_0000
  {
    WrapIsRem(t);
    var q := t / 0x1_0000_0000;
    DivUnique(t, 0x2_0000_0000, q / 2, q % 2 * 0x1_0000_0000 + t % 0x1_0000_0000);
  }

  /** Operand and carry of a right shift recompose the value shifted one place less. */
  lemma LsrIsExact(rm: word, n: nat)
    requires n >= 1
    ensures var s := ShiftLaw(LSR, n, rm);
            2 * s.sop + s.sco == rm / Pow2(n - 1)
  {
    QuotIsDivision(rm, n - 1);
    QuotCompose(rm, n - 1, 1);
    QuotShrinks(rm, n);
    assert Quot(rm, n) == Quot(Quot(rm, n - 1) / 2, 0);
  }

  /** The same on signed values; it fails exactly for negative values and n >= 32. */
  lemma AsrIsExact(rm: word, n: nat)
    requires n >= 1
    ensures var s := ShiftLaw(ASR, n, rm);
            2 * Signed(s.sop) + s.sco == Signed(rm) / Pow2(n - 1) <==> n < 32 || Signed(rm) >= 0
  {
    QuotIsDivision(Signed(rm), n - 1);
    if n < 32 {
      AsrValue(rm, n);
      QuotCompose(Signed(rm), n - 1, 1);
      assert Quot(Signed(rm), n) == Quot(Quot(Signed(rm), n - 1) / 2, 0);
    } else {
      SignedSaturates(rm, n);
      SignedSaturates(rm, n - 1);
    }
  }

  /** The amount a shift by LSL, LSR or ASR is encoded with. */
  function Amount(mode: nat, kind: nat, data: word): nat {
    if mode == REG then data % 0x100 else if data == 0 && (kind == 1 || kind == 2) then 32 else data
  }

  /** Every LSL operand, in both addressing modes: unchanged, or exact to 33 bits. */
  lemma LslOperand(mode: nat, data: word, rm: word, c: byte)
    requires mode <= REG && (mode == IMM ==> data < 32)
    ensures var n, s := Amount(mode, LSL, data), ShifterOperand(mode, LSL, data, rm, c);
            if n == 0 then s == Shifted(rm, c)
            else s.sco * 0x1_0000_0000 + s.sop == rm * Pow2(n) % 0x2_0000_0000
  {
    var n := Amount(mode, LSL, data);
    if n > 0 {
      LslIsExact(rm, n);
    }
  }

  /** Every LSR operand; an immediate 0 stands for 32. */
  lemma LsrOperand(mode: nat, data: word, rm: word, c: byte)
    requires mode <= REG && (mode == IMM ==> data < 32)
    ensures var n, s := Amount(mode, LSR, data), ShifterOperand(mode, LSR, data, rm, c);
            if n == 0 then s == Shifted(rm, c)
            else 2 * s.sop + s.sco == rm / Pow2(n - 1)
  {
    var n := Amount(mode, LSR, data);
    if n > 0 {
      LsrIsExact(rm, n);
    }
  }

  /** Every ASR operand, exact unless a negative value is shifted by 32 or more. */
  lemma AsrOperand(mode: nat, data: word, rm: word, c: byte)
    requires mode <= REG && (mode == IMM ==> data < 32)
    ensures var n, s := Amount(mode, ASR, data), ShifterOperand(mode, ASR, data, rm, c);
            if n == 0 then s == Shifted(rm, c)
            else 2 * Signed(s.sop) + s.sco == Signed(rm) / Pow2(n - 1) <==> n < 32 || Signed(rm) >= 0
  {
    var n := Amount(mode, ASR, data);
    if n > 0 {
      AsrIsExact(rm, n);
    }
  }

  /** An immediate rotation sends its last bit both to the carry and to bit 31. */
  lemma RorCarryIsTopBit(rm: word, n: nat)
    requires 1 <= n < 32
    ensures var s := ShiftLaw(ROR, n, rm);
            s.sop == Ror(rm, n) && s.sco == s.sop / 0x8000_0000
  {
    RorBelow32(rm, n);
    RorCarry(rm, n);
    SignBit(Ror(rm, n));
  }

  // ---- Operands by their encoding -----------------------------------------

  /** Carry and operand are the low 33 bits of x times 2^n. */
  predicate LeftBy(op: Shifted, x: word, n: nat) {
    op.sco <= 1 && op.sco * 0x1_0000_0000 + op.sop == x * Pow2(n) % 0x2_0000_0000
  }

  /** Operand and carry are x over 2^(n-1), the carry being its last bit. */
  predicate RightBy(op: Shifted, x: word, n: nat)
    requires n >= 1
  {
    op.sco <= 1 && 2 * op.sop + op.sco == x / Pow2(n - 1)
  }

  /** The same on signed values, but that a negative value shifted by 32 or more leaves 24 ones. */
  predicate SignedRightBy(op: Shifted, x: word, n: nat)
    requires n >= 1
  {
    if n >= 32 && x >= 0x8000_0000 then op == Shifted(0xFF_FFFF, 1)
    else op.sco <= 1 && 2 * Signed(op.sop) + op.sco == Signed(x) / Pow2(n - 1)
  }

  /** The n low bits moved to the top, the last of them also in the carry. */
  predicate RotatedBy(op: Shifted, x: word, n: nat)
    requires 1 <= n < 32
  {
    op.sop == x / Pow2(n) + x % Pow2(n) * Pow2(32 - n) && op.sco == x / Pow2(n - 1) % 2
  }

  lemma LawsAreExact(x: word, n: nat)
    requires n >= 1
    ensures LeftBy(ShiftLaw(0, n, x), x, n) && RightBy(ShiftLaw(1, n, x), x, n)
    ensures SignedRightBy(ShiftLaw(2, n, x), x, n)
    ensures n < 32 ==> RotatedBy(ShiftLaw(3, n, x), x, n)
  {
    LslIsExact(x, n);
    LsrIsExact(x, n);
    AsrIsExact(x, n);
    if n >= 32 {
      AsrFrom32(x, n);
    } else {
      RorBelow32(x, n);
      RorIsRotation(x, n);
      QuotIsDivision(x, n - 1);
    }
  }

  /**
    Every immediate amount, as encoded: 1 to 31 stand for themselves; 0 is no shift for
    LSL, 32 for LSR and ASR, and for ROR the RRX of the code, a doubling.
   */
  lemma ImmediateShifts(data: word, x: word, c: byte)
    requires data < 32
    ensures data >= 1 ==>
              && LeftBy(ShifterOperand(IMM, 0, data, x, c), x, data)
              && RightBy(ShifterOperand(IMM, 1, data, x, c), x, data)
              && SignedRightBy(ShifterOperand(IMM, 2, data, x, c), x, data)
              && RotatedBy(ShifterOperand(IMM, 3, data, x, c), x, data)
    ensures ShifterOperand(IMM, 0, 0, x, c) == Shifted(x, c)
    ensures ShifterOperand(IMM, 1, 0, x, c) == Shifted(0, x / 0x8000_0000)
    ensures ShifterOperand(IMM, 2, 0, x, c) == if x >= 0x8000_0000 then Shifted(0xFF_FFFF, 1) else Shifted(0, 0)
    ensures ShifterOperand(IMM, 3, 0, x, c) == Shifted(2 * x % 0x1_0000_0000, x % 2)
  {
    if data >= 1 {
      LawsAreExact(x, data);
    }
    LsrFrom32(x, 32);
    SignBit(x);
    AsrFrom32(x, 32);
  }

  /**
    Every amount held in a register counts by its low byte n; 0 leaves value and carry.
    ROR takes its amount from the low five bits of the value itself.
   */
  lemma RegisterShifts(data: word, x: word, c: byte)
    ensures var n := data % 0x100;
            if n == 0 then forall kind :: 0 <= kind <= 3 ==> ShifterOperand(REG, kind, data, x, c) == Shifted(x, c)
            else
              && LeftBy(ShifterOperand(REG, 0, data, x, c), x, n)
              && RightBy(ShifterOperand(REG, 1, data, x, c), x, n)
              && SignedRightBy(ShifterOperand(REG, 2, data, x, c), x, n)
              && (if x % 32 == 0 then ShifterOperand(REG, 3, data, x, c) == Shifted(x, x / 0x8000_0000)
                  else RotatedBy(ShifterOperand(REG, 3, data, x, c), x, x % 32))
  {
    if data % 0x100 != 0 {
      LawsAreExact(x, data % 0x100);
      if x % 32 != 0 {
        LawsAreExact(x, x % 32);
      }
    }
  }

  // ---- Where the shifter departs from section A5.1 ------------------------

  /** Section A5.1.13: rotate right by one through the carry. */
  function ManualRrx(rm: word, c: bool): Shifted {
    Shifted(ToInt(c) * 0x8000_0000 + rm / 2, rm % 2)
  }

  /** RRX as coded always has the right carry, and the right operand in two cases only. */
  lemma RrxMeetsManual(rm: word, c: bool)
    ensures ShifterOperand(IMM, ROR, 0, rm, ToInt(c)).sco == ManualRrx(rm, c).sco
    ensures ShifterOperand(IMM, ROR, 0, rm, ToInt(c)) == ManualRrx(rm, c)
            <==> (rm == 0 && !c) || (rm == 0x5555_5555 && c)
  {
    DoubleAgainstHalf(rm, c);
  }

  lemma DoubleAgainstHalf(rm: word, c: bool)
    ensures Wrap(2 * rm) == ToInt(c) * 0x8000_0000 + rm / 2 <==> (rm == 0 && !c) || (rm == 0x5555_5555 && c)
  {
    assert Wrap(2 * rm) == if rm < 0x8000_0000 then 2 * rm else 2 * rm - 0x1_0000_0000;
  }

  /** Section A5.1.12: rotate right by the low byte of Rs. */
  function ManualRorByRegister(rs: word, rm: word, c: byte): Shifted {
    if rs % 0x100 == 0 then Shifted(rm, c)
    else if rs % 32 == 0 then Shifted(rm, GetBit(rm, 31))
    else Shifted(Ror(rm, rs % 32), GetBit(rm, rs % 32 - 1))
  }

  /** The rotation by n with its bit 31 as carry. */
  function Rotated(rm: word, n: nat): Shifted
    requires n < 32
  {
    Shifted(Ror(rm, n), GetBit(Ror(rm, n), 31))
  }

  /** Rotating by an amount that is not zero modulo 256 puts bit 31 of the result in the carry. */
  lemma RotatedWithTopBit(rm: word, n: nat)
    requires n < 32
    ensures (if n == 0 then Shifted(rm, GetBit(rm, 31)) else Shifted(Ror(rm, n), GetBit(rm, n - 1))) == Rotated(rm, n)
  {
    if n > 0 {
      RorCarry(rm, n);
    }
  }

  /** Two rotations of a word agree if and only if rotating it by the difference leaves it. */
  lemma RotationsAgree(x: word, a: nat, b: nat)
    requires a < 32 && b < 32
    ensures Ror(x, a) == Ror(x, b) <==> Ror(x, (a - b) % 32) == x
  {
    var d, back := (a - b) % 32, (32 - b) % 32;
    DifferenceOfAmounts(a, b);
    RorTogether(x, d, b, a);
    RorTogether(x, a, back, d);
    RorTogether(x, b, back, 0);
    assert Ror(x, 0) == x;
  }

  lemma RorTogether(x: word, a: nat, b: nat, c: nat)
    requires a < 32 && b < 32 && (a + b) % 32 == c
    ensures Ror(Ror(x, a), b) == Ror(x, c)
  {
    RorCompose(x, a, b);
  }

  lemma DifferenceOfAmounts(a: nat, b: nat)
    requires a < 32 && b < 32
    ensures var d, back := (a - b) % 32, (32 - b) % 32;
            && 0 <= d < 32 && 0 <= back < 32
            && (d + b) % 32 == a && (a + back) % 32 == d && (b + back) % 32 == 0
  {
    assert (a - b) % 32 == if a >= b then a - b else a - b + 32;
  }

  lemma CodedRotation(rs: word, rm: word, c: byte)
    requires rs % 0x100 != 0
    ensures ShifterOperand(REG, ROR, rs, rm, c) == Rotated(rm, rm % 32)
  {
    SignBit(rm);
    if rm % 32 > 0 {
      RorBelow32(rm, rm % 32);
    }
    RotatedWithTopBit(rm, rm % 32);
  }

  /**
    ROR by register as coded, which rotates by Rm and not by Rs, meets section A5.1.12 if
    and only if Rs asks for no shift or Rm is unchanged by rotating it by the difference.
   */
  lemma RorByRegisterMeetsManual(rs: word, rm: word, c: byte)
    ensures ShifterOperand(REG, ROR, rs, rm, c) == ManualRorByRegister(rs, rm, c)
            <==> rs % 0x100 == 0 || Ror(rm, (rs % 32 - rm % 32) % 32) == rm
  {
    if rs % 0x100 != 0 {
      CodedRotation(rs, rm, c);
      RotatedWithTopBit(rm, rs % 32);
      RotationsAgree(rm, rs % 32, rm % 32);
    }
  }
}
