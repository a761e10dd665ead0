/**
  Fixed-width words of the emulator as integers with an explicit range, and the
  C bit operators over them.  Bitwise operators are defined digit by digit, so
  every law that links an expression on bits to an exact integer is a theorem
  here and not a property of the number representation.
 */
module Words {

  type word = x: int | 0 <= x < 0x1_0000_0000
  type half = x: int | 0 <= x < 0x1_0000
  type byte = x: int | 0 <= x < 0x100

  function Pow2(n: nat): (p: nat)
    ensures p >= 1
  {
    if n == 0 then 1 else 2 * Pow2(n - 1)
  }

  /** x times 2^n, the floor of x over 2^n, and the remainder, one place at a time. */
  function Scale(x: int, n: nat): int
    decreases n, x
  {
    if n == 0 then x else 2 * Scale(x, n - 1)
  }

  function Quot(x: int, n: nat): int
    decreases n, x
  {
    if n == 0 then x else Quot(x / 2, n - 1)
  }

  function Rem(x: int, n: nat): nat
    decreases n, x
  {
    if n == 0 then 0 else x % 2 + 2 * Rem(x / 2, n - 1)
  }

  /** Conversion to uint32_t. */
  function Wrap(x: int): word {
    x % 0x1_0000_0000
  }

  /** The two's complement reading of a word. */
  function Signed(x: word): int {
    if x < 0x8000_0000 then x else x - 0x1_0000_0000
  }

  /** Binary digit i of a number. */
  predicate Bit(x: nat, i: nat)
    decreases i, x
  {
    if i == 0 then x % 2 == 1 else Bit(x / 2, i - 1)
  }

  function ToInt(b: bool): (r: byte) {
    if b then 1 else 0
  }

  datatype BitOp = And | Or | Xor {
    predicate Apply(p: bool, q: bool) {
      match this
      case And => p && q
      case Or => p || q
      case Xor => p != q
    }
  }

  /** The low n digits of a bitwise combination. */
  function Bitwise(op: BitOp, a: nat, b: nat, n: nat): (r: nat)
    ensures r < Pow2(n)
    decreases n, a, b
  {
    if n == 0 then 0
    else ToInt(op.Apply(a % 2 == 1, b % 2 == 1)) + 2 * Bitwise(op, a / 2, b / 2, n - 1)
  }

  function BAnd(a: word, b: word): word {
    Pow2Of32();
    Bitwise(And, a, b, 32)
  }

  function BOr(a: word, b: word): word {
    Pow2Of32();
    Bitwise(Or, a, b, 32)
  }

  function BXor(a: word, b: word): word {
    Pow2Of32();
    Bitwise(Xor, a, b, 32)
  }

  function BNot(a: word): word {
    0xFFFF_FFFF - a
  }

  /** C's << and >> on uint32_t; an amount of 32 or more is undefined there. */
  function Shl(x: word, n: nat): word
    requires n < 32
  {
    Wrap(Scale(x, n))
  }

  function Shr(x: word, n: nat): (r: word)
    requires n < 32
    ensures r <= x
  {
    QuotShrinks(x, n);
    Quot(x, n)
  }

  // ---- Powers, quotients and remainders -----------------------------------

  lemma Pow2Of32()
    ensures Pow2(32) == 0x1_0000_0000
  {
    assert Pow2(8) == 0x100;
    assert Pow2(16) == 0x1_0000;
    assert Pow2(24) == 0x100_0000;
  }

  lemma FlagPowers()
    ensures Pow2(28) == 0x1000_0000 && Pow2(29) == 0x2000_0000
    ensures Pow2(30) == 0x4000_0000 && Pow2(31) == 0x8000_0000
  {
    assert Pow2(8) == 0x100;
    assert Pow2(16) == 0x1_0000;
    assert Pow2(24) == 0x100_0000;
  }

  lemma {:induction false} Pow2Monotone(a: nat, b: nat)
    requires a <= b
    ensures Pow2(a) <= Pow2(b)
  {
    if a < b {
      Pow2Monotone(a, b - 1);
    }
  }

  lemma MulMonotone(a: int, b: int, d: int)
    requires a <= b && d >= 0
    ensures a * d <= b * d
  {
  }

  lemma SmallMultiple(k: int, d: int)
    requires -d < k * d < d
    ensures k == 0
  {
    if k >= 1 {
      MulMonotone(1, k, d);
    } else if k <= -1 {
      MulMonotone(k, -1, d);
    }
  }

  lemma DivUnique(x: int, d: int, q: int, r: int)
    requires d > 0 && 0 <= r < d && x == q * d + r
    ensures x / d == q && x % d == r
  {
    var q', r' := x / d, x % d;
    assert x == q' * d + r';
    assert (q - q') * d == q * d - q' * d;
    SmallMultiple(q - q', d);
  }

  /** Quotient and remainder recompose the number. */
  lemma {:induction false} QuotRem(x: int, n: nat)
    ensures x == Scale(Quot(x, n), n) + Rem(x, n)
    ensures Rem(x, n) < Pow2(n)
    decreases n
  {
    if n > 0 {
      QuotRem(x / 2, n - 1);
    }
  }

  lemma {:induction false} ScaleIsProduct(x: int, n: nat)
    ensures Scale(x, n) == x * Pow2(n)
  {
    if n > 0 {
      ScaleIsProduct(x, n - 1);
      assert x * (2 * Pow2(n - 1)) == 2 * (x * Pow2(n - 1));
    }
  }

  /** The place-by-place functions are division and remainder by 2^n. */
  lemma QuotIsDivision(x: int, n: nat)
    ensures Quot(x, n) == x / Pow2(n) && Rem(x, n) == x % Pow2(n)
  {
    QuotRem(x, n);
    ScaleIsProduct(Quot(x, n), n);
    DivUnique(x, Pow2(n), Quot(x, n), Rem(x, n));
  }

  lemma {:induction false} QuotShrinks(x: nat, n: nat)
    ensures 0 <= Quot(x, n) <= x
  {
    if n > 0 {
      QuotShrinks(x / 2, n - 1);
    }
  }

  lemma {:induction false} QuotBelow(x: int, n: nat, m: nat)
    requires 0 <= x < Pow2(n + m)
    ensures 0 <= Quot(x, n) < Pow2(m)
  {
    if n > 0 {
      QuotBelow(x / 2, n - 1, m);
    }
  }

  lemma {:induction false} QuotAtLeast(x: int, n: nat, m: nat)
    requires Pow2(n + m) <= x
    ensures Pow2(m) <= Quot(x, n)
  {
    if n > 0 {
      QuotAtLeast(x / 2, n - 1, m);
    }
  }

  lemma {:induction false} QuotCompose(x: int, a: nat, b: nat)
    ensures Quot(Quot(x, a), b) == Quot(x, a + b)
    decreases a
  {
    if a > 0 {
      QuotCompose(x / 2, a - 1, b);
    }
  }

  /** Subtracting a multiple of 2^n from a number lowers its quotient by that multiple. */
  lemma {:induction false} QuotMinus(x: int, n: nat, m: nat)
    ensures Quot(x - Pow2(n + m), n) == Quot(x, n) - Pow2(m)
    decreases n
  {
    if n > 0 {
      QuotMinus(x / 2, n - 1, m);
    }
  }

  /** Scaling by 2^n and then cutting at n + m places is cutting at m and scaling. */
  lemma {:induction false} CutScaled(x: int, n: nat, m: nat)
    ensures Quot(Scale(x, n), n + m) == Quot(x, m)
    ensures Rem(Scale(x, n), n + m) == Scale(Rem(x, m), n)
  {
    if n > 0 {
      CutScaled(x, n - 1, m);
    }
  }

  lemma {:induction false} ScaleCompose(x: int, a: nat, b: nat)
    ensures Scale(Scale(x, a), b) == Scale(x, a + b)
  {
    if b > 0 {
      ScaleCompose(x, a, b - 1);
    }
  }

  lemma {:induction false} ScaleOne(n: nat)
    ensures Scale(1, n) == Pow2(n)
  {
    if n > 0 {
      ScaleOne(n - 1);
    }
  }

  /** Two fields of n and m places side by side. */
  lemma {:induction false} FieldsFit(q: nat, r: nat, n: nat, m: nat)
    requires q < Pow2(n) && r < Pow2(m)
    ensures 0 <= Scale(r, n) && q + Scale(r, n) < Pow2(n + m)
  {
    if n > 0 {
      FieldsFit(q / 2, r, n - 1, m);
    }
  }

  lemma {:induction false} Steady(n: nat)
    ensures Quot(-1, n) == -1 && Quot(0, n) == 0
  {
    if n > 0 {
      Steady(n - 1);
    }
  }

  lemma {:induction false} ScaleMinusOne(n: nat, k: nat)
    ensures Scale(Pow2(n) - 1, k) == Pow2(n + k) - Pow2(k)
    ensures Scale(-1, k) == 0 - Pow2(k)
  {
    if k > 0 {
      ScaleMinusOne(n, k - 1);
    }
  }

  lemma WrapIsRem(x: int)
    ensures Wrap(x) == Rem(x, 32) && x / 0x1_0000_0000 == Quot(x, 32)
  {
    Pow2Of32();
    QuotIsDivision(x, 32);
  }

  lemma {:induction false} QuotVanishes(x: nat, n: nat)
    requires x < Pow2(n)
    ensures Quot(x, n) == 0 && Rem(x, n) == x
  {
    if n > 0 {
      QuotVanishes(x / 2, n - 1);
    }
  }

  // ---- Digits -------------------------------------------------------------

  lemma {:induction false} BitOfQuot(x: nat, n: nat, i: nat)
    ensures Quot(x, n) >= 0
    ensures Bit(Quot(x, n), i) == Bit(x, n + i)
  {
    if n > 0 {
      BitOfQuot(x / 2, n - 1, i);
    }
  }

  lemma {:induction false} BitOfRem(x: nat, n: nat, i: nat)
    requires i < n
    ensures Bit(Rem(x, n), i) == Bit(x, i)
  {
    if i > 0 {
      assert Rem(x, n) / 2 == Rem(x / 2, n - 1);
      BitOfRem(x / 2, n - 1, i - 1);
    }
  }

  /** A multiple of 2^n has no digit below n and is a shifted quotient above. */
  lemma {:induction false} BitOfScaled(c: nat, n: nat, i: nat)
    ensures Scale(c, n) >= 0
    ensures Bit(Scale(c, n), i) == (n <= i && Bit(c, i - n))
  {
    if n > 0 {
      BitOfScaled(c, n - 1, if i == 0 then 0 else i - 1);
    }
  }

  /** Digit i as arithmetic. */
  lemma BitValue(x: nat, i: nat)
    ensures Quot(x, i) % 2 == ToInt(Bit(x, i))
  {
    BitOfQuot(x, i, 0);
  }

  /** Bitwise operators act digit by digit. */
  lemma {:induction false} BitwiseBit(op: BitOp, a: nat, b: nat, n: nat, i: nat)
    requires i < n
    ensures Bit(Bitwise(op, a, b, n), i) == op.Apply(Bit(a, i), Bit(b, i))
  {
    if i > 0 {
      assert Bitwise(op, a, b, n) / 2 == Bitwise(op, a / 2, b / 2, n - 1);
      BitwiseBit(op, a / 2, b / 2, n - 1, i - 1);
    }
  }

  /** A number below 2^n is determined by its n low digits. */
  lemma {:induction false} BitsDetermine(x: nat, y: nat, n: nat)
    requires x < Pow2(n) && y < Pow2(n)
    requires forall i :: 0 <= i < n ==> Bit(x, i) == Bit(y, i)
    ensures x == y
  {
    if n > 0 {
      assert Bit(x, 0) == Bit(y, 0);
      forall i | 0 <= i < n - 1
        ensures Bit(x / 2, i) == Bit(y / 2, i)
      {
        assert Bit(x, i + 1) == Bit(y, i + 1);
      }
      BitsDetermine(x / 2, y / 2, n - 1);
    }
  }

  lemma {:induction false} BitBeyond(x: nat, n: nat, i: nat)
    requires x < Pow2(n) && n <= i
    ensures !Bit(x, i)
  {
    if i > 0 {
      BitBeyond(x / 2, if n == 0 then 0 else n - 1, i - 1);
    }
  }

  lemma BitOfShl(x: word, n: nat, i: nat)
    requires n < 32 && i < 32
    ensures Bit(Shl(x, n), i) == (n <= i && Bit(x, i - n))
  {
    BitOfScaled(x, n, i);
    WrapIsRem(Scale(x, n));
    BitOfRem(Scale(x, n), 32, i);
  }

  // ---- Bitwise operators as arithmetic ------------------------------------

  lemma {:induction false} OrZero(x: nat, n: nat)
    requires x < Pow2(n)
    ensures Bitwise(Or, x, 0, n) == x && Bitwise(Or, 0, x, n) == x
  {
    if n > 0 {
      OrZero(x / 2, n - 1);
    }
  }

  /** An OR of disjoint fields is a sum. */
  lemma {:induction false} OrDisjoint(a: nat, c: nat, k: nat, n: nat)
    requires k <= n && a < Pow2(k) && a + Scale(c, k) < Pow2(n)
    ensures Scale(c, k) >= 0
    ensures Bitwise(Or, a, Scale(c, k), n) == a + Scale(c, k)
    ensures Bitwise(Or, Scale(c, k), a, n) == a + Scale(c, k)
  {
    if k == 0 {
      OrZero(c, n);
    } else {
      OrDisjoint(a / 2, c, k - 1, n - 1);
    }
  }

  /** A mask of k ones keeps the k low digits. */
  lemma {:induction false} AndMask(x: nat, k: nat, n: nat)
    requires k <= n
    ensures Bitwise(And, x, Pow2(k) - 1, n) == Rem(x, k)
  {
    if n > 0 {
      var k' := if k == 0 then 0 else k - 1;
      assert (Pow2(k) - 1) / 2 == Pow2(k') - 1;
      AndMask(x / 2, k', n - 1);
    }
  }

  lemma {:induction false} OrPow2(x: nat, i: nat, n: nat)
    requires i < n && x < Pow2(n)
    ensures Bitwise(Or, x, Pow2(i), n) == if Bit(x, i) then x else x + Pow2(i)
  {
    if i == 0 {
      OrZero(x / 2, n - 1);
    } else {
      OrPow2(x / 2, i - 1, n - 1);
    }
  }

  lemma {:induction false} AndNotPow2(x: nat, i: nat, n: nat)
    requires i < n && x < Pow2(n)
    ensures Pow2(n) - 1 - Pow2(i) >= 0
    ensures Bitwise(And, x, Pow2(n) - 1 - Pow2(i), n) == if Bit(x, i) then x - Pow2(i) else x
  {
    Pow2Monotone(i, n - 1);
    if i == 0 {
      AndEven(x, Pow2(n - 1), n);
    } else {
      AndNotPow2(x / 2, i - 1, n - 1);
      AndNotPow2Step(x, i, n, Pow2(n - 1) - 1 - Pow2(i - 1));
    }
  }

  lemma AndNotPow2Step(x: nat, i: nat, n: nat, m: nat)
    requires 0 < i < n && m == Pow2(n - 1) - 1 - Pow2(i - 1)
    requires Bitwise(And, x / 2, m, n - 1) == if Bit(x / 2, i - 1) then x / 2 - Pow2(i - 1) else x / 2
    ensures Bitwise(And, x, Pow2(n) - 1 - Pow2(i), n) == if Bit(x, i) then x - Pow2(i) else x
  {
    AndOdd(x, m, n);
    assert Pow2(n) - 1 - Pow2(i) == 2 * m + 1;
  }

  lemma AndEven(x: nat, p: nat, n: nat)
    requires n > 0 && p == Pow2(n - 1) && x < 2 * p
    ensures Bitwise(And, x, 2 * p - 2, n) == x - x % 2
  {
    assert (2 * p - 2) / 2 == p - 1;
    AndMask(x / 2, n - 1, n - 1);
    QuotVanishes(x / 2, n - 1);
  }

  lemma AndOdd(x: nat, m: nat, n: nat)
    requires n > 0
    ensures Bitwise(And, x, 2 * m + 1, n) == x % 2 + 2 * Bitwise(And, x / 2, m, n - 1)
  {
    assert (2 * m + 1) / 2 == m;
  }

  /** Complementing a word complements each of its digits. */
  lemma {:induction false} NotBit(x: nat, n: nat, i: nat)
    requires i < n && x < Pow2(n)
    ensures Bit(Pow2(n) - 1 - x, i) != Bit(x, i)
  {
    if i > 0 {
      NotBit(x / 2, n - 1, i - 1);
    }
  }

  /** Bit 31 is the sign. */
  lemma SignBit(x: word)
    ensures Bit(x, 31) == (x >= 0x8000_0000)
    ensures 0 <= Quot(x, 31) < 2
    ensures x >= 0x8000_0000 <==> Quot(x, 31) == 1
  {
    FlagPowers();
    Pow2Of32();
    assert Pow2(1) == 2;
    BitValue(x, 31);
    QuotBelow(x, 31, 1);
    if x >= 0x8000_0000 {
      QuotAtLeast(x, 31, 0);
    } else {
      QuotVanishes(x, 31);
    }
  }

  // ---- The same on whole words --------------------------------------------

  lemma OrFields(a: word, c: nat, k: nat)
    requires k <= 32 && a < Pow2(k) && a + Scale(c, k) < 0x1_0000_0000
    ensures Scale(c, k) >= 0
    ensures BOr(a, Scale(c, k)) == BOr(Scale(c, k), a) == a + Scale(c, k)
  {
    Pow2Of32();
    OrDisjoint(a, c, k, 32);
  }

  lemma OrNothing(x: word)
    ensures BOr(x, 0) == x && BOr(0, x) == x
  {
    Pow2Of32();
    OrZero(x, 32);
  }

  lemma BitOfOr(x: word, y: word, i: nat)
    requires i < 32
    ensures Bit(BOr(x, y), i) == (Bit(x, i) || Bit(y, i))
  {
    BitwiseBit(Or, x, y, 32, i);
  }

  lemma BitOfAnd(x: word, y: word, i: nat)
    requires i < 32
    ensures Bit(BAnd(x, y), i) == (Bit(x, i) && Bit(y, i))
  {
    BitwiseBit(And, x, y, 32, i);
  }

  lemma BitOfXor(x: word, y: word, i: nat)
    requires i < 32
    ensures Bit(BXor(x, y), i) == (Bit(x, i) != Bit(y, i))
  {
    BitwiseBit(Xor, x, y, 32, i);
  }

  lemma BitOfNot(x: word, i: nat)
    requires i < 32
    ensures Bit(BNot(x), i) != Bit(x, i)
  {
    Pow2Of32();
    NotBit(x, 32, i);
  }

  lemma NoBitAbove(x: word, i: nat)
    requires 32 <= i
    ensures !Bit(x, i)
  {
    Pow2Of32();
    BitBeyond(x, 32, i);
  }

  lemma WordsEqual(x: word, y: word)
    requires forall i :: 0 <= i < 32 ==> Bit(x, i) == Bit(y, i)
    ensures x == y
  {
    Pow2Of32();
    BitsDetermine(x, y, 32);
  }

  // ---- The bit-field macros of util.h -------------------------------------

  function GetBit(x: word, i: nat): (r: byte)
    requires i < 32
    ensures r == ToInt(Bit(x, i))
  {
    AndMask(Shr(x, i), 1, 32);
    assert Pow2(1) == 2;
    BitOfQuot(x, i, 0);
    BAnd(Shr(x, i), 1)
  }

  function SetBit(x: word, i: nat): (r: word)
    requires i < 32
    ensures r == if Bit(x, i) then x else x + Pow2(i)
  {
    OneShifted(i);
    Pow2Of32();
    OrPow2(x, i, 32);
    BOr(x, Shl(1, i))
  }

  function ClrBit(x: word, i: nat): (r: word)
    requires i < 32
    ensures r == if Bit(x, i) then x - Pow2(i) else x
  {
    OneShifted(i);
    Pow2Of32();
    AndNotPow2(x, i, 32);
    BAnd(x, BNot(Shl(1, i)))
  }

  /** ~(((~0) >> k) << k), where ~0 is the int -1 and >> keeps its sign. */
  function Mask(k: nat): word {
    BNot(Wrap(Scale(Quot(-1, k), k)))
  }

  lemma MaskIsOnes(k: nat)
    requires k <= 32
    ensures Mask(k) == Pow2(k) - 1
  {
    Steady(k);
    ScaleMinusOne(0, k);
    Pow2Of32();
    Pow2Monotone(k, 32);
    NotOfNegative(Pow2(k));
  }

  lemma NotOfNegative(p: nat)
    requires 1 <= p <= 0x1_0000_0000
    ensures BNot(Wrap(0 - p as int)) == p - 1
  {
  }

  function GetBits(x: word, h: nat, l: nat): (r: word)
    requires l <= h < 32
    ensures r == x / Pow2(l) % Pow2(h - l + 1)
  {
    var k := h - l + 1;
    MaskIsOnes(k);
    QuotIsDivision(x, l);
    AndMask(Shr(x, l), k, 32);
    QuotIsDivision(Shr(x, l), k);
    BAnd(Shr(x, l), Mask(k))
  }

  lemma OneShifted(i: nat)
    requires i < 32
    ensures Shl(1, i) == Pow2(i) < 0x1_0000_0000
  {
    FlagPowers();
    Pow2Monotone(i, 31);
    ScaleOne(i);
  }
}
