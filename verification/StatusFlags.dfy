/** The condition flags as bits 31..28 of a status word, and the condition table. */
module StatusFlags {
  import opened Words
  import opened ArmConstants

  datatype Flags = Flags(n: bool, z: bool, c: bool, v: bool)

  function FlagsIn(cpsr: word): Flags {
    Flags(cpsr / 0x8000_0000 % 2 == 1, cpsr / 0x4000_0000 % 2 == 1,
          cpsr / 0x2000_0000 % 2 == 1, cpsr / 0x1000_0000 % 2 == 1)
  }

  /** The status word with its four flags replaced and bits 27..0 kept. */
  function WithFlags(cpsr: word, f: Flags): word {
    cpsr % 0x1000_0000 + ToInt(f.n) * 0x8000_0000 + ToInt(f.z) * 0x4000_0000
    + ToInt(f.c) * 0x2000_0000 + ToInt(f.v) * 0x1000_0000
  }

  /** The flags are the binary digits of the top four bits. */
  lemma FlagsByNibble(x: word, q: nat)
    requires q == x / 0x1000_0000
    ensures q < 16
    ensures FlagsIn(x) == Flags(q / 8 % 2 == 1, q / 4 % 2 == 1, q / 2 % 2 == 1, q % 2 == 1)
  {
  }

  function Nibble(f: Flags): (q: nat)
    ensures q < 16
    ensures f == Flags(q / 8 % 2 == 1, q / 4 % 2 == 1, q / 2 % 2 == 1, q % 2 == 1)
  {
    8 * ToInt(f.n) + 4 * ToInt(f.z) + 2 * ToInt(f.c) + ToInt(f.v)
  }

  lemma NibbleOfDigits(q: nat)
    requires q < 16
    ensures Nibble(Flags(q / 8 % 2 == 1, q / 4 % 2 == 1, q / 2 % 2 == 1, q % 2 == 1)) == q
  {
  }

  /** Flags can be written and read back, and writing them touches nothing else. */
  lemma FlagsRoundTrip(cpsr: word, f: Flags)
    ensures FlagsIn(WithFlags(cpsr, f)) == f
    ensures WithFlags(cpsr, FlagsIn(cpsr)) == cpsr
    ensures WithFlags(cpsr, f) % 0x1000_0000 == cpsr % 0x1000_0000
    ensures WithFlags(cpsr, f) % 32 == cpsr % 32
  {
    var x, low, q := WithFlags(cpsr, f), cpsr % 0x1000_0000, Nibble(f);
    assert x == q * 0x1000_0000 + low;
    DivUnique(x, 0x1000_0000, q, low);
    FlagsByNibble(x, q);
    var p := cpsr / 0x1000_0000;
    FlagsByNibble(cpsr, p);
    NibbleOfDigits(p);
    assert cpsr == p * 0x1000_0000 + low;
    assert x - cpsr == 32 * ((q - p) * 0x80_0000);
  }

  lemma FlagsOverwrite(cpsr: word, f: Flags, g: Flags)
    ensures WithFlags(WithFlags(cpsr, f), g) == WithFlags(cpsr, g)
  {
    FlagsRoundTrip(cpsr, f);
  }

  /** The flag positions name the bits that FlagsIn reads. */
  lemma FlagBits(cpsr: word)
    ensures FlagsIn(cpsr) == Flags(Bit(cpsr, N), Bit(cpsr, Z), Bit(cpsr, C), Bit(cpsr, V))
  {
    FlagPowers();
    BitDivision(cpsr, 31);
    BitDivision(cpsr, 30);
    BitDivision(cpsr, 29);
    BitDivision(cpsr, 28);
  }

  /** N, Z, C and V are bits 31, 30, 29 and 28. */
  lemma FlagPositions(cpsr: word)
    ensures FlagsIn(cpsr) == Flags(Bit(cpsr, 31), Bit(cpsr, 30), Bit(cpsr, 29), Bit(cpsr, 28))
  {
    FlagBits(cpsr);
  }

  lemma BitDivision(x: word, i: nat)
    ensures x / Pow2(i) % 2 == ToInt(Bit(x, i))
  {
    BitValue(x, i);
    QuotIsDivision(x, i);
  }

  /** Table A3-1: conditions come in pairs, the odd one negating the even one. */
  predicate CondPassed(cond: byte, f: Flags) {
    if cond >= 14 then true
    else CondBase(cond / 2, f) != (cond % 2 == 1)
  }

  predicate CondBase(pair: nat, f: Flags) {
    match pair
    case 0 => f.z
    case 1 => f.c
    case 2 => f.n
    case 3 => f.v
    case 4 => f.c && !f.z
    case 5 => f.n == f.v
    case _ => !f.z && f.n == f.v
  }
}
