/**
  registers.c: one array of 37 words seen through a mode-dependent name map.
  The readers and writers of the class are proved against a map from architectural
  register names (sections A2.3 to A2.5) to slots.
 */
module Registers {
  import opened Words
  import opened ArmConstants

  datatype Option<+T> = None | Some(value: T)

  /** The modes that own private registers. */
  datatype Owner = Fiq | Irq | Svc | Abt | Und

  /** Architectural registers: shared ones, private ones, and status registers. */
  datatype Name = R(n: nat) | Banked(owner: Owner, n: nat) | Cpsr | Spsr(owner: Owner)

  function OwnerOf(mode: nat): Option<Owner> {
    if mode == FIQ then Some(Fiq) else if mode == IRQ then Some(Irq) else if mode == SVC then Some(Svc)
    else if mode == ABT then Some(Abt) else if mode == UND then Some(Und) else None
  }

  predicate ValidMode(mode: nat) {
    mode == USR || mode == SYS || OwnerOf(mode).Some?
  }

  /** The register that a number denotes in a mode; 17 denotes the SPSR. */
  function NameOf(mode: nat, reg: byte): (r: Option<Name>)
    ensures r.Some? ==> IsName(r.value)
  {
    if reg <= 7 || reg == PC then Some(R(reg))
    else if reg == CPSR then Some(Cpsr)
    else if reg <= 12 then Some(if mode == FIQ then Banked(Fiq, reg) else R(reg))
    else if reg <= 14 then
      if mode == USR || mode == SYS then Some(R(reg)) else PrivateName(mode, reg)
    else if reg == 17 then SpsrName(mode)
    else None
  }

  function PrivateName(mode: nat, reg: byte): (r: Option<Name>)
    requires 13 <= reg <= 14
    ensures r.Some? ==> IsName(r.value)
  {
    match OwnerOf(mode)
    case Some(o) => Some(Banked(o, reg))
    case None => None
  }

  function SpsrName(mode: nat): (r: Option<Name>)
    ensures r.Some? ==> IsName(r.value)
  {
    match OwnerOf(mode)
    case Some(o) => Some(Spsr(o))
    case None => None
  }

  predicate IsName(nm: Name) {
    match nm
    case R(n) => n <= 15
    case Banked(o, n) => (if o == Fiq then 8 else 13) <= n <= 14
    case Cpsr => true
    case Spsr(o) => true
  }

  /** r8 to r12 of FIQ, the registers the writer misses. */
  predicate FiqHigh(nm: Name) {
    nm.Banked? && nm.n <= 12
  }

  /** arm_constants.h:64-98 */
  function SlotOf(nm: Name): nat
    requires IsName(nm)
  {
    match nm
    case R(n) => n
    case Cpsr => CPSR
    case Spsr(o) =>
      (match o case Svc => SPSR_SVC case Abt => SPSR_ABT case Und => SPSR_UND case Irq => SPSR_IRQ case Fiq => SPSR_FIQ)
    case Banked(o, n) =>
      match o
      case Svc => if n == 13 then R13_SVC else R14_SVC
      case Abt => if n == 13 then R13_ABT else R14_ABT
      case Und => if n == 13 then R13_UND else R14_UND
      case Irq => if n == 13 then R13_IRQ else R14_IRQ
      case Fiq =>
        if n == 8 then R8_FIQ else if n == 9 then R9_FIQ else if n == 10 then R10_FIQ
        else if n == 11 then R11_FIQ else if n == 12 then R12_FIQ else if n == 13 then R13_FIQ else R14_FIQ
  }

  // ---- Reads and writes of a register array by name -----------------------

  type RegArray = s: seq<word> | |s| == 37 witness seq(37, i => 0)

  function Mode(regs: RegArray): (m: nat)
    ensures m < 32
  {
    regs[CPSR] % 32
  }

  function ReadName(regs: RegArray, name: Option<Name>): word
    requires name.Some? ==> IsName(name.value)
  {
    if name.None? then 0 else regs[SlotOf(name.value)]
  }

  function WriteName(regs: RegArray, name: Option<Name>, value: word): RegArray
    requires name.Some? ==> IsName(name.value)
  {
    if name.None? || FiqHigh(name.value) then regs else regs[SlotOf(name.value) := value]
  }

  function ReadReg(regs: RegArray, reg: byte): word {
    ReadName(regs, NameOf(Mode(regs), reg))
  }

  function WriteReg(regs: RegArray, reg: byte, value: word): RegArray {
    WriteName(regs, NameOf(Mode(regs), reg), value)
  }

  function SpsrValue(regs: RegArray): word {
    ReadName(regs, SpsrName(Mode(regs)))
  }

  function SpsrSet(regs: RegArray, value: word): RegArray {
    WriteName(regs, SpsrName(Mode(regs)), value)
  }

  /** The register a number denotes in User mode's own view: 16 is the CPSR. */
  function UsrName(reg: byte): (r: Option<Name>)
    ensures r.Some? ==> IsName(r.value)
  {
    if reg <= 15 then Some(R(reg)) else if reg == 16 then Some(Cpsr) else None
  }

  function UsrValue(regs: RegArray, reg: byte): word {
    ReadName(regs, UsrName(reg))
  }

  function WriteUsr(regs: RegArray, reg: byte, value: word): RegArray {
    WriteName(regs, UsrName(reg), value)
  }

  lemma ModeMask(cpsr: word)
    ensures BAnd(cpsr, BNot(Wrap(Scale(-1, 5)))) == cpsr % 32
  {
    assert Pow2(5) == 32;
    ScaleIsProduct(-1, 5);
    AndMask(cpsr, 5, 32);
    QuotIsDivision(cpsr, 5);
  }

  class RegisterFile {
    const regNumber: array<word>

    ghost predicate Valid()
      reads this
    {
      regNumber.Length == 37
    }

    ghost function Contents(): RegArray
      requires Valid()
      reads this, regNumber
    {
      regNumber[..]
    }

    /** registers.c:32-35: the slots keep whatever the allocation holds. */
    constructor ()
      ensures Valid() && fresh(regNumber)
    {
      regNumber := new word[37];
    }

    /** registers.c:41-44 */
    function GetMode(): (mode: byte)
      requires Valid()
      reads this, regNumber
      ensures mode == Mode(Contents())
    {
      ModeMask(regNumber[CPSR]);
      BAnd(regNumber[CPSR], BNot(Wrap(Scale(-1, 5))))
    }

    /** registers.c:46-52 */
    predicate CurrentModeHasSpsr()
      requires Valid()
      reads this, regNumber
    {
      var mode := GetMode();
      mode != USR && mode != SYS
    }

    /** registers.c:62-124 */
    method ReadRegister(reg: byte) returns (value: word)
      requires Valid()
      ensures value == ReadReg(Contents(), reg)
    {
      value := 0;
      var mode := GetMode();
      if reg <= 7 || reg == PC || reg == CPSR {
        value := regNumber[reg];
      } else if 8 <= reg <= 12 {
        if mode == FIQ {
          match reg {
            case 8 => value := regNumber[R8_FIQ];
            case 9 => value := regNumber[R9_FIQ];
            case 10 => value := regNumber[R10_FIQ];
            case 11 => value := regNumber[R11_FIQ];
            case 12 => value := regNumber[R12_FIQ];
          }
        } else {
          value := regNumber[reg];
        }
      } else if reg == 13 {
        if mode == USR || mode == SYS { value := regNumber[reg]; }
        else if mode == SVC { value := regNumber[R13_SVC]; }
        else if mode == ABT { value := regNumber[R13_ABT]; }
        else if mode == UND { value := regNumber[R13_UND]; }
        else if mode == IRQ { value := regNumber[R13_IRQ]; }
        else if mode == FIQ { value := regNumber[R13_FIQ]; }
      } else if reg == 14 {
        if mode == USR || mode == SYS { value := regNumber[reg]; }
        else if mode == SVC { value := regNumber[R14_SVC]; }
        else if mode == ABT { value := regNumber[R14_ABT]; }
        else if mode == UND { value := regNumber[R14_UND]; }
        else if mode == IRQ { value := regNumber[R14_IRQ]; }
        else if mode == FIQ { value := regNumber[R14_FIQ]; }
      } else if reg == 17 {
        value := ReadSpsr();
      }
    }

    /** registers.c:126-131 */
    method ReadUsrRegister(reg: byte) returns (value: word)
      requires Valid()
      ensures value == UsrValue(Contents(), reg)
    {
      value := 0;
      if reg <= 16 {
        value := regNumber[reg];
      }
    }

    /** registers.c:133-135 */
    function ReadCpsr(): word
      requires Valid()
      reads this, regNumber
    {
      regNumber[CPSR]
    }

    /** registers.c:137-158 */
    method ReadSpsr() returns (value: word)
      requires Valid()
      ensures value == SpsrValue(Contents())
    {
      value := 0;
      var mode := GetMode();
      if mode == SVC { value := regNumber[SPSR_SVC]; }
      else if mode == ABT { value := regNumber[SPSR_ABT]; }
      else if mode == UND { value := regNumber[SPSR_UND]; }
      else if mode == IRQ { value := regNumber[SPSR_IRQ]; }
      else if mode == FIQ { value := regNumber[SPSR_FIQ]; }
    }

    /** registers.c:160-219.  For r8 to r12 of FIQ the inner switch tests mode, so no case matches. */
    method WriteRegister(reg: byte, value: word)
      requires Valid()
      modifies regNumber
      ensures Contents() == WriteReg(old(Contents()), reg, value)
    {
      var mode := GetMode();
      if reg <= 7 || reg == PC || reg == CPSR {
        regNumber[reg] := value;
      } else if 8 <= reg <= 12 {
        if mode == FIQ {
          // The five cases of the inner switch are modes 8 to 12, none of which is FIQ.
          if 8 <= mode <= 12 {
            assert false;
          }
        } else {
          regNumber[reg] := value;
        }
      } else if reg == 13 {
        if mode == USR || mode == SYS { regNumber[reg] := value; }
        else if mode == SVC { regNumber[R13_SVC] := value; }
        else if mode == ABT { regNumber[R13_ABT] := value; }
        else if mode == UND { regNumber[R13_UND] := value; }
        else if mode == IRQ { regNumber[R13_IRQ] := value; }
        else if mode == FIQ { regNumber[R13_FIQ] := value; }
      } else if reg == 14 {
        if mode == USR || mode == SYS { regNumber[reg] := value; }
        else if mode == SVC { regNumber[R14_SVC] := value; }
        else if mode == ABT { regNumber[R14_ABT] := value; }
        else if mode == UND { regNumber[R14_UND] := value; }
        else if mode == IRQ { regNumber[R14_IRQ] := value; }
        else if mode == FIQ { regNumber[R14_FIQ] := value; }
      } else if reg == 17 {
        WriteSpsr(value);
      }
    }

    /** registers.c:221-224 */
    method WriteUsrRegister(reg: byte, value: word)
      requires Valid()
      modifies regNumber
      ensures Contents() == WriteUsr(old(Contents()), reg, value)
    {
      if reg <= 16 {
        regNumber[reg] := value;
      }
    }

    /** registers.c:226-228 */
    method WriteCpsr(value: word)
      requires Valid()
      modifies regNumber
      ensures Contents() == old(Contents())[CPSR := value]
    {
      regNumber[CPSR] := value;
    }

    /** registers.c:230-249 */
    method WriteSpsr(value: word)
      requires Valid()
      modifies regNumber
      ensures Contents() == SpsrSet(old(Contents()), value)
    {
      var mode := GetMode();
      if mode == SVC { regNumber[SPSR_SVC] := value; }
      else if mode == ABT { regNumber[SPSR_ABT] := value; }
      else if mode == UND { regNumber[SPSR_UND] := value; }
      else if mode == IRQ { regNumber[SPSR_IRQ] := value; }
      else if mode == FIQ { regNumber[SPSR_FIQ] := value; }
    }
  }
}
