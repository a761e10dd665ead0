/** arm_core.c: the processor state, the register view with the pc adjustment, and the fetch. */
module ArmCore {
  import opened Words
  import opened ArmConstants
  import opened Registers
  import opened Memory
  import Util

  /** Everything an instruction can observe or change. */
  datatype State = State(regs: RegArray, mem: seq<byte>, cycles: word)

  /** The pc as instructions read it: four more, with bit 1 cleared. */
  function PcView(v: word): word {
    var w := Wrap(v + 4);
    w - w / 2 % 2 * 2
  }

  /** A register as instructions read it. */
  function CoreRead(regs: RegArray, reg: byte): word {
    if reg == PC then PcView(ReadReg(regs, PC)) else ReadReg(regs, reg)
  }

  /** The view of pc 4k + r: the next word address, with bit 0 of the pc. */
  lemma PcViewValue(k: nat, r: nat)
    requires r < 4 && 4 * k + r < 0x1_0000_0000
    ensures PcView(4 * k + r) == (4 * k + 4 + r % 2) % 0x1_0000_0000
  {
    var v := 4 * k + r;
    assert Wrap(v + 4) == if v + 4 < 0x1_0000_0000 then v + 4 else v + 4 - 0x1_0000_0000;
    var w := Wrap(v + 4);
    var j := if v + 4 < 0x1_0000_0000 then k + 1 else 0;
    assert w == 4 * j + r;
    DivUnique(w, 2, 2 * j + r / 2, r % 2);
    DivUnique(2 * j + r / 2, 2, j, r / 2);
  }

  function FetchAddress(s: State): word {
    Wrap(CoreRead(s.regs, PC) - 4)
  }

  /** The fetch reads a whole word; past the buffer the source decodes an unset variable. */
  predicate CanFetch(s: State) {
    FetchAddress(s) + 4 <= |s.mem|
  }

  function FetchedWord(s: State): word
    requires CanFetch(s)
  {
    var bs := Window(s.mem, FetchAddress(s), 4);
    Pow2Of32();
    FromBytes(bs)
  }

  function AfterFetch(s: State): State {
    s.(regs := WriteReg(s.regs, PC, Wrap(FetchAddress(s) + 4)), cycles := Wrap(s.cycles + 1))
  }

  lemma ClearBit1(w: word)
    ensures BAnd(w, 0xFFFF_FFFD) == w - w / 2 % 2 * 2
  {
    assert Pow2(1) == 2;
    OneShifted(1);
    assert ClrBit(w, 1) == BAnd(w, 0xFFFF_FFFD);
    assert Bit(w, 1) == Bit(w / 2, 0);
  }

  class Core {
    var cycleCount: word
    const reg: RegisterFile
    const mem: MemoryData
    const util: Util.UtilState

    ghost predicate Valid()
      reads this, reg, mem
    {
      reg.Valid() && mem.Valid() && mem.isBigEndian && (reg.regNumber as object) != mem.memo
    }

    ghost function View(): State
      requires Valid()
      reads this, reg, mem, reg.regNumber, mem.memo
    {
      State(reg.Contents(), mem.Contents(), cycleCount)
    }

    /** arm_core.c:38-49 */
    constructor (mem: MemoryData)
      requires mem.Valid() && mem.isBigEndian
      ensures Valid() && this.mem == mem && fresh(reg) && fresh(reg.regNumber) && fresh(util)
      ensures View().cycles == 0 && View().mem == old(mem.Contents())
      ensures Mode(View().regs) == SVC && View().regs[PC] == 0
    {
      this.mem := mem;
      cycleCount := 0;
      reg := new RegisterFile();
      util := new Util.UtilState();
      new;
      Exception(RESET);
      cycleCount := 0;
    }

    /** arm_exception.c:33-40: only RESET has an effect. */
    method Exception(exception: int)
      requires Valid()
      modifies reg.regNumber
      ensures Valid()
      ensures View() == if exception == RESET
                        then old(View()).(regs := old(View()).regs[CPSR := 0x1d3][PC := 0])
                        else old(View())
    {
      if exception == RESET {
        reg.WriteCpsr(0x1d3);
        reg.WriteUsrRegister(15, 0);
      }
    }

    /** arm_core.c:73-81 */
    method ReadRegister(r: byte) returns (value: word)
      requires Valid()
      ensures value == CoreRead(View().regs, r)
    {
      value := reg.ReadRegister(r);
      if r == 15 {
        value := Wrap(value + 4);
        ClearBit1(value);
        value := BAnd(value, 0xFFFF_FFFD);
      }
    }

    /** arm_core.c:129-139 */
    method Fetch() returns (value: word, result: int)
      requires Valid() && CanFetch(View())
      modifies `cycleCount, reg.regNumber
      ensures Valid() && View() == AfterFetch(old(View()))
      ensures value == FetchedWord(old(View())) && result == 0
    {
      ghost var s := View();
      cycleCount := Wrap(cycleCount + 1);
      var pc: int := ReadRegister(15);
      var address: int := Wrap(pc - 4);
      assert address == FetchAddress(s);
      value, result := mem.ReadWord(address, 0);
      assert reg.Contents() == s.regs && mem.Contents() == s.mem;
      reg.WriteRegister(15, Wrap(address + 4));
    }
  }
}
