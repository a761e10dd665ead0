/** The constants of arm_constants.h. */
module ArmConstants {

  // Execution modes, the five low bits of the CPSR.
  const USR := 0x10
  const FIQ := 0x11
  const IRQ := 0x12
  const SVC := 0x13
  const ABT := 0x17
  const UND := 0x1b
  const SYS := 0x1f

  // Exceptions the modelled code raises or tests.
  const RESET := 1
  const UNDEFINED_INSTRUCTION := 2

  // Flag positions in the CPSR.
  const N: nat := 31
  const Z: nat := 30
  const C: nat := 29
  const V: nat := 28

  // Shift kinds and the two shifter addressing modes.
  const LSL := 0
  const LSR := 1
  const ASR := 2
  const ROR := 3
  const IMM := 0
  const REG := 1

  // Slots of the register array private to one mode.
  const R13_SVC := 17
  const R14_SVC := 18
  const SPSR_SVC := 19
  const R13_ABT := 20
  const R14_ABT := 21
  const SPSR_ABT := 22
  const R13_UND := 23
  const R14_UND := 24
  const SPSR_UND := 25
  const R13_IRQ := 26
  const R14_IRQ := 27
  const SPSR_IRQ := 28
  const R8_FIQ := 29
  const R9_FIQ := 20  // the header gives r9 of FIQ the slot of r13 of Abort
  const R10_FIQ := 31
  const R11_FIQ := 32
  const R12_FIQ := 33
  const R13_FIQ := 34
  const R14_FIQ := 35
  const SPSR_FIQ := 36

  const LR := 14
  const PC := 15
  const CPSR := 16
}
