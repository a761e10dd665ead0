# A verified model of the Armator data-processing core

Armator is an ARMv5 instruction-set emulator written in C. This project models its
data-processing path (decode, condition test, barrel shifter, ALU, flag update), the
banked register file it runs on, the big-endian byte memory beside it, the fetch, the
branch and the step that drives them, and proves what runs of these parts do.

`dafny verify dfyconfig.toml` checks everything.

## How it is built

- `Words` holds the fixed-width words as integers with an explicit range. The C operators
  `&`, `|`, `^`, `~`, `<<`, `>>` and the bit-field macros of `util.h` are defined on binary
  digits; the lemmas there turn expressions on bits into integer arithmetic.
- `Shifter`, `StatusFlags` and `Util` model `util.c`. `DoShift`, `UpdateFlags`, `ModBit` and
  `CondValid` are methods in the source's own shape. Each is proved against a definition
  stated on integers: the product or quotient a shift stands for, the exact carry test, the
  table of conditions.
- `Registers` models `registers.c` as a class over one array of 37 words. Its methods are
  proved against a map from architectural register names to slots.
- `Memory` models `memory.c` as a class over one byte array, with its word loops.
- `ArmCore`, `DataProcessing` and `Instruction` model `arm_core.c`, `arm_data_processing.c`,
  `arm_branch_other.c` and the dispatch. The mutable core has a value view, `State`; every
  method states its whole effect as a function from `State` to `State`.
- `Encodings` says what fetch, dispatch, operands, write-back and branches do, in terms of
  the bits of the instruction word and the numbered slots of the register array alone.
- `RegisterRuns`, `MemoryRuns`, `Conditions`, `MultiWord`, `LongPrograms`, `DataLaws`, `Isolation`,
  `Countdown` and `Example1` prove the properties, over every input and every run. `Runs` has the
  induction over runs, once for all state changes.

## Where the code departs from its manual

The model follows the code; the manual is the ARM Architecture Reference Manual, ARM DDI 0100.

- With Rn all ones and a carry in, the bound of the carry test wraps, C is cleared and the
  carry is lost. Every property of the carry says exactly when this happens.
- C and V use the addition test for subtractions too; exactly one of the two is right, and which one depends on the operands.
- ASR by 32 or more of a negative value leaves 24 ones.
- RRX shifts the wrong way and does not bring in the carry; ROR by register takes its amount from Rm. Both meet the manual on some operands, which are given exactly.
- The carry of an immediate operand depends on the immediate, not on the rotation.
- Writing the pc with S set copies the CPSR to the SPSR, not the SPSR to the CPSR.
- Condition 1111 counts as true.
- A test opcode with S clear, the encoding of MRS, MSR and BX, runs as TST, TEQ, CMP or CMN and overwrites the flags.
- A write to r8 to r12 in FIQ mode is lost, and r9 of FIQ has the slot of r13 of Abort.
- A branch whose condition fails reports an undefined instruction. `arm_step` passes the status on, and the processor state is left alone.

`ror` by 0 shifts by 32, which C leaves undefined; the model takes it as the identity.

## Model

| member | source | states |
|---|---|---|
| Words.GetBits | util.h:35 | the mask built from ones shifted right, left and inverted extracts exactly the field between two bit positions |
| Words.BitwiseBit | util.h:31-33 | bitwise operators act on each binary digit separately |
| Words.OrDisjoint | memory.c:92 | an OR of two fields that do not overlap is their sum |
| Shifter.RorIsRotation | util.c:33-35 | the two shifts joined by OR move the low field to the top, for every amount |
| Shifter.RorCompose | util.c:33-35 | rotations compose by adding amounts modulo 32 |
| Shifter.AsrIsFloorDivision | util.c:29-31 | the result read signed is the floor of the signed value over 2^n, for 1 to 31 |
| Shifter.AsrCompose | util.c:29-31 | arithmetic shifts compose additively while the total stays below 32 |
| Shifter.DoShift | util.c:137-272 | every branch delivers the operand and carry of one integer law per shift kind, departures included |
| Shifter.LslOperand | util.c:142-217 | carry and operand are the low 33 bits of Rm times 2^n, for all amounts; amount 0 changes nothing |
| Shifter.LsrOperand | util.c:155-233 | twice the operand plus the carry is the floor of Rm over 2^(n-1), immediate 0 standing for 32 |
| Shifter.AsrOperand | util.c:166-250 | the same law on signed values holds if and only if n is below 32 or the value is not negative |
| Shifter.ImmediateShifts | util.c:140-194 | every encoded immediate amount: 1 to 31 obey the four laws of operand and carry; 0 is no shift, LSR by 32, ASR by 32, or a doubling for RRX |
| Shifter.RegisterShifts | util.c:196-264 | every amount in a register counts by its low byte, 0 leaves value and carry; ROR takes the low five bits of Rm instead |
| Shifter.RorCarryIsTopBit | util.c:187-190 | an immediate rotation by 1 to 31 sends its last bit to the carry and to bit 31 of the operand |
| Shifter.RrxMeetsManual | util.c:182-186 | RRX always has the carry of section A5.1.13, and its operand if and only if Rm is 0 with C clear or 0x55555555 with C set |
| Shifter.RorByRegisterMeetsManual | util.c:252-260 | operand and carry follow section A5.1.12 if and only if Rs asks for no shift or rotating Rm by the difference of the amounts leaves it |
| StatusFlags.FlagsRoundTrip | arm_constants.h:45-49 | flags written into a status word are read back, and bits 27 to 0 stay |
| StatusFlags.FlagPositions | arm_constants.h:45-49 | N, Z, C and V are bits 31, 30, 29 and 28 |
| Util.FieldsRecompose | util.c:91-98 | the decoded fields partition the instruction word |
| Util.UtilState.CondValid | util.c:42-82 | the fourteen tests are seven conditions and their negations; the last two conditions always pass, the very last with -1 |
| Util.JmpCalcValue | util.c:84-89 | sign extension and shift give four times the signed 24-bit field |
| Util.JmpCalcBijective | util.c:84-89 | fields and multiples of 4 from -2^25 to 2^25 - 4 correspond one to one |
| Util.ModBit | util.c:100-102 | one bit takes the given value and the others stay; on a flag position one flag is replaced |
| Util.CarryTest | util.c:129 | the wrapped unsigned comparison is the exact carry out, but for Rn all ones with a carry in |
| Util.UpdateFlags | util.c:104-133 | the new status word replaces N, Z, C and V by exact conditions on the operands and keeps the rest |
| Registers.RegisterFile.ReadRegister | registers.c:62-124 | the value is the slot of the register that the number names in the current mode, 0 if there is none |
| Registers.RegisterFile.ReadUsrRegister | registers.c:126-131 | the value is the slot of the user register, 0 above 16 |
| Registers.RegisterFile.ReadSpsr | registers.c:137-158 | the value is the saved status of the current mode, 0 if it has none |
| Registers.RegisterFile.WriteRegister | registers.c:160-219 | the array changes in the slot of the named register only; r8 to r12 of FIQ are not written |
| Registers.RegisterFile.WriteUsrRegister | registers.c:221-224 | the array changes in the user slot only, or not at all above 16 |
| Registers.RegisterFile.WriteSpsr | registers.c:230-249 | the array changes in the saved status of the current mode only |
| RegisterRuns.SharedInPlace | registers.c:62-219 | r0 to r7, pc and CPSR in every mode, r8 to r12 outside FIQ and r13, r14 of User and System read and write the slot of their own number |
| RegisterRuns.PrivateInPlace | registers.c:62-249 | r13, r14 and the SPSR of each exception mode read and write the slot numbered in the header; r8 to r12 of FIQ read theirs and are never written |
| RegisterRuns.NotInPlace | registers.c:62-249 | where a mode has no such register reads give 0 and writes change nothing |
| RegisterRuns.UserInPlace | registers.c:126-224 | the user view is slots 0 to 16 in every mode; the SPSR calls are number 17 |
| RegisterRuns.SlotsSeparate | arm_constants.h:64-98 | names resolve to slots below 37, and two names share a slot only if equal or r9 of FIQ with r13 of Abort |
| RegisterRuns.SharedAcrossModes | registers.c:62-124 | a number names the same register in two modes exactly when section A2.3 shares it |
| RegisterRuns.SeventeenIsSpsr | registers.c:120-218 | number 17 reads the saved status of the mode, or 0, and writes its slot and no other; slot 17 is never touched |
| RegisterRuns.RunRefines | registers.c:160-249 | every run of writes, through any modes, keeps the array equal to independent architectural registers |
| RegisterRuns.ReadAfterRun | registers.c:62-249 | what every read, through the mode or through the user view, returns after every run from any initial array: the last value written, the aliased or initial value for r8 to r12 of FIQ, or 0 |
| RegisterRuns.LastWriteWins | registers.c:160-249 | the reference registers hold the value of the last write addressed to them |
| RegisterRuns.UnaddressedKeepsValue | registers.c:160-249 | a reference register that no operation of a run is addressed to keeps its initial value |
| RegisterRuns.ReadBack | registers.c:164-180 | a value written is read back if and only if it is not r8 to r12 in FIQ mode or was there already |
| RegisterRuns.FiqR9ReadsAbortR13 | arm_constants.h:70-86 | after a write to r13 in Abort mode and a switch to FIQ, r9 reads that value |
| Memory.MemoryData.ReadByte | memory.c:58-65 | the byte at an address in range, and a refusal beyond |
| Memory.MemoryData.ReadHalf | memory.c:67-84 | two bytes composed most significant first |
| Memory.MemoryData.ReadWord | memory.c:86-105 | the accumulate loop composes four bytes most significant first |
| Memory.MemoryData.WriteByte | memory.c:107-114 | one byte replaced, or nothing when refused |
| Memory.MemoryData.WriteHalf | memory.c:116-129 | two bytes replaced by the split of the value, all others kept |
| Memory.MemoryData.WriteWord | memory.c:131-145 | the shift-out loop replaces four bytes by the split of the value and keeps all others |
| Memory.BytesRoundTrip | memory.c:86-137 | splitting a value into bytes and composing them gives it back, for any width |
| MemoryRuns.RunBytes | memory.c:107-145 | after every run of writes each byte is the one last written there, or the initial one |
| MemoryRuns.ReadAfterRun | memory.c:58-145 | every read after every run composes the last bytes written, unaligned and overlapping writes included |
| MemoryRuns.StoreThenLoad | memory.c:86-137 | a value stored is read back |
| MemoryRuns.LoadThenStore | memory.c:86-137 | storing what was just read changes nothing |
| MemoryRuns.WordIsTwoHalves | memory.c:67-95 | a word is its first half times 65536 plus its second half |
| ArmCore.Core.ReadRegister | arm_data_processing.c:36 | the call's body is at lines 73-81 of arm_core.c: the pc reads as four more with bit 1 cleared, the others as they are |
| ArmCore.Core.Fetch | arm_instruction.c:35 | the call's body is at lines 129-139 of arm_core.c: the word at the pc is delivered, the pc and the cycle count advance, nothing else changes |
| ArmCore.PcViewValue | arm_data_processing.c:36 | the call's body is at lines 73-81 of arm_core.c: a pc of 4k + r reads as 4k + 4 with bit 0 of r, misaligned ones included |
| Encodings.FetchEffect | arm_instruction.c:35 | from any pc, aligned or not, which four bytes make the fetched word, and where the pc and the cycle count go |
| Encodings.DispatchByBits | arm_instruction.c:40-69 | bits 27 to 25, 7 and 4 choose the handler; class 000 with bits 7 and 4 set is never stepped |
| Encodings.ShiftByRegisterOperand | arm_data_processing.c:82-101 | for every Rs, kind and Rm field, operand and carry by the integer law of the kind on Rm and the low byte of Rs |
| Encodings.ShiftByImmediateOperand | arm_data_processing.c:82-101 | for every amount, kind and Rm field, operand and carry by the integer law of the kind on Rm |
| Encodings.ImmediateOperandCarry | arm_data_processing.c:112 | the carry is the top bit of the operand, or C when the immediate is 0 |
| Encodings.WhenFlagsAreSet | arm_data_processing.c:69-76 | opcodes 8 to 11 set the flags always, the others with S set unless they write the pc |
| Encodings.TestsOnlySetFlags | arm_data_processing.c:40-76 | opcodes 8 to 11 report 0 and change no slot, no memory and no CPSR bit but the flags |
| Encodings.ClearSWritesResult | arm_data_processing.c:69-76 | the other twelve with S clear write the result where the number says, keep the CPSR, and the destination reads as the result |
| Encodings.SetSWritesResult | arm_data_processing.c:69-76 | with S set they write the result and the flags and nothing else, and the destination reads as the result |
| Encodings.BranchEffect | arm_instruction.c:59 | the call's body is at lines 30-45 of arm_branch_other.c: from any pc, the new pc by the signed offset bits, the return address, and no other slot |
| Encodings.MovLslEffect | arm_data_processing.c:82-101 | the word of mov r0, r1, lsl r2 leaves r1 times 2^n modulo 2^32 in r0, from every state, and changes nothing else |
| ArmCore.Core.Exception | arm_instruction.c:75-76 | the call's body is at lines 33-40 of arm_exception.c: reset sets the status word and the pc; every other exception changes nothing |
| DataProcessing.ComputeResult | arm_data_processing.c:39-68 | the fall-through switch computes the operation of the opcode modulo 2^32 and marks the tests; a logical result obeys its truth table in every digit |
| DataProcessing.ExecuteIns | arm_data_processing.c:30-79 | the whole state after an instruction: nothing if its condition fails, else destination, flags or saved status |
| DataProcessing.DataProcessingShift | arm_data_processing.c:82-101 | the same with the shifted register operand |
| DataProcessing.DataProcessingImmediate | arm_data_processing.c:103-115 | the same with the rotated immediate operand |
| Instruction.Branch | arm_instruction.c:59 | the call's body is at lines 30-45 of arm_branch_other.c: the pc moves by four times the signed field from its read value, r14 gets the return address with the link bit |
| Instruction.ArmStep | arm_instruction.c:31-78 | one step is the fetch, the handler of the class, and no effect of a reported status on the processor state |
| Conditions.ConditionsAfterAddition | util.c:46-133 | after ADDS, CMN and ADCS outside the wrap, EQ, CS, MI, VS, HI, GE, LT, GT and LE are conditions on the exact unsigned and signed sums |
| Conditions.SignedSum | util.c:107-130 | carry into bit 31 xor carry out is true signed overflow, and N against V is the sign of the exact sum |
| Conditions.ConditionsExactlyOutsideWrap | util.c:126-130 | after any addition CS, VS, GE and LT are exact if and only if the carry bound does not wrap; HI, GT and LE if and only if it does not wrap or the operand is 0; EQ and MI always |
| Conditions.OneOfCarryAndOverflow | util.c:126-130 | after SUB, RSB, SBC, RSC and CMP, from any state, C is the absence of a borrow if and only if V is not signed overflow; the operands that make C right are given exactly |
| Conditions.ConditionsAfterSubtraction | util.c:46-133 | after each of the five, EQ and MI are exact; CS, CC, HI and LS compare unsigned, and VS, GE, LT, GT and LE signed, if and only if C, or V, is the one that is right, or for HI, LS, GT and LE the result is zero |
| Conditions.CarryByOperands | util.c:126-129 | the carry of each of the eight additions and subtractions on its operands, with the incoming C of ADC, SBC and RSC written out |
| Conditions.ConditionsAfterLogical | util.c:107-123 | after the eight logical opcodes EQ and MI speak of the result and of its truth table digit by digit, CS is the shifter carry and VS stays |
| Conditions.CompareOneWithZero | util.c:129-130 | comparing 1 with 0 leaves C clear |
| Conditions.ResultAfter | arm_data_processing.c:69-76 | the destination reads as the result after a flag-setting instruction |
| MultiWord.MultiWordAddition | arm_data_processing.c:52-55 | for every length, limbs, final carry and the carries lost on the way add up to the exact sum |
| MultiWord.MultiWordExactness | arm_data_processing.c:52-55 | limbs and final carry are the exact sum if and only if no ADCS runs with Rn all ones and a carry in |
| MultiWord.MultiWordSubtraction | arm_data_processing.c:44-57 | for every length of SUBS and SBCS, limbs, final borrow and the errors of the carries on the way add up to the exact difference |
| MultiWord.SubtractionExactness | arm_data_processing.c:44-57 | limbs and final borrow are the exact difference if and only if in every limb the addition test happens to tell the borrow; errors never cancel |
| LongPrograms.LongCodeIsChain | arm_data_processing.c:44-57 | a run of one ADDS word and any number of ADCS words, or SUBS and SBCS, of any operand form, performs such a chain, and its last carry is the final C |
| LongPrograms.ChainsOfEveryLength | arm_data_processing.c:52-55 | one pair of words makes programs, and so chains, of every length from every state |
| LongPrograms.ChainReads | arm_data_processing.c:36-70 | if no word reads or overwrites an earlier destination, the limbs operated on are the initial sources and the destinations end with the limbs produced |
| LongPrograms.AddProgramSums | arm_data_processing.c:30-79 | after such a run, of up to fifteen limbs, the destination registers and C hold the exact sum of the initial source registers if and only if no ADCS runs with Rn all ones and a carry in |
| LongPrograms.SubtractProgramDiffers | arm_data_processing.c:30-79 | after such a run of SUBS and SBCS the destination registers and C hold the exact difference if and only if every word's operands and carry make the addition test tell its borrow |
| LongPrograms.LongAddSums | arm_data_processing.c:30-79 | ADDS r4,r0,r2 then ADCS r5,r1,r3 adds two 64-bit numbers exactly from every state but those with r1 all ones and a carry from the low halves |
| LongPrograms.LongSubtractDiffers | arm_data_processing.c:30-79 | SUBS r4,r0,r2 then SBCS r5,r1,r3 subtracts two 64-bit numbers exactly if and only if the low halves carry as a sum when they need no borrow, and the high halves with that carry |
| Isolation.RunWordsIsolates | arm_data_processing.c:69-76 | every sequence of data-processing and branch words keeps memory, CPSR bits 27 to 0 and all registers of other modes, r9 of FIQ seen from Abort mode excepted |
| Isolation.PrivateSlotsKept | arm_constants.h:64-98 | the same by slot numbers: for each mode, which numbered slots nothing it runs can change |
| Isolation.AbortKeepsFiqR9 | arm_constants.h:70-86 | the exception is exact: in Abort mode an instruction changes r9 of FIQ if and only if it writes another value to r13 |
| Isolation.StepsIsolate | arm_instruction.c:71-78 | the same for every run of steps fetched from memory |
| DataLaws.ConditionPairing | util.c:42-82 | of two data-processing or branch words differing in condition bit 28 exactly one acts, as if unconditional, and the other changes nothing |
| DataLaws.UnconditionalTwins | util.c:77-79 | conditions 1110 and 1111 give identical outcomes, for branches too |
| DataLaws.ImmediateOperandValue | arm_data_processing.c:108-110 | the operand is the immediate rotated right by twice the rotate field |
| DataLaws.ImmediateCarry | arm_data_processing.c:112 | C follows section A5.1.3 if and only if it was clear or immediate and rotation are both zero or both not |
| DataLaws.AluDuality | arm_data_processing.c:46-59 | subtractions are additions of the complement, and the reverse forms exchange their operands |
| DataLaws.LogicalArithmetic | arm_data_processing.c:40-67 | AND and OR add up to the sum of the operands, so do twice AND and EOR; BIC takes the AND away, MVN is the distance from all ones |
| DataLaws.SubtractIsAddComplement | arm_data_processing.c:54-57 | with S clear or the pc as destination SBC leaves the same whole state as ADC on the complemented operand, else the same but for C and V |
| DataProcessing.AluDigits | arm_data_processing.c:40-67 | the truth table of each logical opcode and test, written out |
| DataProcessing.LogicalDigits | arm_data_processing.c:40-67 | what each logical operation computes, digit by digit |
| DataLaws.TestIgnoresS | arm_data_processing.c:75-76 | the S bit and the destination of a test do not matter: it sets the flags |
| DataLaws.OnlyDestinationChanges | arm_data_processing.c:69-76 | no slot but the destination, the CPSR and, for a pc write with S set, the SPSR can change |
| DataLaws.PcWriteWithStatus | arm_data_processing.c:70-74 | a pc write with S set stores the CPSR in the SPSR; it restores the CPSR only if the two were equal |
| Countdown.CountdownTerminates | arm_data_processing.c:46-48 | SUBS Rd,Rd,#1 repeated while NE holds stops after exactly n repeats, 2^32 from 0, with Rd at 0 |
| Countdown.CountdownLost | registers.c:164-180 | in r8 to r12 of FIQ, where writes are lost, the loop never changes the register and stops after one round if it holds 1, else never |
| Example1.ImageIsLoaded | Examples/example1.s:3-11 | the program's bytes, at any word boundary of any memory, are a memory the next two results speak of |
| Example1.LoopTerminates | Examples/example1.s:3-11 | the loop of the example, fetched and executed from memory, first reaches its end after exactly four steps a round |
| Example1.Example1Terminates | Examples/example1.s:7-13 | the example reaches its end in 21 steps from its first instruction, with r0 at 0 and memory unchanged |

## Left out

- Instruction.ArmStep: asks that the fetched word be data processing or a branch, because loads and stores, load/store multiple and coprocessor transfers are not modelled.
- ArmCore.Core.Fetch: asks that the word at the pc lie inside the memory; beyond it the source goes on to decode a variable that was never set.
- Memory accesses whose first byte is in range and whose last is not: the source tests the first byte only and leaves the buffer.
- The little-endian branches of memory: the build selects big-endian, and those branches index host-order words.
- Example1.LoopTerminates: the program is taken as its five instruction words at consecutive addresses; assembler and linker are not modelled, nor the final `swi`.
- The macro `set_bits`, which no file uses.
- Software interrupts, exceptions other than reset, allocation failure, destruction, host endianness, tracing, printing, the gdb server, sockets and the build files.
- The initial contents of the registers and of the memory: every statement holds for any.
