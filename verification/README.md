# A verified model of an ARM simulator and its gdb server

The simulator executes ARM instructions on a banked register file and a byte memory, and is driven
by gdb over the remote serial protocol. This project models it in Dafny and proves what its parts
promise. The standard it implements is the ARM Architecture Reference Manual (ARM DDI 0100);
section numbers below are that manual's.

The project has two layers that meet in every method:

* **The machine as a value.** `Machine.State` holds the 31 physical registers, the five SPSRs, the
  CPSR, the mode, the memory, the cycle count and the byte order. Each instruction, exception and
  gdb request is a function on that value, and the laws are lemmas about those functions.
* **The machine in place.** Classes `Memory`, `Registers`, `ArmCore` and `GdbProtocol` have the
  fields of the source's structures and update them in place, with the source's loops and the
  source's order of writes. `ArmCore` carries the value of its fields as a ghost, and every method
  that changes it says that the new value is the specified function of the old one, so that a
  missing write, two writes in the wrong order or an access in the wrong bank fails to verify.

| file | what it is |
|---|---|
| `Words.dfy` | 32-bit words: the bit macros, shifts and rotations, tied to integer arithmetic |
| `Mem.dfy` | byte memory in two byte orders |
| `Reg.dfy` | the banked register file |
| `Machine.dfy`, `Core.dfy` | the state as a value, and the processor object |
| `Exceptions.dfy` | exception entry and reset |
| `Shifter.dfy` | the barrel shifter and the second shifter of load/store addressing |
| `DataProcessing.dfy` | the sixteen data-processing operations and their flags |
| `StatusWrites.dfy` | immediate writes of CPSR and SPSR |
| `BlockTransfer.dfy`, `LoadStore.dfy` | multiple and single loads and stores |
| `Branch.dfy`, `Instruction.dfy` | branches, conditions, decoding, the step, runs |
| `Steps.dfy` | conditions, fetch and the exceptions that a step raises |
| `Operations.dfy` | what the data-processing operations compute, in numbers and bits |
| `Transfers.dfy` | what single loads and stores do, from the encoding to the bytes |
| `Programs.dfy` | laws about executed instructions: comparisons, branches, calls and returns, status registers, pushes and pops |
| `Text.dfy`, `Breakpoints.dfy`, `Gdb.dfy` | the gdb protocol: texts, breakpoint set, server |
| `Wire.dfy`, `Requests.dfy` | the characters on the wire, and requests as runs of the machine |

The main results:

* **Block transfers.** Each listed word goes to or comes from start + 4 * (number of listed registers
  below it) modulo 2^32, the pc included; a word that memory has no place for changes no byte when it
  is stored, and when it is loaded the register gets what the one before it in the list was given. No
  byte outside the block changes, and no unlisted register or hidden bank but by write-back. Write-back
  leaves the base it should, and the other registers alone, under conditions that are proved exact. A
  store multiple followed by a load multiple gives a listed register its value back, in the same
  addressing mode or as a push and a pop, if its place is in memory and base, mode and the word there
  are the same; this holds from fetch to write-back, for two executed steps. The end address the source
  asserts is right if and only if the form is not increment-after or the base happens to equal the
  register's number.
* **The shifter.** The overlapping tests of `carry` give the operand and carry of section A5.1 for
  all amounts, and the second implementation in load/store addressing gives the same index. For a
  rotation by a register, which `carry` does not dispatch, the result is right for all operands if
  and only if the low byte of the amount is zero.
* **Banks, mode and exceptions.** Reading after writing distinguishes exactly the registers the
  architecture distinguishes; in every state reached from `arm_create` by any steps, interrupts and
  gdb writes, the mode in use is the one CPSR[4:0] names; and exception entry changes exactly what
  it should, in the bank of the interrupted mode.
* **Instructions in numbers.** From the fetched word to the new state, each kind of instruction has a
  law that names none of the functions that execute it: the sixteen conditions on the CPSR as a
  number, the sixteen operations as sums, differences and bits with the flags they leave, addresses
  and bytes of single transfers, targets of branches, status registers, the five exception entries,
  and what is undefined, refused or ends the simulation. Everything else of the machine is kept.
* **Programs.** The unsigned conditions after a step of `cmp` or `cmn` mean the comparison; a call and
  any later return in the same mode, with the link register untouched, come back to the next
  instruction.
* **The gdb server.** Packets, dumps, escaped bytes and answers are pinned to their characters, and
  requests are runs of the events that the invariants cover. The breakpoint table stays sorted and answers any sequence of requests as a
  set would; a packet that was built is dispatched on exactly its payload and any corrupted payload
  byte is noticed; a register dump restores the registers
  after any change that keeps the mode; an escaped binary write reads back as
  the bytes there was room for; `cont` stops after the first step that has a reason to.

## Where the code differs from the manual

The model follows the code. The differences that the results above meet are stated as exact
conditions or by functions that show them:

* Increment-after write-back moves to another register number and leaves the base
  (`BlockTransfer.BaseRegister`; the exact condition is `WriteBackIsRight`), and its end address uses
  the register's number (`EndIsLastWord`). `WriteBackFails` and `AssertFails` show both at an
  instruction. The register picked instead is lost (`AnotherRegisterLost`; exactly when is
  `WriteBackKeepsOthers`).
* A store multiple never stores r15; a load multiple gives a register its previous loaded word when
  memory rejects the read.
* A rotation by a register falls into the left shift by a register (`RotationByRegister`;
  `RotationFails` at an instruction).
* LR and SPSR of an exception are those of the interrupted mode (`Exceptions.EntryEffect`; the exact
  condition under which the handler finds them is `HandlerFindsReturn`, a machine where it does not is
  in `HandlerMissesReturn`).
* An immediate write of the CPSR masks the old status with a logical `!`, so that every accepted one
  leaves 0 or 1, no mode, and a data abort with nothing to return to (`StatusWrites.MsrLosesMode`,
  `Programs.CpsrWriteStep`).
* V is set only when a negative first operand gives a result that is not, or for a sum the other way
  round. `Programs.SignedLess` is the exact condition under which LT after `cmp` is the signed
  comparison.
* The destination is taken for the pc when its value equals the pc's (`DataProcessing.TakenForPc`).
* Post-indexed loads and stores access the updated address (`LoadStore.PostIndexedAccess`).
* `teq` writes its destination, and its N and Z are those of its own success (`Operations.TestEqualStep`).
* A failed condition is reported as an interrupt, and so is a software interrupt instruction; what
  reaches the software interrupt of the simulator is a part of the media space (`Steps.ConditionFails`,
  `SoftwareInterruptStep`, `MediaStep`). `strh` with pre-indexing downwards and [22] clear is taken for a
  branch by register.
* Subtraction sets the carry to the borrow; the condition LS and the carry-in of `adc`, `sbc` and `rsc` are as in the code.

## Model

| member | source | states |
|---|---|---|
| Words.GetBitMacro | util.h:30 | the bit macro, shift and mask, is the parity of the quotient by 2^i |
| Words.GetBitsMacro | util.h:34 | the field macro with its double complement is the field [h:l] as a number |
| Words.SetBit | util.h:31 | adds 2^i exactly when the bit was clear |
| Words.ClrBit | util.h:32 | subtracts 2^i exactly when the bit was set |
| Words.SetBits | util.h:35-36 | replaces the field [h:l] and keeps what is above and below it |
| Words.Asr | util.c:26-28 | the shift with sign fill is floor division of the signed value by 2^s, modulo 2^32 |
| Words.Ror | util.c:30-32 | rotation puts the low part above the high part; by zero it is the identity |
| Mem.BytesFromLastWriter | memory.c:93-132 | after any sequence of byte, half-word and word writes, each byte is the one its last accepted writer put there, or the initial one |
| Mem.WordReadBack | memory.c:78-132 | reading a written word in the same byte order gives it back, in the other order reverse_4 of it |
| Mem.HalfReadBack | memory.c:65-114 | the same for half-words |
| Mem.Reverse4 | util.h:39-40 | the shifts, masks and ors reverse the four bytes |
| Mem.LoadsNumber | memory.c:57-91 | the value of a byte, half-word or word in either order as a number of its bytes, and when it is rejected |
| Mem.StoresNumber | memory.c:93-132 | byte k of memory after a write of any width and order, for every k |
| Mem.Memory.ReadByte | memory.c:57-63 | in-place array read equals the read of the contents, rejected exactly out of bounds |
| Mem.Memory.ReadHalf | memory.c:65-76 | the same for half-words in either byte order |
| Mem.Memory.ReadWord | memory.c:78-91 | the same for words, with the bound `capacity - 3` |
| Mem.Memory.WriteByte | memory.c:93-99 | the new contents are one accepted or wholly rejected write |
| Mem.Memory.WriteHalf | memory.c:101-114 | the same for half-words |
| Mem.Memory.WriteWord | memory.c:116-132 | the same for words: all four bytes in place, all others kept |
| Reg.PhysicalIsArchitectural | registers.c:68-100 | two register names in valid modes are the same physical register exactly when section A2.4 says so |
| Reg.ReadAfterWrite | registers.c:68-171 | a read after a write sees the new value exactly for names of the same register, the old one otherwise |
| Reg.EveryPhysicalHasAName | registers.c:68-100 | none of the 31 physical registers is unreachable |
| Reg.ModesInNumbers | registers.c:173-186 | the seven modes |
| Reg.SpsrBankIsOwn | registers.c:109-129 | exactly the five exception modes have an SPSR, each its own |
| Reg.Unnamed | registers.c:76-171 | a number that names no register reads as all ones and writing it changes nothing |
| Reg.ModeOf | registers.c:173-186 | the mode is CPSR[4:0] when these bits name one, and 0xFF otherwise |
| Reg.Registers.HasSpsr | registers.c:40-55 | true exactly in the modes that own an SPSR bank |
| Reg.Registers.Read | registers.c:68-100 | the nested tables hold the banked file that the functions describe |
| Reg.Registers.Write | registers.c:132-171 | exactly the named physical register changes, none in an unknown mode |
| Reg.Registers.ReadSpsr | registers.c:109-129 | the SPSR of the mode's bank, or all ones in a mode without one |
| Reg.Registers.WriteSpsr | registers.c:197-219 | exactly that bank changes |
| Reg.Registers.WriteCpsr | registers.c:188-194 | the mode is updated with the CPSR |
| Machine.ClearBit1 | arm_core.c:92-93 | the mask on the pc clears bit 1 and no other |
| Machine.PcReadIsMasked | arm_core.c:91-94 | what the pc reads as, with the mask of the source |
| Core.ArmCore.RawRead | registers.c:35-37 | reads in the current mode, without the pc adjustment |
| Core.ArmCore.ReadRegister | arm_core.c:84-101 | reads in the current mode; the pc reads four ahead |
| Core.ArmCore.WriteRegister | arm_core.c:120-127 | one banked register of the current mode changes, nothing else in the machine |
| Core.ArmCore.ReadCpsr | arm_core.c:107-111 | the CPSR |
| Core.ArmCore.WriteCpsr | arm_core.c:133-136 | CPSR and mode change together, nothing else |
| Core.ArmCore.CurrentModeHasSpsr | arm_core.c:72-74 | whether the current mode owns an SPSR |
| Core.ArmCore.InAPrivilegedMode | arm_core.c:76-78 | any mode but User and System, also when no mode is named |
| Core.ArmCore.MemorySize | memory.c:43-48 | the size of memory |
| Core.ArmCore.ReadSpsr | arm_core.c:113-118 | the SPSR of the current mode |
| Core.ArmCore.WriteSpsr | arm_core.c:138-141 | one SPSR bank changes, none in a mode without one |
| Core.ArmCore.ReadByte | arm_core.c:143-149 | a byte of memory, or a rejected read |
| Core.ArmCore.ReadHalf | arm_core.c:151-157 | a half-word in the machine's byte order, or a rejected read |
| Core.ArmCore.ReadWord | arm_core.c:159-165 | a word in the machine's byte order, or a rejected read |
| Core.ArmCore.WriteByte | arm_core.c:185-191 | only memory changes, by one write |
| Core.ArmCore.WriteHalf | arm_core.c:193-199 | only memory changes, by one write |
| Core.ArmCore.WriteWord | arm_core.c:201-207 | only memory changes, by one write |
| Core.ArmCore.Fetch | arm_core.c:167-183 | returns the word at the old pc, moves the pc by four modulo 2^32 and counts the cycle, also when the read is rejected |
| Exceptions.EntryEffect | arm_exception.c:70-168 | the five entries in numbers, for any prior state: mode, vector, return address, T, I, A, E and F, CPSR[31:10] kept; and of all registers, SPSRs, memory and cycles only LR and SPSR of the interrupted mode change |
| Exceptions.OtherExceptions | arm_exception.c:46-67 | reset leaves CPSR 0x1d3 in mode 0x13 with pc 0; a software interrupt ends the simulation, is answered, or is passed on by its 24-bit number; nothing else changes anything |
| Exceptions.CreatedMachine | arm_core.c:50-66 | the created machine in numbers: 0x1d3, mode 0x13, pc 0, no cycles, sp at the size of memory, all else as given |
| Exceptions.HandlerFindsReturn | arm_exception.c:99-168 | the handler finds return address and status in its own banks if and only if its mode is the interrupted one, or those banks held both already |
| Exceptions.HandlerMissesReturn | arm_exception.c:139-146 | in a concrete machine in Supervisor mode the return address is in that mode's bank and the handler finds another value |
| Exceptions.EntryCpsrBits | arm_exception.c:99-118 | the entry CPSR, bit by bit |
| Exceptions.ReplaceMode | arm_exception.c:102-103 | clearing and or-ing the five mode bits replaces them and keeps the rest |
| Exceptions.BitAt | arm_exception.c:104-117 | set_bit and clr_bit on the CPSR change the one control bit |
| Exceptions.SetExceptionCpsr | arm_exception.c:99-118 | the sequence of writes saves the old CPSR in the interrupted mode's SPSR and leaves the entry CPSR |
| Exceptions.DataAbort | arm_exception.c:121-128 | LR, then status, then pc make the specified entry |
| Exceptions.Interrupt | arm_exception.c:130-137 | the same for an interrupt |
| Exceptions.UndefinedInstruction | arm_exception.c:139-146 | the same for an undefined instruction |
| Exceptions.FetchAbort | arm_exception.c:149-158 | the same for a prefetch abort |
| Exceptions.FastInterruptRequest | arm_exception.c:160-168 | the same for a fast interrupt, with F set |
| Exceptions.ArmException | arm_exception.c:38-96 | the dispatch enters exactly one handler, resets, ends the simulation, or changes nothing |
| Exceptions.ArmCreate | arm_core.c:50-66 | the new machine is the reset of what it was given, with sp at the memory size |
| Shifter.ShiftedIsArithmetic | arm_data_processing_functions.c:9-171 | the shifts of section A5.1 are multiplication, division, floor division of the signed value, and for rotations by any amount exchange of quotient and remainder, with the last bit out as carry |
| Shifter.OperandInNumbers | arm_data_processing_functions.c:174-233 | the shifter operand and carry on the digits of the instruction, for every kind and amount including zero |
| Shifter.LogicalShiftLeftByImmediate | arm_data_processing_functions.c:94-105 | the A5.1 operand and carry |
| Shifter.LogicalShiftLeftByRegister | arm_data_processing_functions.c:108-131 | the A5.1 operand and carry for amounts 0 to 255 |
| Shifter.LogicalShiftRightByImmediate | arm_data_processing_functions.c:134-147 | the A5.1 operand and carry, amount zero standing for 32 |
| Shifter.LogicalShiftRightByRegister | arm_data_processing_functions.c:151-171 | the A5.1 operand and carry for amounts 0 to 255 |
| Shifter.ArithmeticShiftRightByImmediate | arm_data_processing_functions.c:9-22 | the A5.1 operand and carry, amount zero standing for 32 |
| Shifter.ArithmeticShiftRightByRegister | arm_data_processing_functions.c:25-41 | the A5.1 operand and carry for amounts 0 to 255 |
| Shifter.RotateRightByImmediate | arm_data_processing_functions.c:44-51 | the A5.1 operand and carry, amount zero standing for RRX |
| Shifter.RotateRightWithExtend | arm_data_processing_functions.c:71-76 | a 33-bit rotation by one through the carry |
| Shifter.Immediate | arm_data_processing_functions.c:80-90 | the rotated immediate of A5.1 with its carry |
| Shifter.CarryByFields | arm_data_processing_functions.c:206-229 | the overlapping tests on [6:4], [7:4] and [11:4], with later ones overwriting earlier ones, pick the shift of the kind in [6:5], except a rotation by a register |
| Shifter.RotationByRegister | arm_data_processing_functions.c:174-233 | with [7:4] = 7 it does so for every operand if and only if Rs[7:0] is zero |
| Shifter.RotationFails | arm_data_processing_functions.c:207-210 | `mov r0, r1, ror r2` with 2^31 and 1 gives 0 instead of 2^30 |
| Shifter.ScaledIndexIsShift | load_store_addressing_operations.c:22-57 | the second implementation gives the operand of the first for the same type, amount, Rm and C |
| DataProcessing.NzcMasks | arm_data_processing_functions.c:237-243 | masks and shifts replace N, Z and C and keep CPSR[28:0] |
| DataProcessing.VMasks | arm_data_processing.c:68-85 | mask and shift replace V and keep every other bit |
| DataProcessing.Carry | arm_data_processing_functions.c:174-233 | on the machine, for every data-processing encoding but [7:4] = 7 and for all register values, `carry` gives the shifter operand and carry of section A5.1; and for all encodings those of the tests that come last |
| DataProcessing.WriteResult | arm_data_processing.c:34-49 | the tail all operations share: write-back, then flags, or the saved status when the destination reads as the pc |
| DataProcessing.TakenForPc | arm_data_processing.c:37-47 | an operation with another destination than the pc restores the SPSR, or is undefined without one, if and only if its result is what the pc reads as; otherwise it sets the flags |
| DataProcessing.AddWithCarry | arm_data_processing.c:127-134 | two additions in sequence, the second on what the first wrote |
| DataProcessing.Arithmetic | arm_data_processing.c:68-172 | sub, rsb, add, adc, sbc and rsc as functions of the old state |
| DataProcessing.Compare | arm_data_processing.c:176-208 | tst, teq, cmp and cmn as functions of the old state |
| DataProcessing.Dispatch | arm_data_processing.c:282-317 | the operation code chooses the operation |
| DataProcessing.ArmDataProcessingShift | arm_data_processing.c:269-319 | the whole instruction on the machine: operand read before any write |
| BlockTransfer.CountSetBits | arm_load_store.c:207-214 | the loop counts the registers of the list |
| BlockTransfer.WriteBackIsRight | arm_load_store.c:216-250 | write-back leaves the base of section A5.4 if and only if the form is not increment-after or the list is empty |
| BlockTransfer.WriteBackFails | arm_load_store.c:218-226 | `ldmia r0!, {r1}` leaves r0 where it was, in every state |
| BlockTransfer.WriteBackKeepsOthers | arm_load_store.c:216-250 | write-back leaves every register but the base alone if and only if the form is not increment-after with write-back, the list is empty, or the register it picks does not exist or holds the base |
| BlockTransfer.AnotherRegisterLost | arm_load_store.c:219-226 | after `ldmia r0!, {r1}` r4 holds what r0 holds |
| BlockTransfer.StartEndAddress | arm_load_store.c:216-250 | start, end and the written-back register for each of the four modes |
| BlockTransfer.FormInNumbers | arm_load_store.c:256-263 | the fields of the instruction as its digits |
| BlockTransfer.ModesInNumbers | arm_load_store.c:216-250 | the place of every register and the end address in the four modes, from base, count and register number |
| BlockTransfer.WriteBackInNumbers | arm_load_store.c:216-250 | the register and the value of write-back in the four modes |
| BlockTransfer.StoreMultipleEffect | arm_load_store.c:266-277 | for any block, also one that memory ends in or that wraps: each listed register whose place start + 4 * (listed below it), modulo 2^32, is in memory stands there; one whose place is not changes no byte; every byte outside the block is kept; no register changes but by write-back |
| BlockTransfer.LoadTransfer | arm_load_store.c:278-296 | for any block, after the whole instruction each listed register, the pc included, has the word at that place (the pc without bit 0), or what the register before it in the list was given when memory has no word there; all others keep what write-back left, and nothing but registers changed |
| BlockTransfer.LoadTransferFrame | arm_load_store.c:278-296 | no hidden bank changes |
| BlockTransfer.EndIsLastWord | arm_load_store.c:289-294 | the assert on the end address fails if and only if the form is increment-after and the base differs from the register's number |
| BlockTransfer.AssertFails | arm_load_store.c:289-294 | `ldmia r0, {r1, pc}` fails its assert if and only if r0 is not zero |
| BlockTransfer.StoreThenLoad | arm_load_store.c:254-299 | store then load in the same mode without write-back restores every listed register whose place is in memory, if base, mode and the word there are the same |
| BlockTransfer.PushThenPop | arm_load_store.c:254-299 | decrement-before with write-back, then increment-after, restores every such register, and the base moves down by four per listed register |
| BlockTransfer.TransferThenBack | arm_load_store.c:254-299 | the first round trip for whole instructions, also when the list has the pc |
| BlockTransfer.PushThenPopTransfers | arm_load_store.c:254-299 | the second round trip for whole instructions |
| BlockTransfer.Stm | arm_load_store.c:268-276 | the storing loop, with mask, address and memory moving together |
| BlockTransfer.Ldm | arm_load_store.c:280-288 | the loading loop, also when reads are rejected |
| BlockTransfer.LdmPc | arm_load_store.c:289-293 | the pc is loaded with bit 0 cleared |
| BlockTransfer.ArmLoadStoreMultiple | arm_load_store.c:254-299 | the whole instruction on the machine |
| LoadStore.RegisterOffsetIsShift | load_store_memory_operations.c:9-36 | every register form gets the A5.2 index, and encodings with [11:4] = 0 get the same on either of the two paths they satisfy |
| LoadStore.StoreThenLoad | load_store_memory_operations.c:40-66 | a refused store changes nothing; otherwise a load from the same address gives any register the stored word or byte, and only the bytes of the access change |
| LoadStore.StoreThenLoadHalf | load_store_memory_operations.c:69-83 | the same for half-words |
| LoadStore.ReadOffset | load_store_memory_operations.c:9-30 | the first of the three overlapping tests that holds chooses the offset |
| LoadStore.HandleMemoryOperation | load_store_memory_operations.c:9-36 | offset, base write-back, then access, as one function of the old state |
| LoadStore.PostIndexedAccess | load_store_memory_operations.c:30-35 | a post-indexed form writes base plus or minus offset, modulo 2^32, to the base and accesses that address, which is the base's if and only if the offset is zero |
| LoadStore.ProcessMemoryAccess | load_store_memory_operations.c:40-66 | a word or byte moves between register and memory, or the access is refused and nothing changes |
| LoadStore.ProcessMemoryAccessHalf | load_store_memory_operations.c:69-83 | the same for half-words |
| LoadStore.HandleLdrhStrh | arm_load_store.c:118-139 | half-word addressing with the split immediate |
| LoadStore.ArmLoadStore | arm_load_store.c:43-54 | the dispatch on the instruction's top bits |
| Branch.OffsetInBytes | arm_branch_other.c:39-43 | sign extension to 30 bits and a shift by two give four times the signed 24-bit offset modulo 2^32 |
| Branch.BranchWithOffset | arm_branch_other.c:31-49 | LR and pc after B and BL |
| Branch.BranchExchange | arm_branch_other.c:51-67 | BX and BLX read the target before writing LR |
| Branch.ArmBranch | arm_branch_other.c:29-72 | the dispatch of the branches |
| Branch.ArmMiscellaneous | arm_branch_other.c:81-99 | MRS writes CPSR or SPSR to a register, or is undefined |
| StatusWrites.FieldMask | arm_data_processing.c:353-365 | the four tests of the one bit give all ones or nothing |
| StatusWrites.ArmDataProcessingImmediateMsr | arm_data_processing.c:324-397 | rotation, masks and merges leave in the CPSR bit 0 of the old one or nothing, and in the SPSR bit 0 of the old one or bits 5 and 3 to 0 of the operand, which is the low byte moved down; refused exactly with bit 5 in a privileged mode, or without an SPSR |
| StatusWrites.MsrLosesMode | arm_data_processing.c:366-384 | every accepted write of the CPSR leaves 0 or 1 in it and no mode |
| StatusWrites.SpsrIsMasked | arm_data_processing.c:385-396 | an accepted write of the SPSR with the source's masks |
| Instruction.ArmExecuteInstruction | arm_instruction.c:98-182 | fetch, condition and decoding on the machine |
| Instruction.ArmStep | arm_instruction.c:184-192 | a whole step with its exception entry is the transition function of the runs |
| Instruction.StepAgrees | arm_instruction.c:98-192 | no instruction and no exception separates the mode from CPSR[4:0] |
| Instruction.RunAgrees | arm_instruction.c:184-192 | nor does any run of steps, interrupts and gdb writes |
| Instruction.ModeFollowsCpsr | registers.c:173-194 | in every state of every run from arm_create, the mode is the one CPSR[4:0] names, or 0xFF |
| Steps.Conditions | arm_instruction.c:51-94 | the sixteen conditions on the CPSR as a number; 14 and 15 always hold |
| Steps.AlwaysExecutes | arm_instruction.c:89-92 | a fetched instruction whose top digit is 14 or 15 is executed in every state |
| Steps.ConditionFails | arm_instruction.c:175-177 | otherwise, when its condition fails, nothing is executed and an interrupt is entered at 0x18 |
| Steps.FetchEffect | arm_core.c:167-183 | the fetch adds four to the pc and one to the cycles, modulo 2^32, and changes nothing else |
| Steps.FetchFails | arm_instruction.c:179-181 | a rejected fetch enters the prefetch abort at 0x0C |
| Steps.UndefinedStep | arm_instruction.c:104-172 | the encodings that are undefined in every state enter at 0x04 with nothing executed |
| Steps.SoftwareInterruptStep | arm_instruction.c:165-173 | a software interrupt instruction enters an interrupt |
| Steps.MediaStep | arm_exception.c:46-61 | the media instructions that reach the software interrupt end the simulation by their low 24 bits, or do nothing |
| Operations.ResultComputes | arm_data_processing.c:34-264 | the result of each of the sixteen operations as a number of its operands, the logical ones bit by bit |
| Operations.UnflaggedStep | arm_data_processing.c:269-319 | a step without S writes that result to its register, adds four to the pc and one to the cycles, and keeps every other physical register, every status register and memory |
| Operations.FlaggedStep | arm_data_processing.c:34-264 | a step with S also sets N, Z, C and V as said in numbers and keeps CPSR[27:0], unless the result is what the pc reads as |
| Operations.TestStep | arm_data_processing.c:176-208 | tst, cmp and cmn set all four flags as said in numbers and write no register |
| Operations.TestEqualStep | arm_data_processing.c:183-187 | teq writes the exclusive or and always leaves N clear and Z set |
| Operations.OperationFields | arm_data_processing.c:271-281 | operation, S and registers as digits of the instruction |
| Operations.DecodingFields | arm_instruction.c:102-108 | the fields that decoding looks at as digits of the instruction |
| Operations.SecondOperandInNumbers | arm_data_processing_functions.c:174-233 | the second operand of an executed instruction, from its digits, the registers after the fetch and bit 29 of the CPSR |
| Transfers.OffsetInNumbers | load_store_memory_operations.c:9-30 | the offset of a word or byte transfer: twelve bits, or a register shifted by the field [11:7] |
| Transfers.LoadStep | load_store_memory_operations.c:9-66 | a step of a load: the number that the bytes at base plus or minus offset make goes to the register, the base is written in the indexed forms, a refused one gives 255 and no value; all other registers and memory are kept |
| Transfers.StoreStep | load_store_memory_operations.c:9-66 | a step of a store: every byte of memory, with the register's bytes at that address, and the base as before |
| Transfers.HalfLoadStep | arm_load_store.c:69-139 | the same for a half-word load with the split immediate |
| Transfers.HalfStoreStep | arm_load_store.c:69-139 | the same for a half-word store |
| Transfers.HalfOffsetInNumbers | arm_load_store.c:69-88 | the offset of any half-word encoding |
| Programs.AfterCompare | arm_data_processing.c:190-197 | after cmp, EQ holds if and only if the operands are equal, CS if and only if the first is below the second unsigned, CC if and only if not; CPSR[27:0], mode and registers are kept |
| Programs.AfterCompareNegative | arm_data_processing.c:200-208 | after cmn, CS holds if and only if the sum reaches 2^32, EQ if and only if it is zero in 32 bits |
| Programs.CompareStep | arm_instruction.c:98-192 | the same for a whole step, from fetch to flags |
| Programs.SignedLess | arm_data_processing.c:190-197 | after cmp, LT holds exactly for the signed comparison if and only if the first of two negative operands is below the second whenever both are negative, and taking a negative from another operand leaves no negative result |
| Programs.CompareNegativeStep | arm_instruction.c:98-192 | the whole step of cmn |
| Programs.Call | arm_branch_other.c:31-49 | a step of BL at a 4-aligned a goes to a + 8 + 4 * (the low 24 bits, less 2^24 when bit 23 is set) modulo 2^32, leaves a + 4 in LR and counts one cycle; no other physical register, no status and no memory changes |
| Programs.BranchStep | arm_branch_other.c:31-49 | a step of B does the same without LR |
| Programs.ExchangeStep | arm_branch_other.c:51-67 | a step of BX or BLX goes to the register without bit 0, as it was before LR was written; LR is a + 4 or kept |
| Programs.StatusReadStep | arm_branch_other.c:81-99 | a step of MRS writes the CPSR or the mode's SPSR to its register and nothing else |
| Programs.NoStatusStep | arm_branch_other.c:81-99 | an MRS of an SPSR that does not exist is undefined |
| Programs.Return | arm_branch_other.c:51-59 | a step of BX LR goes to LR with bit 0 cleared, in the same mode |
| Programs.CallThenReturn | arm_branch_other.c:29-72 | any later return in the same mode with LR untouched comes back to a + 4 |
| Programs.PushThenPopSteps | arm_instruction.c:155-156 | two steps, a push and a later pop, restore every listed register whose place is in memory and whose word there is the same |
| Programs.TransferThenBackSteps | arm_instruction.c:155-156 | the same for a store and a load multiple in one of the four modes without write-back |
| Programs.CpsrWriteStep | arm_data_processing.c:366-384 | a step of an MSR of the CPSR that is not refused ends in the abort handler with CPSR 0x197 and with every link register and every SPSR unchanged |
| Programs.RefusedStep | arm_data_processing.c:366-396 | it is undefined exactly with bit 5 of its operand in a mode other than User and System, or for an SPSR that does not exist |
| Programs.SpsrWriteStep | arm_data_processing.c:385-396 | a step of an MSR of the SPSR ends in the abort handler, whose saving of the status replaces what was written |
| Text.HexReadBack | gdb_protocol.c:138-146 | a number printed in n digits is read back, whatever follows it |
| Text.FrameIsDispatched | gdb_protocol.c:112-128 | the packet of any payload is accepted and dispatched on its first byte with exactly the rest |
| Text.CorruptionIsDetected | gdb_protocol.c:481-494 | any change of one payload byte makes the analysis ask for retransmission |
| Text.UnescapeEscaped | gdb_protocol.c:367-379 | decoding an escaped byte string gives the bytes |
| Text.DumpThenRestore | gdb_protocol.c:232-256 | a dump, any change that keeps the mode, and a restore bring back r0 to r15, the CPSR and the mode, and change nothing else |
| Text.RestoreTouchesNoHiddenBank | gdb_protocol.c:321-349 | banks of other modes keep their content, whatever the data |
| Text.StoreBytesAt | gdb_protocol.c:367-379 | every byte of memory after the writing loop: exactly the bytes there is room for are written, at consecutive addresses, and it succeeds if and only if that is all |
| Text.WriteThenRead | gdb_protocol.c:258-275 | an escaped write of any bytes followed by a read of the range answers the hexadecimal text of exactly those there was room for, all of them if and only if the write succeeded |
| Wire.Answers | gdb_protocol.c:40-41 | the fixed texts and the two limits |
| Wire.StopReasons | gdb_protocol.c:152-171 | the stop answers as their characters |
| Wire.Handlers | gdb_protocol.c:447-469 | the requests that have a handler as their letters |
| Wire.PrintedDigit | gdb_protocol.c:144-146 | each printed digit, in lower case |
| Wire.ReadDigit | gdb_protocol.c:138-142 | digits are read in either case, and nothing else is one |
| Wire.NumberOnTheWire | gdb_protocol.c:138-142 | a number is read from the digits in front, at most eight; without any the variable keeps what it held |
| Wire.ChecksumIsSum | gdb_protocol.c:118-121 | the checksum is the sum of the bytes modulo 256 |
| Wire.FrameOnTheWire | gdb_protocol.c:112-128 | a packet is a dollar sign, the payload, a hash sign and two digits of that sum |
| Wire.AnalysisOnTheWire | gdb_protocol.c:475-505 | any packet with two digits is asked for again exactly when they are not that sum, and otherwise goes to the handler of its first letter with the rest |
| Wire.UnescapeFirst | gdb_protocol.c:371-376 | the byte after a `}` is read with bit 5 the other way round, any other as it is |
| Wire.EncodedIsDecoded | gdb_protocol.c:367-379 | any text that encodes bytes in this sense is decoded to them, whatever follows |
| Wire.EscapedEncodes | gdb_protocol.c:371-376 | every byte string has such an encoding without `#` and `$` |
| Wire.BinaryWrite | gdb_protocol.c:360-386 | the effect of `X` on every byte of memory for any content that encodes the bytes |
| Wire.DumpOnTheWire | gdb_protocol.c:232-256 | the layout of a dump |
| Wire.MemoryOnTheWire | gdb_protocol.c:258-275 | the two digits of each byte in the answer to `m`, and how many there are |
| Wire.StopsWhen | gdb_protocol.c:188-199 | a run stops at a breakpoint at the pc or when something is reported |
| Wire.FullTable | gdb_protocol.c:78-106 | the answers of the reference machine, with 1024 addresses at most |
| Breakpoints.SortedSize | gdb_protocol.c:78-92 | a sorted table has as many addresses as entries, so the full table is the full set |
| Breakpoints.SortedUnique | gdb_protocol.c:60-106 | a set of addresses has one sorted table only |
| Breakpoints.InsertKeepsOrder | gdb_protocol.c:83-88 | inserting at the found place keeps the table strictly sorted |
| Breakpoints.InsertAddsAddress | gdb_protocol.c:83-88 | and adds exactly the address |
| Breakpoints.DeleteKeeps | gdb_protocol.c:94-106 | deleting an entry keeps the order and removes exactly its address |
| Gdb.GdbProtocol.FindBreakpoint | gdb_protocol.c:60-76 | the binary search terminates and finds the address if and only if it is in the set |
| Gdb.GdbProtocol.AddBreakpoint | gdb_protocol.c:78-92 | the answer and the new set are the reference machine's; a full table refuses |
| Gdb.GdbProtocol.InsertSorted | gdb_protocol.c:83-88 | the shifting loop inserts the address |
| Gdb.GdbProtocol.RemoveBreakpoint | gdb_protocol.c:94-106 | the answer and the new set are the reference machine's |
| Gdb.GdbProtocol.ServeAll | gdb_protocol.c:60-106 | any sequence of requests gives the answers and the set of a machine on sets, from any sorted table |
| Gdb.GdbProtocol.SendBuffer | gdb_protocol.c:112-128 | the buffer's string goes out as one packet with its checksum |
| Gdb.GdbProtocol.SendData | gdb_protocol.c:130-133 | the same for a given text |
| Gdb.GdbProtocol.PacketAnalysis | gdb_protocol.c:475-505 | checksum loop, acknowledgement and choice of the handler; machine and breakpoints are untouched |
| Gdb.GdbProtocol.SendStopReason | gdb_protocol.c:152-171 | the text for the last exception |
| Gdb.GdbProtocol.StepAndTest | gdb_protocol.c:188-199 | one turn of the loop of cont |
| Gdb.GdbProtocol.Cont | gdb_protocol.c:185-201 | it returns after the first step that leaves the pc on a breakpoint or reports something, every earlier step did neither, and the answer names the reason |
| Gdb.GdbProtocol.ReadGeneralRegisters | gdb_protocol.c:232-256 | the answer to `g` is the dump of the machine |
| Gdb.GdbProtocol.RestoreRegisters | gdb_protocol.c:326-330 | the loop writes r0 to r15 of the current mode from the fixed offsets |
| Gdb.GdbProtocol.WriteGeneralRegisters | gdb_protocol.c:321-349 | `G` leaves the restored machine, registers before CPSR |
| Gdb.GdbProtocol.ReadMemory | gdb_protocol.c:258-275 | the answer to `m` is the text of the bytes up to the end of memory, or the fault |
| Gdb.GdbProtocol.WriteMemoryBinary | gdb_protocol.c:360-386 | `X` stores the decoded bytes up to the first rejected one and answers accordingly |
| Gdb.SteppedIsStep | gdb_protocol.c:174-177 | the step in the statement of `cont` is the step of the instruction set |
| Requests.RestoreIsRun | gdb_protocol.c:321-349 | `G` is a run of sixteen register writes and one of the CPSR, to which the invariant applies |
| Requests.StoreIsRun | gdb_protocol.c:360-386 | `X` is a run of byte writes |
| Requests.AfterIsRun | gdb_protocol.c:185-201 | `cont` is a run of steps |
| Requests.InterruptIsEvent | arm_simulator.c:103 | an interrupt sent to the simulator enters at 0x18 |

## Left out

- Sockets, threads and their lock, option parsing and the simulator's main loop: input and output.
  Everything the server sends is appended to `wire`; interrupts arrive as events of a run.
- The scanner: that it passes on only `$`, a text, `#` and two hexadecimal digits is a precondition
  of the packet analysis.
- Tracing, debug output, and the character that a software interrupt prints.
- Handlers that only parse or answer fixed text (`q`, `H`, `p`, `P`, `k`, `?`, `s`, `z` and `Z`
  around the breakpoint calls), the indirect call of the handler, and write_single_register.
- Allocation failures and null pointers; `malloc` leaves arbitrary contents.
- Memories of fewer than 4 bytes, for which `capacity - 3` wraps, and of more than 2^32.
- Coprocessor instructions and the media and multiply space: the code refuses them all.
- The byte order is fixed by the compiler in the source and is a constant of the machine here.
- The server's own pointers to registers and memory are those of its processor, as gdb_init_data
  sets them, so it reads and writes through the processor here.
- Uninitialised local variables of C that a rejected memory read leaves are parameters (`junk`); the
  results hold for all their values.
- An `assert` that fails ends the instruction with ASSERT_FAILED, as a value no other path returns;
  compiled without asserts the same state is reached and the result is 0.
- Words.Ror: a rotation by zero is the identity, although a shift by 32 is undefined in C.
- LoadStore.ProcessMemoryAccessHalf: a half-word store at 2^32-1 wraps the bounds check in the
  source and writes outside the array (in a memory of 2^32 bytes, to its first byte); it is taken as
  rejected.
- Mem.Memory.WriteHalf: not called at 2^32-1, for the same reason.
- Core.ArmCore.WriteHalf: the same.
- DataProcessing.WriteResult: the lines that each operation of the source repeats are one method.
- DataProcessing.Arithmetic: no claim that V, or the carry-in of adc, sbc and rsc, is the manual's.
- DataProcessing.Compare: the same for teq.
- Transfers.HalfStoreStep: at 2^32-1 the store is taken as rejected, as above.
- LoadStore.HandleMemoryOperation: no claim that a post-indexed form accesses the manual's address.
- LoadStore.HandleLdrhStrh: no claim about the register forms of half-word transfers.
- StatusWrites.ArmDataProcessingImmediateMsr: reached only with bit 25 set, so its register form is not
  modelled.
- Gdb.GdbProtocol.Cont: runs for as many steps as it is given values for uninitialised variables,
  because the loop of the source need not terminate; the statement covers every such number.
- Gdb.GdbProtocol.ReadMemory: address and size are already parsed, and the answer fits the buffer.
- Gdb.GdbProtocol.WriteMemoryBinary: address and size are already parsed. The content is what the
  buffer holds, so that a request may announce more than it has, but the buffer reaches that far.
- Gdb.GdbProtocol.RestoreRegisters: the data is what the buffer holds, so that a request may be
  shorter than a dump, but the buffer reaches that far.
- Gdb.GdbProtocol.WriteGeneralRegisters: the same.
- Text.FrameIsDispatched: speaks of the analysis of a whole packet; the scanner would cut a payload
  that itself holds `#` or `$` elsewhere.
- Text.CorruptionIsDetected: the same for a byte that is changed into `#` or `$`.
- Text.HexReadBack: `sscanf` also accepts leading blanks, a sign and `0x`, which no modelled sender
  produces.
