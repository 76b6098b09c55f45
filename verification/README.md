# A model of ckb-vm and what holds of it

ckb-vm is a RISC-V virtual machine that keeps several fast forms beside simple ones: fused instructions
beside raw ones, lazily built memories beside a byte array, decoded-instruction and basic-block caches beside
fetching, source-backed snapshots beside copying all of memory. This project models those forms in Dafny and
proves that each fast form does what its simple form does, for every register content, every aliasing, every
memory and every run. The main line is version 2 with 64-bit registers, written as naturals below 2^64.

## How it is laid out

| file | what it models |
|---|---|
| `Words.dfy`, `Arithmetic.dfy`, `Division.dfy`, `CarryLess.dfy` | register arithmetic and its meaning |
| `PagedMemory.dfy` | the memory every other part is measured against: bytes, page flags, write-xor-execute checks |
| `SparseMemory.dfy`, `FlatMemory.dfy`, `WXorXMemory.dfy` | the interpreter's memories, as classes |
| `LazyFrames.dfy`, `AsmMemory.dfy`, `AsmRun.dfy`, `Cores.dfy` | the assembly core's lazily cleared memory and its access shortcuts, and that memory beside the interpreter's |
| `Instructions.dfy`, `Machine.dfy`, `Handlers.dfy` | decoded instructions, their semantics, and the handlers that change the machine in place |
| `InstructionLaw.dfy`, `MemoryLaw.dfy` | what single instructions, memory operations and the fetch mean, over numbers, bytes and addresses |
| `Fusion.dfy`, `FusionProof.dfy`, `FusionRun.dfy`, `FusedDecode.dfy`, `CostModel.dfy`, `Witness.dfy` | macro-operation fusion, from single rules to whole runs, which code in memory is fused to what, what it costs, and small machines on which laws fail |
| `Aarch64.dfy` | the assembly bodies of the fused instructions |
| `Decoder.dfy`, `EvenRun.dfy` | the decoder, its cache, and why decoded code cannot change |
| `Stepper.dfy`, `PaidRun.dfy`, `InPlaceRun.dfy`, `Blocks.dfy`, `Trace.dfy`, `Reservations.dfy` | run loops: cycles, the loop in place, traces, load-reserved and store-conditional |
| `Snapshots.dfy`, `Tracking.dfy`, `Sessions.dfy`, `Restoring.dfy`, `Snapshot2.dfy`, `CrossCore.dfy` | page tracking, suspend and resume, on one core or across two |
| `Stack.dfy` | the initial stack and the argument reader |

What the program changes in place is a class or an array here (the memories, the handlers' registers, the decoder
cache, the trace table, the snapshot context, the stack), and every such method is proved against a function of the old
state. What the program only computes is a function.

Instruction factories, the remaining register instructions, system calls, the debugger, the cost function and the
snapshot's data source are arbitrary functions. Where a result needs something of them, a predicate says what:
`HostKeepsCode` (system calls leave executable pages alone unless they reset the machine), `HostKeepsSize` (they keep
the number of pages), `TameHost` (both), `HostKeepsReservation`, `HostMarks` (they make the pages they change dirty, or
reset memory and do so from there), `HostIgnoresExit` (they cannot see the exit code), `HostKeepsEven` and
`EvenFactories` (they and the factories give even addresses and offsets), `Metered` (every instruction costs a cycle;
host code gives none back and does not raise the limit), `HostNeverStops` (host code leaves the running flag to the exit
call), `BlindHost` (what host code does is the same, cycles and limit
apart, whatever those are, unless it runs out of cycles), `ChargingHost` (besides, a system call charges an amount that
does not depend on them, and leaves the limit alone), and `Stable` (the data source stands for fixed contents).

## Where the code does not do what one would expect

* The SBB rule compares an operand of its second instruction with itself, so that operand is free.
  `FusionRun.SbbRunsExact`: code that passes the rule runs as the fused instruction for all register contents if and only
  if that operand is the first instruction's destination. For one register file `FusionRun.SbbRuns` has the condition, and
  `Witnesses.SbbGoesWrong` is a machine with five such instructions in memory whose runs with and without fusion differ.
* Fused instructions cost less, so a run without fusion may need a higher limit. `FusionRun.FusionPays`: it does what the
  fused run did if and only if its limit covers what is due. `Witnesses.NoLimitIsEnough`: costs can add up to more than a
  64-bit limit can hold.
* The ADCS rule announces both orders of the sources of its addition, but exchanges them only if the sum overwrites the
  first. `FusedDecoding.AddSltu` has the exact condition: a comparison with the second source is otherwise not fused.
* LUI followed by JALR adds the immediates in wrapping 32-bit arithmetic. `FusionRun.FarJumpAbsExact`: the jump is the same if
  and only if that sum does not overflow, and `FusionProof.FarJumpAbsOverflow` says which decoded immediates those are.
* `init_pages` of the write-xor-execute memory sets flags page by page and can fail at a frozen page after that. The
  assembly core checks first. `Cores.HalfwayDiffers` tells the two apart on one call; `Cores.ApplyAlike` has the exact
  condition for one operation and `Cores.CoresAgree` for whole runs. Such a call can also leave flags that a snapshot does
  not carry: `Snapshots.HalfwayIsUnsound`, with the exact condition in `Snapshots.HalfwayExact` and, for a whole program,
  in `Tracking.LoadExact`.
* A store without checks (`prepare_memory` and a copy) can show stale bytes behind its range: `LazyFrames.StaleByteShows`.
  `LazyFrames.FastStoreSafe`: it is a plain store, whatever memory held before, if and only if the range ends at a page's
  end, or its last page does not end its frame, or that frame was cleared before, or the range starts inside it. The whole
  of `init_pages` shows nothing: `AsmMemories.AsmMemory.InitPages`.
* The write check of the assembly core records the page before it has checked it. `AsmMemories.AsmMemory.CheckWrite`: the
  shortcut is sound after a check if and only if the first page may be written, and `AsmMemories.FaultThenCheck`: after a
  fault at an executable page the checks of that page are skipped. The fault ends the run.
* `mark_program` trusts its caller that the program is still in memory. `Tracking.MarkExact`: the record stays sound if and
  only if every page it records holds its slice at that moment. `Tracking.WrittenBetween`: it does not after a byte was
  stored between loading and marking.
* A reset of the machine does not reach the record. `Snapshots.ResetExact`: the record is sound after it if and only if every
  recorded page that is not dirty again is recorded without flags as a slice of zeros.
* A snapshot does not carry the exit code. `Snapshot2.RunsOn`: for a host that cannot see it, runs from the suspended and the
  resumed machine agree apart from it, and with it if and only if it was 0, or the run fails, or the program exits.
  `Witnesses.ExitCodeLost` is a machine on which they differ.
* The read check of the assembly core marks a second frame with whatever a scratch register holds.
  `AsmMemories.CrossingMark`: it is never zero when it matters.

## Model

| member | source | states |
|---|---|---|
| `FusionRun.FusionSimulates` | src/decoder.rs:139-858 | Whatever instructions cost, for a host that does not look at cycles and limit: every run of the loop with fusion, whether it goes on, ends or fails, and the run without it of the matching length, from any cycles and with any limit, reach the same state (cycles and limit apart) or the same error, unless one of them runs out of cycles; n fused turns are at most 5n raw ones. Excluded are only states about to execute one of the two bad shapes. No assumption about code staying unchanged is needed. |
| `FusionRun.UnfusedSimulates` | src/decoder.rs:139-858 | And the other way round: a run without fusion that ends or fails, other than by running out of cycles, does so alike with fusion, unless that runs out of cycles. |
| `FusionRun.FusionPays` | src/machine/mod.rs:95-105 | With a host that charges: the run without fusion does exactly what the fused one did, with exactly what is due spent, if and only if its limit covers that; otherwise it runs out of cycles. |
| `FusionRun.EnoughCycles` | src/machine/mod.rs:95-105 | So raising the limit is enough, as long as the sum fits 64 bits. |
| `FusionRun.FreeSimulates` | src/decoder.rs:139-858 | Cycles set aside, every run with fusion is a run without: same state or same error; n turns that go on are between n and 5n. |
| `PaidRuns.CutOrFree` | src/machine/mod.rs:762-771 | A run that pays does what the run does that nobody pays for, or runs out of cycles. |
| `PaidRuns.PaysExactly` | src/machine/mod.rs:762-771 | A run within its limit spends exactly the costs of its instructions and what system calls charge, and runs out of cycles exactly when that is too much. |
| `FusionRun.FusedTurnIsTurns` | src/machine/mod.rs:762-771 | Cycles set aside, one turn with fusion is one to five turns without, and fails exactly as they do. |
| `FusionRun.FusedStep` | src/decoder.rs:143-855 | Whatever rule fires, executing its result equals running the raw instructions it stands for from memory, one by one, if and only if it is not one of the two bad shapes. |
| `FusionRun.AdcRuns` | src/decoder.rs:144-226 | The five fetched instructions of an ADC and the fused one reach the same state. |
| `FusionRun.Add3Runs` | src/decoder.rs:227-364 | The same for the three forms of ADD3, for each choice of guard. |
| `FusionRun.PairRuns` | src/decoder.rs:686-855 | The same for ADCS, SBBS and the wide multiplications and divisions. |
| `FusionRun.SbbRuns` | src/decoder.rs:429-517 | Code that passes the SBB rule runs as the fused instruction if and only if the comparison the rule forgot gives the right borrow. |
| `FusionRun.SbbRunsExact` | src/decoder.rs:429-517 | It does whatever the registers hold if and only if the forgotten operand is the first difference. |
| `Witnesses.SbbGoesWrong` | src/decoder.rs:429-517 | A machine with five instructions that pass the SBB rule with another operand: with and without fusion it ends in different states. |
| `Witnesses.NoLimitIsEnough` | src/machine/mod.rs:95-105 | A fused run whose instructions, unfused, no limit can pay for. |
| `FusionRun.LoadImmRuns` | src/decoder.rs:600-682 | LUI with ADDIW, and AUIPC with ADDI, load the constant the two instructions compute, at every pc and for all immediates. |
| `FusionRun.FarJumpAbsExact` | src/decoder.rs:570-599 | LUI with JALR links and jumps alike if and only if the 32-bit immediate sum does not overflow. |
| `FusionRun.FarJumpRelRuns` | src/decoder.rs:618-645 | AUIPC with JALR links and jumps alike whenever the rule's overflow check passes. |
| `FusionRun.WindowIsCode` | src/decoder.rs:97-130 | What the rules look at is the code in memory, at the addresses the machine will reach. |
| `FusionRun.LaterVersionsFuseAlike` | src/decoder.rs:139-142 | All versions from 2 on fuse alike. |
| `FusionProof.AdcIsFive` | src/instructions/execute.rs:1369-1392 | The ADC handler's register file is that of its five instructions, for all contents and every aliasing the guard admits. |
| `FusionProof.Add3aIsThree` | src/instructions/execute.rs:1441-1462 | The same for ADD3A and its three instructions. |
| `FusionProof.Add3bIsThree` | src/instructions/execute.rs:1464-1485 | The same for ADD3B. |
| `FusionProof.Add3cIsThree` | src/instructions/execute.rs:1487-1504 | The same for ADD3C. |
| `FusionProof.AdcsIsTwo` | src/instructions/execute.rs:1419-1428 | The same for ADCS, with the sources in either order and x0 as carry destination. |
| `FusionProof.SbbsIsTwo` | src/instructions/execute.rs:1430-1439 | The same for SBBS. |
| `FusionProof.WideIsTwo` | src/instructions/execute.rs:1285-1338 | The same for the five wide multiplications and divisions. |
| `FusionProof.SbbAgrees` | src/instructions/execute.rs:1394-1417 | On one register file SBB agrees with its five instructions if and only if the unchecked comparison gives the right borrow. |
| `FusionProof.TargetsAgree` | src/decoder.rs:588-595 | Absolute jump targets survive the wrapping addition if and only if it does not overflow. |
| `FusionProof.FarJumpAbsOverflow` | src/decoder.rs:588-595 | Among decoded immediates only the most negative LUI with a negative JALR offset overflows. |
| `FusedDecoding.WidePair` | src/decoder.rs:686-855 | Code in memory with a high product and the low one, or a quotient and its remainder, in any of the five pairs, decodes to the wide instruction of both lengths exactly if both read the same registers and the first overwrites neither of them nor the second result; otherwise to the first alone. |
| `FusedDecoding.LuiJalr` | src/decoder.rs:570-599 | LUI and JALR in memory decode to the absolute far jump exactly if all registers are the return address. |
| `FusedDecoding.LuiAddiw` | src/decoder.rs:600-617 | LUI and ADDIW decode to the constant exactly if all registers are the same. |
| `FusedDecoding.AuipcJalr` | src/decoder.rs:618-645 | AUIPC and JALR decode to the relative far jump exactly if all registers are the return address and the sum fits 32 bits. |
| `FusedDecoding.AuipcAddi` | src/decoder.rs:646-682 | AUIPC and ADDI decode to the constant exactly if all registers are the same and every partial sum fits 32 bits. |
| `FusedDecoding.SubSltu` | src/decoder.rs:518-569 | SUB and SLTU decode to SBBS exactly if both read the same registers and SUB overwrites neither, or to SUB alone. |
| `FusedDecoding.SbbFive` | src/decoder.rs:429-517 | The five instructions of a subtraction with borrow decode to SBB, whatever the operand nobody compares. |
| `FusedDecoding.AdcFive` | src/decoder.rs:144-226 | The five instructions of an addition with carry decode to ADC. |
| `FusedDecoding.AddSltuAdd` | src/decoder.rs:227-364 | Sum, carry and carry added on decode to ADD3A, ADD3B or ADD3C according to where the carry goes. |
| `FusedDecoding.AddSltu` | src/decoder.rs:365-427 | ADD and SLTU not followed by another ADD decode to ADCS exactly if SLTU compares the sum with the source it did not overwrite, in the orders the rule accepts. |
| `FusedDecoding.NotFused` | src/decoder.rs:139-858 | Any other first instruction, and one with nothing behind it, decodes to itself. |
| `FusedDecoding.OnlyListings` | src/decoder.rs:139-858 | Whatever is decoded to something else than the first instruction stands for the listing of its rule, which is in memory at that address. |
| `FusedDecoding.FusedDue` | src/cost_model.rs:16-93 | With the estimated costs a turn that executes a wide product is due 5 cycles, a wide division 32, a far jump 3, any other fusion 1. |
| `CostModel.CyclesByKind` | src/cost_model.rs:16-93 | The costs by kind of instruction: branches and jumps 3, 64-bit loads and stores 2 and narrower ones 3, atomic operations 3 or 4, products 5, divisions 32, host calls 500, the rest 1. |
| `CostModel.FusionIsCheaper` | src/cost_model.rs:84-93 | A fused instruction costs strictly less than the instructions it stands for. |
| `CostModel.FusedRunIsCheaper` | src/cost_model.rs:16-93 | With the estimated costs charged by the machine itself: where the fused run and the run without fusion of the matching length both complete, in the same state, the first has spent no more cycles. |
| `CostModel.FusedEndsInTime` | src/cost_model.rs:16-93 | With those costs a run that ends or fails within its limit ends or fails alike with fusion, within the same limit, for no more cycles. |
| `CostModel.LessDue` | src/cost_model.rs:16-93 | What is due for a run with fusion is at most what is due without. |
| `InstructionLaws.BranchGoes` | src/instructions/execute.rs:621-703 | A branch goes to pc plus offset or behind itself, whatever offset and length, and does nothing else. |
| `InstructionLaws.BranchLaws` | src/instructions/execute.rs:621-703 | BNE, BGE and BGEU go where BEQ, BLT and BLTU do not; of less, equal and greater exactly one holds, signed and unsigned; BLTU goes exactly where SLTU gives 1; BLT exactly where BLTU does with both registers moved by 2^63. |
| `InstructionLaws.JalLaw` | src/instructions/common.rs:386-390 | JAL goes to pc plus offset and links the address behind it. |
| `InstructionLaws.JalrLaw` | src/instructions/execute.rs:546-559 | JALR goes to the even address at register plus offset, the register being read before the link is written. |
| `InstructionLaws.ConstantLaws` | src/instructions/execute.rs:230-234 | ADDI adds, LUI loads and AUIPC adds to the pc, modulo 2^64 with signed immediates. |
| `InstructionLaws.AddiwLaw` | src/instructions/common.rs:71-82 | ADDIW gives the 32-bit sum, sign extended. |
| `InstructionLaws.RegisterLaw` | src/instructions/execute.rs:14-128 | An instruction on two registers changes its destination only, to the same value whichever it is, and x0 never. |
| `InstructionLaws.SumLaw` | src/instructions/execute.rs:14-128 | ADD and SUB are sum and difference modulo 2^64, SLTU compares unsigned, OR is or of every bit. |
| `InstructionLaws.ProductLaw` | src/instructions/execute.rs:748-793 | MULH, MULHU and MULHSU give with MUL the whole signed, unsigned and mixed product. |
| `InstructionLaws.QuotientLaw` | src/instructions/execute.rs:795-873 | DIV and REM truncate, DIVU and REMU round down; by zero all ones and the dividend, and the one overflow gives the dividend and 0. |
| `InstructionLaws.LoadLaw` | src/instructions/common.rs:100-200 | A load succeeds exactly if its bytes exist; the register holds their little-endian value, or its sign extension: in range for the width and congruent modulo it. |
| `InstructionLaws.StoreLaw` | src/instructions/common.rs:203-251 | A store succeeds exactly if its bytes exist and no page of them is executable; the low bytes of the register are there, those pages are dirty, nothing else changes. |
| `InstructionLaws.StoreThenLoad` | src/instructions/common.rs:100-251 | What was stored is loaded again, cut to the width or sign extended from it. |
| `InstructionLaws.LrLaw` | src/instructions/execute.rs:248-255 | Load-reserved gives the sign-extended word and takes the reservation, exactly if the bytes exist. |
| `InstructionLaws.AmoLaw` | src/instructions/execute.rs:272-502 | An atomic operation succeeds exactly where a store would; rd gets the old word, sign extended, memory the combined one. |
| `InstructionLaws.FaultLaw` | src/instructions/execute.rs:1569-1578 | An instruction that fails moves the pc on and changes nothing else, except the register an atomic operation has loaded. |
| `Handlers.CoreMachine.UpdateRegister` | src/instructions/utils.rs:77-89 | One register is written, and none when it is x0. |
| `Handlers.CoreMachine.HandleAdc` | src/instructions/execute.rs:1369-1392 | With three distinct registers and a carry of 0 or 1 the register array afterwards holds sum and carry out: rd + 2^64 * rs1 is the sum of the three old values. |
| `Handlers.CoreMachine.HandleSbb` | src/instructions/execute.rs:1394-1417 | With the operands the rule admits and a borrow of 0 or 1, rd - 2^64 * rs1 is the old difference: the borrow law, in place. |
| `Handlers.CoreMachine.HandleR4` | src/instructions/execute.rs:1285-1439 | The two result registers hold together the whole product, the quotient and remainder of the division law, or sum and carry, of the two old operands. |
| `Handlers.CoreMachine.HandleR5` | src/instructions/execute.rs:1441-1504 | rd holds the low word of the sum, and what overflowed has been added to the third operand. |
| `Arithmetic.AdcAdds` | src/instructions/execute.rs:1369-1392 | ADC is addition with carry in and carry out: sum + 2^64 * carry = a + b + c. |
| `Arithmetic.SbbSubtracts` | src/instructions/execute.rs:1394-1417 | SBB is subtraction with borrow in and borrow out. |
| `Arithmetic.WholeProduct` | src/instructions/register.rs:504-523 | Each high half with the low half is the whole product, signed, unsigned and mixed. |
| `Words.OrOfFlags` | src/instructions/execute.rs:1388-1391 | Bitwise or of two carries is their logical or. |
| `Words.WrapOfImmediateSum` | src/decoder.rs:589-591 | Sign-extended immediates add to the sign-extended wrapped sum if and only if it fits 32 bits. |
| `Words.SignExtendOfImmediateSum` | src/decoder.rs:603-605 | After truncation to 32 bits they always do, which is what ADDIW needs. |
| `Aarch64.MulhsuExact` | src/machine/asm/execute_aarch64.S:682-699 | Negate, unsigned high product, complement and conditional increment give the signed by unsigned high half, for all operands. |
| `Aarch64.WideMul` | src/machine/asm/execute_aarch64.S:1670-1710 | The wide multiplication bodies, which store the low half first, leave the handlers' registers. |
| `Aarch64.WideDiv` | src/machine/asm/execute_aarch64.S:1711-1735 | The signed division body does, zero divisor and overflow included. |
| `Aarch64.WideDivu` | src/machine/asm/execute_aarch64.S:1736-1751 | The unsigned one does. |
| `Aarch64.AdcBody` | src/machine/asm/execute_aarch64.S:1752-1768 | Two hardware carries, or-ed and stored in another order, leave the ADC handler's registers. |
| `Aarch64.SbbBody` | src/machine/asm/execute_aarch64.S:1769-1788 | The same for SBB with inverted borrow flags. |
| `Aarch64.CarryOut` | src/machine/asm/execute_aarch64.S:1789-1809 | The same for ADCS and SBBS, with x0 as any operand. |
| `Aarch64.Add3Body` | src/machine/asm/execute_aarch64.S:1810-1848 | The same for the three ADD3 forms. |
| `Aarch64.FusedBody` | src/machine/asm/execute_aarch64.S:1670-1848 | Whatever register instruction the decoder fuses, the assembly body leaves the registers the Rust handler leaves. |
| `Division.TruncatedDivision` | src/instructions/register.rs:481-502 | Rounding towards zero: the remainder is smaller than the divisor and has the dividend's sign. |
| `Division.DivisionLaw` | src/instructions/register.rs:465-502 | Dividend = divisor * quotient + remainder modulo 2^64 for all operands, zero divisor and overflow included. |
| `Division.RemainderRange` | src/instructions/register.rs:473-502 | The bounds and signs of remainders of nonzero divisors. |
| `Division.WordDivision` | src/instructions/execute.rs:804-873 | Extending, dividing in 64 bits and truncating is 32-bit division of the standard, in all four forms. |
| `Division.WordDivisionLaw` | src/instructions/execute.rs:804-873 | The division law modulo 2^32 for all operands. |
| `CarryLess.Clmul` | src/instructions/register.rs:557-565 | The loop computes the low half of the polynomial product, for any width. |
| `CarryLess.Clmulh` | src/instructions/register.rs:567-575 | The loop computes its high half. |
| `CarryLess.Clmulr` | src/instructions/register.rs:577-585 | The loop computes the coefficients from the middle up. |
| `CarryLess.Reversed` | src/instructions/register.rs:276-304 | The reversed product is the high half moved up by one with the top bit of the low half below it; the top coefficient is zero. |
| `CarryLess.ProductCommutes` | src/instructions/register.rs:557-585 | The product does not depend on the order of its factors. |
| `CarryLess.ProductDistributes` | src/instructions/register.rs:557-585 | It distributes over exclusive or. |
| `PagedMemory.CheckNoOverflowExact` | src/memory/mod.rs:104-114 | The range check accepts exactly the ranges that start and stay inside memory. |
| `PagedMemory.Blocked` | src/memory/mod.rs:125-137 | The permission loop finds the first page with the wrong bit, or there is none. |
| `PagedMemory.PutMore` | src/memory/mod.rs:78-102 | Stores of adjacent pieces are one store, dirty pages included. |
| `PagedMemory.PutPage` | src/memory/mod.rs:139-144 | A store changes only pages it makes dirty. |
| `MemoryLaws.StoreBytesLaw` | src/memory/wxorx.rs:143-161 | A store goes through exactly where bytes may be written; then they are loaded again, exactly their pages are dirty, nothing else changes; a failing one changes nothing. Filling is storing repeated bytes. |
| `MemoryLaws.InitPagesLaw` | src/memory/wxorx.rs:28-67 | `init_pages` succeeds exactly on whole existing pages, none of them frozen, with the offset inside; then they hold the source from its offset on and zeros elsewhere, have the new flags and are dirty. |
| `MemoryLaws.LoadLaw` | src/machine/mod.rs:136-174 | Loading segments that lie apart succeeds exactly if each is on whole existing pages, none of them frozen before, with its offset inside; then every page of a segment has its flags and is dirty, and every other page is as before. |
| `MemoryLaws.FlagLaw` | src/memory/wxorx.rs:69-79 | A flag set or cleared is found so, the later of the two wins, and no other page changes; a page that does not exist changes nothing. |
| `MemoryLaws.FetchLaw` | src/decoder.rs:45-95 | At an even address the fetch gives one halfword, or two if the low bits of the first are 11, each of which must exist and be executable, with the error that says which is not. |
| `MemoryLaws.DecodeLaw` | src/decoder.rs:97-130 | `decode_raw` gives the instruction of the first factory that knows the bits, or the error for the address, the fetch or the bits. |
| `SparseMemories.IndexUsable` | src/memory/sparse.rs:27-39 | The 16-bit page index and its sentinel suffice for exactly 65535 pages. |
| `SparseMemories.SparseMemory.FetchPage` | src/memory/sparse.rs:27-39 | Allocating a page on first use changes no observable byte and gives no page to two addresses. |
| `SparseMemories.SparseMemory.Load` | src/memory/sparse.rs:41-68 | Loads across pages and of absent pages give what a plain byte array holds. |
| `SparseMemories.SparseMemory.StoreBytes` | src/memory/sparse.rs:164-184 | A store over any number of pages is one store to a plain array; one that runs off memory has written exactly the bytes that exist, and names the first page that does not. |
| `SparseMemories.SparseMemory.StoreByte` | src/memory/sparse.rs:186-204 | The same for filling a range. |
| `SparseMemories.SparseMemory.LoadBytes` | src/memory/sparse.rs:206-226 | The same for loads of any length. |
| `FlatMemories.FlatMemory.StoreBytes` | src/memory/flat.rs:182-193 | The reference memory: bytes in place, dirty pages, nothing on a failing range. |
| `FlatMemories.FlatMemory.StoreByte` | src/memory/flat.rs:195-204 | The same for filling a range. |
| `FlatMemories.FlatMemory.Load` | src/memory/flat.rs:106-141 | Little-endian loads, or the range error. |
| `WXorX.Inner.FillPageData` | src/memory/mod.rs:78-102 | Three stores leave the image of a segment: zeros, the source, zeros. |
| `WXorX.WXorXMemory.MarkPages` | src/memory/wxorx.rs:58-64 | Flags are set on the pages before the first frozen one, which is the error. |
| `WXorX.WXorXMemory.InitPages` | src/memory/wxorx.rs:28-67 | Every error in its order, and on success the image and the flags, over either inner memory. |
| `WXorX.WXorXMemory.StoreBytes` | src/memory/wxorx.rs:143-151 | No byte of an executable page is ever stored to; the first such page is the error and nothing changes. |
| `WXorX.WXorXMemory.StoreByte` | src/memory/wxorx.rs:153-161 | The same for filling a range. |
| `WXorX.WXorXMemory.ExecuteLoad` | src/memory/wxorx.rs:85-97 | Only executable pages are fetched from. |
| `WXorX.WXorXMemory.PerformAll` | src/memory/wxorx.rs:28-174 | Any sequence of operations over either inner memory acts as on a plain memory, reply by reply. |
| `WXorX.Indistinguishable` | src/memory/wxorx.rs:28-161 | With at most 65535 pages no sequence of operations tells sparse from flat memory, except by the address in a failed load. |
| `LazyFrames.ClearingIsInvisible` | src/machine/asm/mod.rs:125-154 | Clearing a frame on first use, and marking it with any nonzero byte, changes no observable byte. |
| `LazyFrames.MarkingIsInvisibleOutside` | src/machine/asm/mod.rs:263-292 | Marking the frames of a range that is about to be written changes nothing outside its pages, if its edge frames were cleared. |
| `LazyFrames.FastStoreExact` | src/machine/asm/mod.rs:263-320 | Clearing the edges, marking the frames and copying is a plain store if and only if nothing stale is left behind the range in its last page, or the bytes there happen to be zero. |
| `LazyFrames.FastStoreSafe` | src/machine/asm/mod.rs:263-320 | For all contents the allocator may have left: a plain store if and only if the range ends its last page, or that page does not end its frame, or the frame was cleared, or the range starts inside it. |
| `LazyFrames.StaleByteShows` | src/machine/asm/mod.rs:263-320 | A store of all but the last byte of an uncleared frame shows what was there before. |
| `AsmMemories.AsmMemory.constructor` | src/machine/asm/mod.rs:41-71 | Memory with arbitrary contents is observed as zero. |
| `AsmMemories.AsmMemory.Reset` | src/machine/asm/mod.rs:688-714 | After a reset it is again, and both shortcuts are off. |
| `AsmMemories.AsmMemory.CheckMemory` | src/machine/asm/mod.rs:143-154 | The frame is cleared afterwards, no cleared frame is lost, no byte changes. |
| `AsmMemories.AsmMemory.PrepareMemory` | src/machine/asm/mod.rs:263-292 | Exactly the edge frames the range does not cover are cleared, its frames marked and its pages dirty; nothing observable outside its pages has changed. |
| `AsmMemories.AsmMemory.FastStoreBytes` | src/machine/asm/mod.rs:302-310 | Exactly the observable bytes the exact lemma is about; a plain store whenever nothing stale is left. |
| `AsmMemories.AsmMemory.FastStoreByte` | src/machine/asm/mod.rs:312-320 | The same for filling a range. |
| `AsmMemories.AsmMemory.FillPageData` | src/memory/mod.rs:78-102 | Over fast stores too, a page-aligned segment ends up as its image with nothing else changed. |
| `AsmMemories.AsmMemory.InitPages` | src/machine/asm/mod.rs:412-471 | As on a plain zeroed memory, with every error and no change on any of them; the shortcuts stay sound. |
| `AsmMemories.AsmMemory.SetFlag` | src/machine/asm/mod.rs:485-498 | The flag is or-ed in and the write shortcut switched off. |
| `AsmMemories.AsmMemory.ClearFlag` | src/machine/asm/mod.rs:500-513 | The flag is taken out and the write shortcut switched off. |
| `AsmMemories.AsmMemory.StoreBytes` | src/machine/asm/mod.rs:519-534 | A host store, page by page: all of it, or an error with the pages before the executable one dirty. |
| `AsmMemories.AsmMemory.StoreByte` | src/machine/asm/mod.rs:536-551 | The same for filling a range. |
| `AsmMemories.AsmMemory.LoadBytes` | src/machine/asm/mod.rs:553-568 | Loads see zeros where nothing was stored. |
| `AsmMemories.AsmMemory.Load` | src/machine/asm/mod.rs:586-618 | Word loads across frames, with the range errors of the interpreter. |
| `AsmMemories.AsmMemory.Store` | src/machine/asm/mod.rs:620-653 | Word stores, with the order of their checks and what a failing one leaves dirty. |
| `AsmMemories.AsmMemory.ExecuteLoad` | src/machine/asm/mod.rs:570-584 | Instruction fetches, with the order of their checks. |
| `AsmMemories.AsmMemory.CheckRead` | src/machine/asm/execute_aarch64.S:205-224 | The shortcut agrees with the full read check, and the read shortcut stays sound. |
| `AsmMemories.AsmMemory.CheckReadFrames` | src/machine/asm/execute_aarch64.S:152-182 | Both frames of a word are cleared, whatever byte marks the second. |
| `AsmMemories.CrossingMark` | src/machine/asm/execute_aarch64.S:166-182 | The byte that marks the second frame is not zero when the word crosses into it. |
| `AsmMemories.AsmMemory.CheckWrite` | src/machine/asm/execute_aarch64.S:226-295 | The shortcut agrees with the full write check; afterwards, fault or not, the shortcuts are sound if and only if the first page exists and may be written. The fast path looks at the recorded page alone. |
| `AsmMemories.FaultThenCheck` | src/machine/asm/execute_aarch64.S:226-295 | After a fault at an executable page the checks of stores inside that page are skipped. |
| `AsmMemories.AsmMemory.Read` | src/machine/asm/execute_aarch64.S:554-561 | A compiled load gives what a plain memory gives. |
| `AsmMemories.AsmMemory.Write` | src/machine/asm/execute_aarch64.S:772-779 | A compiled store does what a host store of a word does, and leaves the shortcuts sound if and only if its first page may be written. |
| `AsmRuns.PerformAll` | src/machine/asm/mod.rs:412-661 | Over every run of compiled and host accesses and resets, up to a fault, the lazily cleared memory with its shortcuts is a plain memory: same replies, bytes and flags. |
| `AsmRuns.FreshRun` | src/machine/asm/mod.rs:41-71 | From a new core on, that plain memory starts out zeroed, whatever the allocator left. |
| `Cores.StoreWordErrorExact` | src/machine/asm/mod.rs:165-195 | The word checks accept exactly the stores the interpreter's range and permission checks accept. |
| `Cores.CoresAgree` | src/machine/asm/mod.rs:412-661 | Over every run of host and compiled accesses and resets the two memories stay alike (bytes, reservation, permissions; the core may have more pages dirty) if and only if no access parts them; then they fault at the same access, with like replies. |
| `Cores.ApplyAlike` | src/memory/wxorx.rs:28-67 | From like memories one operation gets like replies always, and leaves like memories if and only if it is not an `init_pages` that stops at a frozen page with an earlier page lacking the new flags. |
| `Cores.PerformPlain` | src/machine/mod.rs:421-430 | An access to the interpreter's memory does what its plain run says; a reset puts a new memory of the same size in place. |
| `Cores.CompareCores` | src/machine/asm/mod.rs:412-714 | A new assembly core and a new sparse or flat interpreter memory, run on the same accesses: like replies, faults at the same access and like memories, under the exact condition. |
| `Cores.HalfwayDiffers` | src/memory/wxorx.rs:58-64 | A partly frozen segment tells the cores apart. |
| `Decoders.FastPathAgrees` | src/decoder.rs:79-95 | At even addresses the four-byte fetch and the two-halfword fetch give the same bits or the same error. |
| `Decoders.HalfwordsAgree` | src/decoder.rs:79-130 | So the decoder, as written, decodes at even addresses what fetching by halfwords decodes. |
| `EvenRuns.RunFetchesHalfwords` | src/decoder.rs:79-130 | Every state a run from an even pc reaches has an even pc, and all the decoder looks at there it may fetch by halfwords. |
| `Decoders.ConvertFlags` | src/elf.rs:15-32 | Executable segments are frozen and not writable; writable ones get no flags. |
| `Decoders.DefaultDecoder.FetchInstruction` | src/decoder.rs:79-95 | Through the memory's own fetches, four bytes at once or two by two: the bits of the model, or its error, at any pc. |
| `Decoders.OpKeepsCode` | src/memory/wxorx.rs:28-161 | No memory operation changes a byte of an executable, frozen page or its permission. |
| `Decoders.RunKeepsCode` | src/memory/wxorx.rs:28-161 | Nor does any sequence of operations that clears no permission. |
| `Decoders.DecodeKept` | src/decoder.rs:97-130 | An instruction that was decoded decodes alike as long as code is kept. |
| `Decoders.DefaultDecoder.DecodeRaw` | src/decoder.rs:97-130 | The direct-mapped cache never changes what is decoded, at any pc, and stays coherent. |
| `Decoders.DefaultDecoder.Decode` | src/decoder.rs:876-882 | Nor does it change what is fused. |
| `Decoders.DefaultDecoder.StaysCoherent` | src/decoder.rs:24-28 | A coherent cache stays so while code is kept, without being looked at. |
| `Decoders.DecodeAfter` | src/decoder.rs:97-130 | After any operations done in place on the memory a cached decode is what an uncached one gives, and at an even pc what halfword fetches give. |
| `InPlaceRuns.RunInPlace` | src/machine/mod.rs:666-683 | Registers, sparse or flat memory and the decoder's cache changed in place, for any number of turns and at any pc: the machine is where the run loop of the model takes it, or fails with its error and is what that failure leaves behind. No stale instruction is ever executed. |
| `InPlaceRuns.TurnInPlace` | src/machine/mod.rs:666-683 | One turn of it: reset signal, cached decode, cycles, handler; cache and memory stay in step, and a turn that fails leaves the machine the model says, ready to go on, unless host code itself failed. |
| `InPlaceRuns.RunWithDecoder` | src/machine/mod.rs:666-683 | The loop as written ends by itself, within one more turn than there are cycles left, where that many turns of the model end. It gives the exit code; if the program exits in those turns, and in any case for a host that leaves stopping to it, that is the low byte of a0 as a signed number. |
| `Stepper.OnlyHostChanges` | src/instructions/execute.rs:1569-1578 | Only ECALL and EBREAK touch cycles, the running flag or the reset signal. |
| `Stepper.TurnControl` | src/machine/mod.rs:666-683 | A turn without host code takes the reset signal back, adds exactly the cost of its instruction within the limit, commits the pc and leaves limit, running flag and exit code alone. |
| `Stepper.ExitLaw` | src/machine/mod.rs:598-620 | A turn that executes ECALL with 93 in a7 and can be paid for succeeds and stops the machine; the exit code is between -128 and 127 and congruent to a0 modulo 256; registers and memory are as before, and its cost is paid. |
| `Stepper.ExitsLaw` | src/machine/mod.rs:666-683 | A run of the loop in which the program exits ends with that exit code. |
| `Stepper.EndsByExit` | src/machine/mod.rs:666-683 | If host code does not stop the machine itself, a run that ends has exited. |
| `Stepper.TurnCycles` | src/machine/mod.rs:95-105 | After every step that succeeds cycles are within the limit and have grown. |
| `Stepper.Halts` | src/machine/mod.rs:666-683 | The run loop halts within one more turn than there are cycles left. |
| `Blocks.DecodeSame` | src/decoder.rs:876-882 | Memories with the same executable pages decode alike at every pc, failures and fusion included. |
| `Blocks.ProgramKeepsCode` | src/memory/wxorx.rs:115-161 | No instruction of a program changes code. |
| `Blocks.StraightLine` | src/instructions/mod.rs:415-419 | An instruction that does not end a basic block falls through, keeps the machine running and leaves code alone. |
| `Blocks.BlockEnds` | src/instructions/mod.rs:415-419 | Exactly branches, jumps, AUIPC, FENCE and the host calls end a block. |
| `Blocks.BlockRuns` | src/machine/trace.rs:156-184 | A block that decodes is as many turns of the plain loop; one that does not makes the plain loop fail as well. |
| `Blocks.TraceIsTurns` | src/machine/trace.rs:131-187 | What the trace machine reaches, the plain machine reaches; where it fails, that fails. |
| `Blocks.TurnsIsTrace` | src/machine/trace.rs:131-187 | A plain run that ends or fails makes the trace machine end alike or fail. |
| `Traces.TraceMachine.BuildTrace` | src/machine/trace.rs:156-174 | Through the caching decoder the slot gets the block at the pc, or the first decoding error is returned; traces and cache stay right. |
| `Traces.TraceMachine.RunTraces` | src/machine/trace.rs:131-187 | Keeping traces and decoded instructions between turns, and forgetting them only on a reset signal, changes nothing: no stale trace is ever executed. |
| `Traces.TraceMachine.RunWithDecoder` | src/machine/trace.rs:131-187 | The loop as written ends by itself, and ends or fails where single turns of the plain loop do, with the same promise about the exit code. |
| `Traces.TraceRefines` | src/machine/trace.rs:131-187 | The trace machine refines the single-stepper: same final state, or both fail, and neither ends alone. |
| `Reservations.RegisterStands` | src/machine/mod.rs:421-430 | Throughout every run the reservation register stands for the latest load-reserved since start, reset or a store-conditional. |
| `Reservations.StoreConditional` | src/instructions/execute.rs:257-270 | A completed store-conditional writes 0 exactly when that load-reserved was to its address; then memory holds the value, otherwise no byte changed. |
| `Reservations.StoreBack` | src/instructions/execute.rs:379-401 | Storing back the loaded value changes no byte. |
| `Reservations.NoLoadAtSentinel` | src/instructions/execute.rs:388-401 | The all-ones sentinel is no address at which a load, and so a store-conditional, completes. |
| `Snapshots.ProgramKeepsSound` | src/snapshot2.rs:30-35 | Every page stays dirty, or equal to its recorded source slice and flags, or untouched, whatever a program does. |
| `Snapshots.OrdinaryMarks` | src/memory/wxorx.rs:115-161 | Every load and store leaves each page that is not dirty as it was. |
| `Snapshots.MarkingKeepsSound` | src/snapshot2.rs:162-208 | Whatever leaves the pages that are not dirty as they were keeps the record sound. |
| `Snapshots.HalfwayIsUnsound` | src/memory/wxorx.rs:58-64 | A segment load that fails at a frozen page can break that. |
| `Snapshots.HalfwayExact` | src/memory/wxorx.rs:58-64 | It does if and only if a clean page before the frozen one gains a flag. |
| `Snapshots.ResetExact` | src/machine/mod.rs:421-430 | After a reset, and whatever was done and marked since, the record is sound if and only if every recorded page is dirty or recorded as blank. |
| `Snapshots.SourceRunsCover` | src/snapshot2.rs:180-208 | The coalesced source runs cover exactly the clean recorded pages, in order, each at its own place in the source. |
| `Snapshots.DirtyRunsCover` | src/snapshot2.rs:163-179 | The coalesced dirty runs cover exactly the dirty pages, with their flags and contents. |
| `Snapshots.SourceRunsAgree` | src/snapshot2.rs:180-208 | Records that differ on dirty pages only give the same runs. |
| `Tracking.RecordingExact` | src/snapshot2.rs:254-266 | Recording pages keeps the record sound if and only if each holds its source slice. |
| `Tracking.TrackExact` | src/snapshot2.rs:242-267 | The same for the whole pages of any range, existing or not. |
| `Tracking.DataMatches` | src/snapshot2.rs:242-266 | The whole pages of a range filled from the source hold their own slices of it. |
| `Tracking.LoadedMatches` | src/snapshot2.rs:225-238 | So do the pages of a loaded segment. |
| `Sessions.EventsExact` | src/snapshot2.rs:52-284 | Over any session (turns of the run loop that succeed or fail, host stores and register writes, resets, program loads that succeed or fail, marks, stores from the source, in any order) every page stays dirty, or equal to its recorded slice and flags, or untouched, if and only if every load, mark and reset on the way keeps it so. |
| `Sessions.EventExact` | src/snapshot2.rs:52-284 | One event: only a load that meets a frozen page, a mark and a reset need anything, and exactly what. |
| `Sessions.TurnMarks` | src/machine/mod.rs:762-771 | Every turn of the run loop, a failing one too, leaves the pages that are not dirty as they were, unless the host resets the machine. |
| `Sessions.TurnExact` | src/machine/mod.rs:762-771 | A turn keeps the record sound if and only if it marks what it changes, or resets memory and the record suits that. |
| `Sessions.PlainTurnKeeps` | src/machine/mod.rs:762-771 | Every turn that does not go to the host does. |
| `Sessions.ExitApart` | src/machine/mod.rs:598-620 | An exit code from before survives a run exactly when the run has not failed and the program has not exited; nothing else depends on it. |
| `Sessions.TurnsAreEvents` | src/machine/mod.rs:666-683 | Any number of turns of the run loop is as many events. |
| `Sessions.TurnsAlike` | src/machine/mod.rs:666-683 | Machines that differ in the next pc and the reset signal run alike. |
| `Sessions.EventsAlike` | src/snapshot2.rs:52-284 | Whatever comes later, two such machines stay so, exit codes apart; these are the same at the end if and only if they were before or the program exited; records that agree on clean pages do until a reset. |
| `Sessions.ResetRecord` | src/machine/mod.rs:421-430 | At a reset they do if and only if they agree on all pages. |
| `Tracking.LoadExact` | src/machine/mod.rs:136-174 | Loading a program keeps the record sound, whatever the outcome, if and only if no segment stops at a frozen page after a clean page gained a flag. |
| `Tracking.MarkExact` | src/snapshot2.rs:148-159 | Marking a program keeps the record sound, whatever happened since it was loaded, if and only if every page it records holds the slice its last mark gives it. |
| `Tracking.WrittenBetween` | src/snapshot2.rs:148-159 | A byte stored between loading and marking makes the record unsound. |
| `Tracking.StoreDataKeepsSound` | src/snapshot2.rs:117-134 | A host store keeps the record sound on every outcome. |
| `Tracking.StoreDataStores` | src/snapshot2.rs:117-134 | One that succeeds leaves exactly the old bytes with the full length as a 64-bit word at its address and then the data at its own, returns both lengths, and leaves each whole page of the data clean and recorded at its own offset. |
| `Tracking.StoreDataSucceeds` | src/snapshot2.rs:117-134 | It succeeds exactly if the source has the data and both ranges may be written. |
| `Tracking.StoreDataApart` | src/snapshot2.rs:117-134 | Where length and data do not overlap, the full length is loaded back from its address; every byte outside both is as before. |
| `Tracking.StoreDataPages` | src/snapshot2.rs:117-134 | The record and flags of every page: a page of nothing but data is clean and recorded, one with some data is dirty and forgotten, the others are at most dirty from the length. |
| `Tracking.WholePagesExact` | src/snapshot2.rs:250-257 | The pages counted as whole are exactly the pages inside the range. |
| `Tracking.UntrackLaw` | src/snapshot2.rs:269-284 | Forgetting a range that exists succeeds, makes exactly the pages it touches dirty and drops them from the record. |
| `Tracking.MarkKeepsSound` | src/snapshot2.rs:148-159 | Marking a program whose segments are in memory succeeds and keeps the record sound. |
| `Tracking.LoadedAll` | src/machine/mod.rs:136-174 | After a load that succeeded every segment is in memory, if they lie on pages of their own. |
| `Tracking.InitLoads` | src/machine/mod.rs:144-168 | Loading a segment puts its slice of the program in memory. |
| `Tracking.InitKeepsLoaded` | src/machine/mod.rs:144-168 | Loading another segment, on pages apart from it, leaves it there. |
| `Snapshot2.Snapshot2Context.TrackPages` | src/snapshot2.rs:242-267 | Exactly the whole pages of the range are recorded, with their source offsets and flags, and cleaned; a page that does not exist stops it there with its error. |
| `Snapshot2.Snapshot2Context.UntrackPages` | src/snapshot2.rs:269-284 | Exactly the pages the range touches are made dirty and forgotten; a page that does not exist stops it there. |
| `Snapshot2.Snapshot2Context.StoreBytes` | src/snapshot2.rs:117-134 | Record, memory and result after every outcome: no data, a failing length store, a failing untrack, a failing store, success; it succeeds exactly if the source has the data and both ranges may be written, and then memory is the old one with the full length and then the data written. |
| `Snapshot2.Snapshot2Context.MarkProgram` | src/snapshot2.rs:148-159 | The segments are recorded in order, up to the first failure. |
| `Snapshot2.Snapshot2Context.MakeSnapshot` | src/snapshot2.rs:162-223 | The loops gather the runs in page order; it fails exactly when a recorded page does not exist. |
| `Snapshot2.Snapshot2Context.Resume` | src/snapshot2.rs:52-105 | From a sound snapshot a fresh machine gets back all bytes, flags, the reservation, registers, pc and cycles, and the record of clean pages; what it does to memory is a list of operations read off the snapshot; a wrong version changes nothing. |
| `Snapshot2.LoadBinary` | src/machine/mod.rs:136-174 | The segments are initialised in order, up to the first failure. |
| `Snapshot2.HandleAll` | src/snapshot2.rs:52-284 | Any session, done in place on machine and context, leaves the record and the machine of the model session. |
| `Snapshot2.SuspendAndResume` | src/snapshot2.rs:52-223 | If the record is sound, suspend and resume give back the whole machine and the record of every clean page, and the snapshot of the resumed machine is the same snapshot. |
| `Snapshot2.SuspendSession` | src/snapshot2.rs:52-284 | From a new machine through any session to a snapshot and a second machine: if every load, mark and reset kept the record sound, the second machine is the first one, and for every number of turns both run alike, the exit code apart. |
| `Snapshot2.RunsOn` | src/snapshot2.rs:52-105 | Running on from the resumed machine is running on from the suspended one, exit codes apart; with them, if and only if the code was 0, or the run fails, or the program exits in it. |
| `Witnesses.ExitCodeLost` | src/snapshot2.rs:52-105 | A machine with an exit code on which the two runs differ. |
| `Snapshot2.RunOn` | src/snapshot2.rs:52-284 | Any later events, done on both machines, leave both in the same state, exit codes apart, and with the same snapshot unless one was a reset; the codes are the same if and only if the first was 0 or the program exited. |
| `CrossCores.ResumesAlike` | src/machine/asm/mod.rs:412-661 | The operations of a resume leave the assembly core's memory alike to the interpreter's. |
| `CrossCores.ResumeOnBoth` | src/snapshot2.rs:52-105 | A machine suspended on either core and resumed on both: the interpreter's memory is the suspended one, the assembly core's is alike, and under any further accesses they reply and fault alike exactly as long as none parts them. |
| `Snapshot2.LoadAndMark` | src/machine/mod.rs:701-737 | The documented order, loading with arguments and then marking, keeps the record sound when the segments lie below the stack on pages of their own, whatever the outcome; on success the machine is at the entry point with its stack pointer at the laid out stack, and nothing but registers, pc and memory has changed. |
| `Snapshot2.Initialize` | src/machine/mod.rs:701-737 | The last quarter of memory becomes the stack: succeeds, if that may be written, exactly if the arguments fit, sets the stack pointer and changes nothing below. |
| `Snapshot2.ResetIsNew` | src/machine/mod.rs:421-430 | A reset machine is a new one of the same size, but for the next pc, the running flag, the reset signal and the exit code. |
| `Restoring.AllBack` | src/snapshot2.rs:68-105 | What no run covers was never touched, so memory is back as a whole. |
| `Stack.StackMachine.PushStrings` | src/machine/mod.rs:216-232 | Every string lies with its zero between the new and the old stack pointer, which moved down by exactly their room, and nothing outside was written. If that room exists and may be written it succeeds, unless from version 2 on the last string lies below the stack, which is the error. |
| `Stack.StackMachine.PushWords` | src/machine/mod.rs:254-267 | The values lie in order above the stack pointer; it succeeds if their room may be written. |
| `Stack.StackMachine.PushAligned` | src/machine/mod.rs:242-272 | They end on the 16-byte boundary below, inside the stack; if the room may be written it fails exactly if that is below the stack. |
| `Stack.StackMachine.InitializeStack` | src/machine/mod.rs:186-273 | If the stack may be written it succeeds with arguments exactly if the 16-byte boundary below strings and values is inside the stack, and without always; if memory may be written down to that boundary, the only error is that of the stack. On success the stack pointer is the 16-byte boundary below strings and values, inside the stack; count, pointers, null and strings are laid out, and nothing outside was written. Without arguments nothing is written at all. On every outcome the pages it changed are dirty. |
| `Stack.StringFromExact` | src/memory/mod.rs:155-170 | What is read is a string without zeros, followed by one; the error is exactly that no zero follows in memory. |
| `Stack.LoadCString` | src/memory/mod.rs:155-170 | The bytes up to the next zero, or the error of running off memory. |
| `Stack.FlattenedArgsReader.Next` | src/machine/mod.rs:881-907 | One argument per call, none after the last, and no progress on an error or after the last. |
| `Stack.CountAndNull` | src/machine/mod.rs:233-267 | The count is at the stack pointer and a null pointer follows the last argument pointer. |
| `Stack.ArgumentsRoundTrip` | src/machine/mod.rs:186-273 | Any nonempty list of arguments without zero bytes is read back in order through argc and argv; if the stack may be written, exactly those that fit are laid out. |

## Left out

- The bit-field factories (src/instructions/i.rs, m.rs, a.rs, b.rs, rvc.rs): large tables; a factory is an arbitrary function from bits to an instruction of length 2 or 4.
- The packed 64-bit instruction formats of src/instructions/mod.rs: instructions are a datatype with one constructor per format, and their pack and unpack functions would only add easy members.
- The remaining register instructions (logic, shifts, bit manipulation): one oracle of opcode and operands, which is all the run theorems need.
- The bodies of the atomic memory operations: one oracle; that they load, write a register and store is modelled.
- ELF parsing: a loading action is a value; that segments lie on pages of their own is a hypothesis of `Snapshot2.LoadAndMark`, not of the session theorems.
- Versions 0 and 1: only as a parameter of the fusion guards; their load bounds, JALR order and truncated trace addresses are not modelled.
- 32-bit registers, except that carry-less multiplication is for any width and 32-bit division is its own reference.
- Chaos mode, pausing, threads, profiling and the x64 and riscv64 assembly.
- The memoised and dynamic traces of the assembly core, and its dispatch through labels.
- src/snapshot.rs: a simpler form of what is modelled.
- 64-bit wrap-around of data-source offsets in src/snapshot2.rs: offsets are naturals.
- Stack.StackMachine.InitializeStack: takes the arguments as byte strings; an argument iterator that yields an error, which ends the call with that error, is not modelled.
- Traces.TraceMachine.RunTraces: takes a number of loop turns, because a run need not end; the theorem is for every number, and `Traces.TraceMachine.RunWithDecoder` ends by itself where every instruction costs something.
- InPlaceRuns.RunInPlace: takes a number of turns for the same reason.
- InPlaceRuns.TurnInPlace: what host code has changed that fails itself is not promised, only its error.
- Sessions.EventsExact: host code that fails itself ends the session, because what it did is not modelled; host code that sets or clears page flags itself is not among the events.
- The other bits of the page flag byte: the model has the three the VM gives a meaning to; bits a host sets beside them are not modelled.
- The byte counts that loading a program and its stack return.
- Decoders.DefaultDecoder.LookAhead: decodes up to five instructions at once where the rules decode one by one; only the contents of the cache differ, not their coherence.
