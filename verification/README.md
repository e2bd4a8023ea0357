# A verified model of rv64_emulator

rv64_emulator is an RV64IMA full-system emulator. This project models its hard core in Dafny and proves, for all
inputs and over all runs, what that core is for. `dafny verify dfyconfig.toml` checks everything.

Each part has a specification on values and, where the source changes state step by step, a class or method with
loops that is proved against it. The theorems are about the specification, so they hold of the classes.

| part | files |
|---|---|
| words, bit-fields, runs | `Words`, `BitWords`, `BitLaws`, `Runs`, `Guard` |
| instruction semantics, wide arithmetic | `Isa`, `WideArith`, `AluExec` |
| the host instruction set, and the translator from RV64 to A64 | `A64`, `JitCode`, `JitSelect`, `JitSpill`, `JitSim`, `JitJump`, `JitMem`, `JitFrame`, `JitBlock`, `JitValues`, `JitHazard`, `JitHarm`, `JitInterp`, `JitEmitter` |
| CSR file, traps, privilege, ticks, executor | `Csr`, `Traps`, `Hart`, `Interrupts`, `Exec`, `ExecLaws`, `Ticks`, `LrSc`, `Cpu` |
| DRAM, page tables, TLB, MMU | `Ram`, `Sv39`, `Tlb`, `Mmu`, `MmuUnit`, `Transparency` |
| effects, in numbers | `JumpEffects`, `MemoryEffects`, `WalkEffects`, `AccessEffects`, `TrapEffects`, `SystemEffects`, `TickEffects` |
| interrupt controller | `Plic`, `PlicDevice` |
| LRU cache | `Lru` |

**How the translator is modelled.** Emitted code is a sequence of values of type `A64.Ins`, run by a small A64 machine
with 31 registers, sp, flags, a stack, the CPU object's fields and the guest memory system. All branches go forward,
so a taken branch skips to its label. `Emitter.Translate` produces exactly the code whose runs are analysed; that
analysis covers every operand choice, and `HazardFree` then says, on the decoded instruction alone, when the result is
the interpreter's. The condition is proved sufficient and necessary.

**How the machine is modelled.** `Hart` is the architectural state, `Execute` the executor, `Tick` one clock tick with
the interrupt lines and the clock as inputs. The decoder is an arbitrary function. Memory is a record of functions;
the theorems on ticks hold for every lawful one, and the MMU with its TLB and DRAM is proved to be one. The machine with
this MMU is then proved to be the machine without a TLB, for all software that never meets a translation it should
have flushed; that is judged on the machine without a TLB and leaves software free to change live tables and roots.

**Effects.** The specification functions are themselves held to what they must compute: the effects files state, for
every input, the pc, register values, CSR bits, table words and bytes each operation reads and leaves, in plain numbers
and without the functions the rest of the model is built from.

## Where the code departs from its standards

The model follows the code. Each departure is proved as an exact condition, and at a concrete input.

- Immediate forms write the immediate to rd before reading rs1; spilled operands use x1, x2 and x0 even if another
  operand lives there; REM and MULHSU overwrite rd midway; AUIPC passes pc + imm through 32 bits; JALR forms its target
  in rd; stores stage the address in x0; jumps that link to x0 store pc 0, because the target is formed in the zero
  register. These are the hazards of `HazardFree`. The AND of a JALR that links to x0 has no A64 encoding with the zero
  register as destination; it is taken to have no effect.
- Translated straight-line code never advances the guest pc: after a block the pc is the target of its last jump, or
  the pc at entry, where the interpreter has also moved past the instructions after it.
- MULHSU is one too low when rs1 is negative, rs2 is nonzero and the low half of the product is zero.
- The vector mode of mtvec and stvec is applied to exceptions too, and modes 2 and 3 multiply the cause as well
  (section 3.1.7 of the RISC-V Privileged Architecture).
- HandleInterrupt ranks all pending interrupts before it looks at delegation, so a delegated interrupt can hide one
  that belongs to M (section 3.1.9 of the RISC-V Privileged Architecture).
- A leaf's ppn_2 passes through a 9-bit field, so frames above it are truncated.
- In the interrupt controller source 0 takes part in the selection and can win it, in which case none is reported.
- Set on a resident key of a full LRU cache with capacity 2 or more goes on to evict, and duplicates the key's node.

## Model

| member | source | states |
|---|---|---|
| `JitInterp.TranslationMatchesExecutor` | src/jit/jit.cc:125-1208 | for every hazard-free block that the executor, driven as TickOperate drives it, interprets without a trap, running prolog, body and epilog on any host leaves all 32 guest registers and the memory system as interpreting the block does, adds the block length to instret, and gives back host x0-x30, sp and the stack; the pc is behind by the size of the code after the last jump, so it is the interpreter's exactly when that size is 0 modulo 2^64 |
| `JitInterp.InterpretIsGuest` | src/cpu/cpu.cc:194-223 | interpreting a block with the pc advance and the clearing of x0 around every instruction is the guest-level fold, with the pc moved past the code after the last jump |
| `JitInterp.PcRightAfterJumps` | src/jit/jit.cc:721-833 | below 2^62 instructions that size is 0 exactly for an empty block and for one that ends in a jump |
| `JitInterp.AddiLeavesPc` | src/jit/jit.cc:664-719 | the translation of a block of one ADDI leaves the guest pc where it was |
| `JitInterp.AddiMovesPc` | src/cpu/cpu.cc:194-223 | the interpreter moves it on by 4 |
| `JitInterp.ExecuteIsGuest` | src/cpu/executor.cc:77-435 | the reference semantics used for the translator is the executor: same trap-or-not, same registers, pc and memory, nothing else touched, for every instruction the translator handles |
| `JitHazard.TranslationSimulates` | src/jit/jit.cc:125-1163 | the same simulation against the guest-level reference, for every hazard-free block |
| `JitHazard.HazardFreeSuffices` | src/jit/jit.cc:212-1163 | in every guest state a hazard-free instruction is translated to code with the interpreter's effect and the interpreter's trap-or-not |
| `JitHarm.HazardHarms` | src/jit/jit.cc:212-1163 | the condition is exact: for every instruction it excludes there is a guest state and a memory system in which the emitted code does not trap and the two disagree |
| `JitHarm.HazardShows` | src/jit/jit.cc:125-1208 | necessity on the machine: for every excluded instruction there is a host on which its translated block, prolog and epilog included, runs to its end and does not return the interpreter's state |
| `JitHarm.RegHarms` | src/jit/jit.cc:212-619 | every register form with a lost result, a clobbered source or a harmful alias computes a wrong value in some state |
| `JitHarm.ZeroLinkHarms` | src/jit/jit.cc:768-786 | unless rs1 is x0 and the target is 0, there is a state in which a JALR that links to x0 stores pc 0 and the interpreter does not |
| `JitHazard.AuipcValue` | src/jit/jit.cc:658-662 | folding pc into the 32-bit immediate gives pc + imm exactly when pc + imm, wrapped to 64 bits, is the sign extension of a 32-bit value |
| `JitBlock.BlockRuns` | src/jit/jit.cc:125-174 | for every block, hazards included: the translated function has exactly the effect of the emitted instructions and restores the host |
| `JitBlock.InsRuns` | src/jit/jit.cc:1165-1208 | each emitted sequence moves matching guest and host states to matching states, for any operands |
| `JitFrame.PrologRuns` | src/jit/jit.cc:125-147 | after the prolog every mapped host register holds its guest register, x29 the CPU object, and the frame holds host x0-x30 |
| `JitFrame.EpilogRuns` | src/jit/jit.cc:149-174 | after the epilog the cells hold all 32 guest registers, instret has grown by the count, and x0-x30, sp and the caller's stack are as at entry |
| `JitFrame.CommitRuns` | src/jit/jit.cc:919-945 | adds the count to instret modulo 2^64 and changes nothing else at or above sp |
| `JitMem.LoadRuns` | src/jit/jit.cc:965-1060 | a non-trapping load passes the interpreter's address and size to the helper and changes only rd, which gets the extended value, although the callee may leave anything in x0-x18, x30 and the flags |
| `JitMem.StoreRuns` | src/jit/jit.cc:1062-1163 | a non-trapping store passes size and data of the interpreter, and the staged address, and changes no guest register |
| `JitMem.SaveVolatileRuns` | src/jit/jit.cc:107-111 | x0-x18 go to the cells of the guest registers they stand for, and nothing else changes |
| `JitMem.RestoreVolatileRuns` | src/jit/jit.cc:113-117 | x0-x18 come back from those cells |
| `JitMem.SignExtendRuns` | src/jit/jit.cc:947-963 | x0 becomes the sign- or zero-extended value of the load |
| `JitJump.LuiRuns` | src/jit/jit.cc:621-656 | rd gets the sign-extended immediate, also when rd lives in memory; x0 writes nothing |
| `JitJump.JalRuns` | src/jit/jit.cc:721-766 | pc and link are set as the interpreter sets them, in registers or in memory; with rd = x0 the stored pc is 0 |
| `JitJump.JalrRuns` | src/jit/jit.cc:768-833 | the exact pc and link the emitted code leaves for every choice of rd and rs1, spilled or not |
| `JitSim.RegRuns` | src/jit/jit.cc:378-449 | register forms with spill code: the exact effect on the guest for every choice of rd, rs1, rs2 |
| `JitSim.Reg32Runs` | src/jit/jit.cc:547-619 | the same for the 32-bit register forms |
| `JitSim.ImmRuns` | src/jit/jit.cc:664-719 | the same for the immediate forms |
| `JitSim.Imm32Runs` | src/jit/jit.cc:863-917 | the same for the 32-bit immediate forms |
| `JitSelect.RegSelectRuns` | src/jit/jit.cc:212-328 | running the selected sequence, with its internal branches, sets rd alone, to a value given for every aliasing of rd with the sources |
| `JitSelect.MulhsuRuns` | src/jit/jit.cc:255-278 | every path through the MULHSU branches ends with rd alone changed |
| `JitSelect.Reg32SelectRuns` | src/jit/jit.cc:451-545 | the same for the 32-bit selector, with the result sign-extended |
| `JitSelect.ImmSelectRuns` | src/jit/jit.cc:330-376 | the same for the immediate selector, whose immediate passes through rd |
| `JitSelect.Imm32SelectRuns` | src/jit/jit.cc:835-861 | the same for the 32-bit immediate selector |
| `JitValues.RegValue` | src/jit/jit.cc:212-328 | without a harmful alias the selected sequence computes the interpreter's value: msub gives REM and REMU also for divisor 0 and MIN / -1, cmp and cset give SLT and SLTU |
| `JitValues.MulhsuValue` | src/jit/jit.cc:255-278 | neg, umulh, mvn gives the interpreter's MULHSU |
| `JitValues.Reg32Value` | src/jit/jit.cc:451-545 | the same for the 32-bit forms, including DIVW, REMW and their edge cases |
| `JitValues.ImmValue` | src/jit/jit.cc:330-376 | the immediate forms compute the interpreter's value when rd is not rs1 |
| `JitValues.Imm32Value` | src/jit/jit.cc:835-861 | the same for the 32-bit immediate forms |
| `JitCode.MapToA64` | src/jit/jit.cc:23-56 | gp and tp are the registers in memory, every other guest register has the home the proofs use |
| `JitCode.MapToRv64` | src/jit/jit.cc:58-64 | the reverse table is the inverse on x0-x28 |
| `JitEmitter.Emitter.constructor` | src/jit/jit.cc:119-123 | starts with no code, no labels and no count |
| `JitEmitter.Emitter.Translate` | src/jit/jit.cc:125-174 | prolog, a loop of Emit and epilog produce exactly the block code of the simulation theorem |
| `JitEmitter.Emitter.Emit` | src/jit/jit.cc:1165-1208 | accepts exactly the handled opcodes, appends exactly that instruction's code with fresh labels, and counts it |
| `JitEmitter.Emitter.EmitProlog` | src/jit/jit.cc:125-147 | the save and load loops append the prolog |
| `JitEmitter.Emitter.EmitEpilog` | src/jit/jit.cc:149-174 | the tag, the commit and the store and restore loops append the epilog |
| `JitEmitter.Emitter.CommitInstretCode` | src/jit/jit.cc:919-945 | appends the commit sequence for the current count |
| `JitEmitter.Emitter.SaveVolatileA64Reg` | src/jit/jit.cc:107-111 | the loop appends one store per volatile register |
| `JitEmitter.Emitter.RestoreVolatileA64Reg` | src/jit/jit.cc:113-117 | the loop appends one load per volatile register |
| `JitEmitter.Emitter.SelectA64RegInstruction` | src/jit/jit.cc:212-328 | appends the register selector's sequence and takes its labels |
| `JitEmitter.Emitter.SelectA64ImmInstruction` | src/jit/jit.cc:330-376 | appends the immediate selector's sequence |
| `JitEmitter.Emitter.SelectA64Reg32Instruction` | src/jit/jit.cc:451-545 | appends the 32-bit selector's sequence and takes its labels |
| `JitEmitter.Emitter.SelectA64Imm32Instruction` | src/jit/jit.cc:835-861 | appends the 32-bit immediate selector's sequence |
| `JitEmitter.Emitter.SelectSignExtendInstruction` | src/jit/jit.cc:947-963 | appends the extension a load needs, or nothing |
| `JitEmitter.A64Reg` | src/jit/jit.cc:85-89 | the table entry is the home of the register, or -1 for gp and tp |
| `JitEmitter.Emitter.EmitReg` | src/jit/jit.cc:378-449 | spill, select, unspill in the order the simulation is proved for |
| `JitEmitter.Emitter.EmitReg32` | src/jit/jit.cc:547-619 | the same for 32-bit register forms |
| `JitEmitter.Emitter.EmitImm` | src/jit/jit.cc:664-719 | the same for immediate forms |
| `JitEmitter.Emitter.EmitImm32` | src/jit/jit.cc:863-917 | the same for 32-bit immediate forms |
| `JitEmitter.Emitter.EmitLui` | src/jit/jit.cc:621-656 | the code the LUI simulation is proved for |
| `JitEmitter.Emitter.EmitAuipc` | src/jit/jit.cc:658-662 | LUI with the pc added into the 32-bit immediate |
| `JitEmitter.Emitter.EmitJal` | src/jit/jit.cc:721-766 | the code the JAL simulation is proved for |
| `JitEmitter.Emitter.EmitJalr` | src/jit/jit.cc:768-833 | the code the JALR simulation is proved for |
| `JitEmitter.Emitter.EmitLoad` | src/jit/jit.cc:965-1060 | the code the load simulation is proved for |
| `JitEmitter.Emitter.EmitStore` | src/jit/jit.cc:1062-1163 | the code the store simulation is proved for |
| `Mmu.Transparent` | src/cpu/mmu.cc:87-352 | over every run of fetches, loads, stores, flushes and resets in which no access meets an earlier translation that could answer for it, was not flushed since and disagrees with the tables, the unit with the TLB returns the same traps and values and leaves the same DRAM as one that walks on every access |
| `Transparency.MachineTransparent` | src/cpu/cpu.cc:194-244 | for every program, decoder, interrupt lines and clock, from any TLB without valid entries: if the software of the run, judged on the machine without a TLB, meets no unflushed translation that disagrees with the tables, the machine with the TLB reaches the same pc, privilege, registers, CSRs, reservation, instret and DRAM as the machine that walks on every access |
| `Transparency.FencePays` | src/cpu/executor.cc:520-531 | an SFENCE.VMA executed in S or M, paging on or off and whatever tables or roots have changed, takes out of the account exactly what it flushes, and with x0, x0 everything, so that software can change live tables and roots |
| `Transparency.FlushingSuffices` | src/cpu/executor.cc:520-531 | a run that translates only through tables and roots unchanged since its last SFENCE.VMA x0, x0, with globals that agree, keeps the discipline |
| `Transparency.DisciplinePrefix` | src/cpu/cpu.cc:225-244 | a run that keeps the discipline keeps it at every tick before, so the agreement holds at every tick |
| `Transparency.ExecuteFollows` | src/cpu/executor.cc:77-840 | every instruction, run on two memory systems that answer alike, has the same trap and the same effect on the hart and leaves them alike |
| `Transparency.TlbAnswers` | src/cpu/mmu.cc:157-352 | the MMU with the TLB answers as the walking one does, as long as the discipline is kept |
| `Mmu.TransparentFromBlank` | src/cpu/mmu.cc:69-72 | in particular from a unit without valid entries, as after construction, reset or a flush of everything |
| `Mmu.FlushRestores` | src/cpu/mmu.cc:207-222 | after a flush of its page for all address spaces an access keeps the discipline whatever was written to the tables |
| `Mmu.AllowedDisciplined` | src/cpu/mmu.cc:207-222 | flushing everything after each change of a table or root, before the next translation, with globals that agree across address spaces, keeps the discipline |
| `Mmu.StepExact` | src/cpu/mmu.cc:157-352 | one step: same answer, and every valid entry stays one of the translations made and not flushed |
| `Mmu.WalkerLocal` | src/cpu/mmu.cc:102-155 | the walk over any DRAM contents is local to pages, so a cached leaf speaks for its whole page |
| `Tlb.CoherenceKept` | src/cpu/mmu.cc:157-222 | once every match for an address agrees with its walk, no sequence of translations and flushes breaks that |
| `Tlb.AnswerExact` | src/cpu/mmu.cc:157-197 | if every unflushed translation that could answer for an address agrees with its walk, the TLB answers what the walk answers: hits, global hits of other address spaces, misses and non-canonical addresses |
| `Tlb.UnhonouredWrong` | src/cpu/mmu.cc:157-197 | the condition is exact: otherwise some TLB holding only such translations answers something else |
| `Tlb.TranslateAccounted` | src/cpu/mmu.cc:157-197 | a lookup with its round-robin fill caches nothing but translations made |
| `Tlb.FlushAccounted` | src/cpu/mmu.cc:207-222 | after a flush no valid entry is a translation the flush names |
| `Tlb.FlushHonours` | src/cpu/mmu.cc:207-222 | after a flush of page v for all address spaces no translation can betray an access to v |
| `Tlb.FlushHonoursAsid` | src/cpu/mmu.cc:207-222 | after a flush of (v, a), a nonzero, only a global page of another address space can |
| `Tlb.LookUpFinds` | src/cpu/mmu.cc:87-100 | the lookup returns the first matching entry, or none exactly when no entry matches |
| `Tlb.FlushPage` | src/cpu/mmu.cc:207-222 | after a flush of page v for all address spaces no entry answers for v under any of them |
| `Tlb.FlushPageOfAsid` | src/cpu/mmu.cc:207-222 | after a flush of (v, a), a nonzero, what still answers for (a, v) is a global entry of another address space |
| `Tlb.FlushAll` | src/cpu/mmu.cc:207-222 | a flush of everything leaves no valid entry |
| `Sv39.PageTableWalk` | src/cpu/mmu.cc:102-155 | the loop over the three levels computes the recursive walk, with every fault case |
| `Sv39.WalkLocal` | src/cpu/mmu.cc:102-155 | every address of the page a walk ends in walks to the same leaf |
| `Sv39.WalkSize` | src/cpu/mmu.cc:102-155 | a leaf found at level i has the page size of that level and is not misaligned |
| `Sv39.MappedAddress` | src/cpu/mmu.cc:40-58 | for every walk that ends in a leaf, the mapped address lies in the leaf's frame at the page offset, without carry, for 4 KiB, 2 MiB and 1 GiB pages, and is the architectural address exactly when ppn_2 < 512 |
| `Sv39.FarPage` | src/cpu/mmu.cc:40-58 | a page table at 0x80000000 whose gigapage leaf has ppn_2 = 0x200: mapped to physical address 0 instead of 0x8000000000 |
| `Sv39.FarDram` | src/cpu/mmu.cc:102-155 | one page of DRAM that holds it |
| `Sv39.FrameAligned` | src/cpu/mmu.cc:47-58 | the frame of an aligned leaf is a multiple of its page size |
| `Sv39.TagIsPage` | src/cpu/mmu.cc:60-67 | the two-step shift is division by the page size |
| `MmuUnit.Sv39Unit.constructor` | src/cpu/mmu.cc:69-72 | an empty TLB in front of the given DRAM |
| `MmuUnit.Sv39Unit.LookUpTlb` | src/cpu/mmu.cc:87-100 | the loop finds the first match |
| `MmuUnit.Sv39Unit.GetTlbEntry` | src/cpu/mmu.cc:157-197 | answers and refills as the cache specification, in place |
| `MmuUnit.Sv39Unit.Fill` | src/cpu/mmu.cc:179-196 | one entry is replaced in place, round robin |
| `MmuUnit.Sv39Unit.FlushTlb` | src/cpu/mmu.cc:207-222 | the loop invalidates in place exactly the entries the flush names |
| `MmuUnit.Sv39Unit.Reset` | src/cpu/mmu.cc:224-228 | empties the TLB and clears DRAM |
| `MmuUnit.MmuDevice.Fetch` | src/cpu/mmu.cc:245-289 | permission checks, translation and bus access give exactly the reply and state of the specification, faults included |
| `MmuUnit.MmuDevice.Load` | src/cpu/mmu.cc:291-320 | the same for loads, with MXR and MPRV |
| `MmuUnit.MmuDevice.Store` | src/cpu/mmu.cc:322-352 | the same for stores, with the dirty bit |
| `MmuUnit.MmuLawful` | src/cpu/mmu.cc:245-352 | fetches, loads and failing stores leave DRAM alone |
| `MmuUnit.MachineLawful` | src/cpu/cpu.cc:194-244 | decoder, executor and this MMU together meet every hypothesis of the theorems on ticks |
| `Ram.StoreThenLoad` | src/device/dram.cc:25-41 | a store is read back and no other byte of DRAM moves |
| `Ram.BytesRoundTrip` | src/device/dram.cc:25-41 | little-endian bytes and value are inverse |
| `Hart.TrapReturn` | src/cpu/cpu.cc:78-134 | from U, S or M and for every trap, the matching return restores pc, privilege, MIE, SIE and all of mstatus outside the stack fields and MPRV; a trap taken by S with TSR set is the one exception, and there SRET is illegal and changes nothing |
| `Hart.NestedContextKept` | src/cpu/cpu.cc:225-244 | an interrupt taken in the tick of an exception goes to M while the exception went to S, and leaves sepc, scause, stval, SIE, SPIE and SPP alone |
| `Hart.NestedReturn` | src/cpu/executor.cc:533-581 | MRET then SRET (TSR clear) lead back to the trapping instruction, its privilege, MIE and SIE |
| `Hart.SecondTrap` | src/cpu/cpu.cc:136-180 | after an exception an interrupt is possible only if the exception went to S, and it goes to M |
| `Hart.TakenByS` | src/cpu/cpu.cc:78-134 | a delegated trap records epc, cause and value for S and stacks the S fields only |
| `Hart.TakenByM` | src/cpu/cpu.cc:78-134 | any other trap does so for M and leaves the S records alone |
| `Hart.OnlyMachineInterrupts` | src/cpu/cpu.cc:136-180 | in S with SIE off the only interrupts taken go to M |
| `Hart.StatusWrites` | src/cpu/csr.cc:63-128 | entering a trap through the masked sstatus or mstatus write changes exactly the intended fields |
| `Hart.StatusReturns` | src/cpu/csr.cc:63-128 | so does leaving one |
| `Interrupts.ChosenExact` | src/cpu/cpu.cc:136-180 | the interrupt taken is the one of section 3.1.9 of the RISC-V Privileged Architecture exactly when no machine-level interrupt is hidden behind a delegated one of higher rank |
| `Interrupts.ShadowedMissed` | src/cpu/cpu.cc:136-180 | in S with SIE off such a hidden interrupt is not taken at all, and this is the only case in which one is due and none is taken |
| `Interrupts.ShadowedTimer` | src/cpu/cpu.cc:136-180 | a concrete legal state, three CSR writes after reset: delegated external interrupt, supervisor timer interrupt that belongs to M, hart in S |
| `Traps.RankInterrupts` | src/libs/utils.cc:86-103 | the loop returns the highest-ranked pending interrupt, or none exactly when none is pending |
| `Traps.TrapPcExact` | src/cpu/trap.cc:7-11 | the handler address is that of section 3.1.7 of the RISC-V Privileged Architecture exactly for direct mode, cause 0, and vectored interrupts |
| `Traps.VectoredException` | src/cpu/trap.cc:7-11 | an illegal instruction with tvec 0x80000001 goes to 0x80000008 instead of 0x80000000 |
| `Traps.VectorOffsetIs` | src/cpu/trap.cc:7-11 | the offset is four times cause times mode |
| `Ticks.PreciseTick` | src/cpu/cpu.cc:194-244 | if the instruction of a tick traps, x1-x31 and DRAM are unchanged after the whole tick, the trap is taken from the privilege the tick began with, and the level that takes it holds the instruction's own address and cause |
| `Ticks.NestedTick` | src/cpu/cpu.cc:225-244 | the nesting theorem for a whole tick, with both handlers' start addresses, up to the return to the interrupted instruction |
| `Ticks.ContextRecorded` | src/cpu/cpu.cc:225-244 | epc, cause and value recorded by the exception survive the rest of the tick |
| `Ticks.PrivilegeRisesByTrap` | src/cpu/cpu.cc:225-244 | along every run, privilege rises only in ticks that take a trap or an interrupt |
| `Ticks.QuietTick` | src/cpu/cpu.cc:225-244 | a tick that takes none does not raise privilege |
| `Ticks.RunKeepsHartOk` | src/cpu/cpu.cc:225-244 | along every run the register file stays legal and x0 stays 0 |
| `Ticks.TickKeepsOk` | src/cpu/cpu.cc:225-244 | one tick keeps that invariant |
| `Ticks.OperateOk` | src/cpu/cpu.cc:194-223 | fetch, decode and execute leave everything architectural alone when they report a trap, never raise privilege, and keep the register file legal |
| `ExecLaws.ExecuteOk` | src/cpu/executor.cc:77-840 | for every decoded instruction: if a trap is returned, registers, CSRs, pc, privilege and DRAM are unchanged; privilege never rises; a legal register file stays legal |
| `ExecLaws.ExecutorLawful` | src/cpu/executor.cc:790-840 | so every world built from this executor satisfies the hypotheses of the theorems on ticks |
| `ExecLaws.MemoryOk` | src/cpu/executor.cc:386-435 | loads and stores are precise |
| `ExecLaws.AtomicOk` | src/cpu/executor.cc:626-788 | LR, SC and the read-modify-write forms are precise, also when the store half faults |
| `ExecLaws.CsrInstructionOk` | src/cpu/executor.cc:437-498 | CSR instructions are precise, keep privilege, and keep the register file legal |
| `ExecLaws.ReturnOk` | src/cpu/executor.cc:533-581 | MRET and SRET never raise privilege and are precise when illegal |
| `ExecLaws.SystemOk` | src/cpu/executor.cc:583-619 | so are all system instructions |
| `LrSc.ScIsPaired` | src/cpu/executor.cc:626-690 | along every run, an SC writes 0 only if the latest LR or SC that was not rejected was an LR of exactly its address and width on this hart |
| `LrSc.OneScPerLr` | src/cpu/executor.cc:626-690 | between two successful SCs there is an LR of the second one's address and width, so an LR enables at most one SC |
| `LrSc.LiveTracksLast` | src/cpu/executor.cc:626-690 | a live reservation is always that of the latest event |
| `LrSc.ExecuteResv` | src/cpu/executor.cc:77-840 | only LR and SC touch the reservation; SC consumes it and reports 0 exactly when it matched |
| `LrSc.ExecutorResvLawful` | src/cpu/executor.cc:790-840 | the executor meets the hypothesis of the run theorems |
| `Csr.ReachableOk` | src/cpu/csr.cc:9-145 | after any sequence of writes and resets mip and mie are within 0xaaa, mideleg within 0x222, medeleg within 0xf7ff, satp.mode is 0 or 8, misa is the initial one, and every non-writable bit of mstatus, SXL and UXL included, is as at reset |
| `Csr.RunKeepsOk` | src/cpu/csr.cc:63-145 | the same as an invariant of every run |
| `Csr.WriteKeepsOk` | src/cpu/csr.cc:63-128 | one write keeps it |
| `Csr.WindowsKeepMachineBits` | src/cpu/csr.cc:63-128 | no sequence of writes through sstatus, sie and sip changes a bit that belongs to M, or any other register |
| `Csr.WindowReadsBack` | src/cpu/csr.cc:25-128 | after a write through one window, every window reads the written bits of its own and everything else as before |
| `Csr.WriteBack` | src/cpu/csr.cc:25-128 | writing back what was read changes nothing, for every register |
| `Csr.State.constructor` | src/cpu/csr.cc:9-23 | the initial register file |
| `Csr.State.ReadRegister` | src/cpu/csr.cc:25-61 | field by field, the masked views of the specification |
| `Csr.State.WriteRegister` | src/cpu/csr.cc:63-128 | field by field, the masked writes of the specification |
| `Csr.State.WriteMstatus` | src/cpu/csr.cc:63-128 | the mstatus case of it |
| `Csr.State.Reset` | src/cpu/csr.cc:134-145 | clears everything but misa and restores SXL and UXL |
| `Cpu.Processor.constructor` | src/cpu/cpu.cc:48-58 | M mode, pc 0, empty registers, the given MMU |
| `Cpu.Processor.TickOnce` | src/cpu/cpu.cc:225-244 | the object's tick is the tick all theorems above are about |
| `Cpu.Processor.TickOperate` | src/cpu/cpu.cc:194-223 | fetch, decode and execute in place, with WFI |
| `Cpu.Processor.SampleLines` | src/cpu/cpu.cc:225-234 | the four interrupt lines go to mip and nothing else changes |
| `Cpu.Processor.RetireOne` | src/cpu/cpu.cc:242-243 | instret and minstret advance together |
| `Cpu.Processor.TakeTrap` | src/cpu/cpu.cc:78-134 | delegation, records, status stack, pc and privilege as specified |
| `Cpu.Processor.TakeS` | src/cpu/cpu.cc:78-134 | the S half of it, through the masked sstatus |
| `Cpu.Processor.TakeM` | src/cpu/cpu.cc:78-134 | the M half of it |
| `Cpu.Processor.ChooseInterrupt` | src/cpu/cpu.cc:136-170 | the selection of the specification |
| `Cpu.Processor.ApplyInterrupt` | src/cpu/cpu.cc:172-179 | takes it, clears its pending bit and wakes the hart |
| `Cpu.Processor.TakeInterrupt` | src/cpu/cpu.cc:136-180 | both steps |
| `Cpu.Processor.Exec` | src/cpu/executor.cc:790-840 | dispatch: trap and new state are those of the executor specification, for every opcode |
| `Cpu.Processor.ComputeTypeExec` | src/cpu/executor.cc:790-840 | the computational opcodes |
| `Cpu.Processor.UpperTypeExec` | src/cpu/executor.cc:301-331 | LUI and AUIPC |
| `Cpu.Processor.RegTypeExec` | src/cpu/executor.cc:77-169 | register forms |
| `Cpu.Processor.Rv32TypeExec` | src/cpu/executor.cc:171-234 | 32-bit register forms |
| `Cpu.Processor.ImmTypeExec` | src/cpu/executor.cc:236-274 | immediate forms |
| `Cpu.Processor.Imm32TypeExec` | src/cpu/executor.cc:276-299 | 32-bit immediate forms |
| `Cpu.Processor.BranchTypeExec` | src/cpu/executor.cc:333-384 | branches |
| `Cpu.Processor.JalTypeExec` | src/cpu/executor.cc:306-314 | JAL |
| `Cpu.Processor.JalrTypeExec` | src/cpu/executor.cc:316-325 | JALR, reading rs1 before writing rd |
| `Cpu.Processor.LoadTypeExec` | src/cpu/executor.cc:386-420 | loads with their extensions and faults |
| `Cpu.Processor.StoreTypeExec` | src/cpu/executor.cc:422-435 | stores and their faults |
| `Cpu.Processor.CsrTypeExec` | src/cpu/executor.cc:437-498 | the six CSR forms, the allowed list, TVM and the clock |
| `Cpu.Processor.ECallExec` | src/cpu/executor.cc:500-518 | the trap of the current privilege |
| `Cpu.Processor.SfenceVmaExec` | src/cpu/executor.cc:520-531 | TLB flush or illegal instruction |
| `Cpu.Processor.MRetExec` | src/cpu/executor.cc:533-554 | MRET |
| `Cpu.Processor.SRetExec` | src/cpu/executor.cc:556-581 | SRET |
| `Cpu.Processor.SystemTypeExec` | src/cpu/executor.cc:583-619 | system instructions |
| `Cpu.Processor.AmoLrExec` | src/cpu/executor.cc:626-660 | LR with its rejection cases |
| `Cpu.Processor.AmoScExec` | src/cpu/executor.cc:662-690 | SC with its rejection cases |
| `Cpu.Processor.AmoRmwExec` | src/cpu/executor.cc:692-788 | load, combine, store, with both faults |
| `Cpu.Processor.AmoTypeExec` | src/cpu/executor.cc:692-788 | dispatch among the three |
| `WideArith.MulHiPortableExact` | include/libs/arithmetic.h:12-37 | for every half-width h >= 1, with every operation wrapped to its type, the result is floor(a * b / 2^(2h)) |
| `WideArith.MulHiPortable64` | src/libs/arithmetic.cc:8-34 | so the portable branch is the 64-bit high multiply |
| `WideArith.MulhExact` | src/cpu/executor.cc:118-124 | MULH through absolute values is exactly the signed high half, INT64_MIN included |
| `WideArith.MulhsuExact` | src/cpu/executor.cc:125-135 | MULHSU as computed, and it is exact except, and always inexact, when rs1 is negative, rs2 nonzero and the low half of the product zero |
| `WideArith.MulhsuWrongAt` | src/cpu/executor.cc:125-135 | -2^63 times 2: the high half is -1, the computed one -2 |
| `WideArith.DivRemLaws` | src/cpu/executor.cc:139-162 | for all operands, DIV and REM recombine to the dividend modulo 2^64 with the right bound and sign; divisor 0 and MIN / -1 included |
| `WideArith.DivuRemuLaws` | src/cpu/executor.cc:139-162 | the same for DIVU and REMU |
| `WideArith.DivRemWLaws` | src/cpu/executor.cc:196-227 | the same for DIVW and REMW on the low halves, with sign-extended results |
| `WideArith.DivuRemuWLaws` | src/cpu/executor.cc:196-227 | the same for DIVUW and REMUW |
| `AluExec.RegValue` | src/cpu/executor.cc:77-169 | the signed C++ expressions give the architectural values, except for the MULHSU case |
| `AluExec.Multiply` | src/cpu/executor.cc:114-138 | the four multiplications |
| `AluExec.DivideSigned` | src/cpu/executor.cc:139-162 | the guarded signed division equals the architectural one |
| `AluExec.Reg32Value` | src/cpu/executor.cc:171-234 | the 32-bit forms |
| `AluExec.DivideSignedW` | src/cpu/executor.cc:196-227 | the guarded 32-bit signed division |
| `AluExec.ImmValue` | src/cpu/executor.cc:236-274 | the immediate forms |
| `AluExec.Imm32Value` | src/cpu/executor.cc:276-299 | the 32-bit immediate forms |
| `Plic.Exclusive` | src/device/plic.cc:18-180 | while a context holds a source, no interleaving of wires, register accesses and other contexts' claims makes GetInterrupt on that context select it again, until the context completes it or the controller is reset |
| `Plic.PickIsBest` | src/device/plic.cc:28-48 | the loop ends with the lowest-numbered source of highest positive priority among those pending, enabled, unclaimed and at or above threshold |
| `Plic.BestUnique` | src/device/plic.cc:28-48 | there is only one such source |
| `Plic.ReportsExactly` | src/device/plic.cc:28-48 | true is returned exactly when some source above 0 is a candidate and beats source 0; with source 0 ineligible, exactly when there is a candidate |
| `Plic.SourceZeroWins` | src/device/plic.cc:28-48 | a run of register writes and wires after which source 0 wins and the candidate source 1 is not reported |
| `Plic.SelectsUnclaimed` | src/device/plic.cc:28-48 | a reported source is a candidate and not claimed |
| `Plic.ClaimHolds` | src/device/plic.cc:87-110 | reading the claim register returns the latched source and takes hold of it |
| `Plic.CompleteUndoesClaim` | src/device/plic.cc:146-173 | completing the source just claimed restores the controller |
| `Plic.WithMembers` | src/device/plic.cc:18-26 | setting and clearing a bit in the words adds and removes one source of a set |
| `Plic.TestBit` | src/device/plic.cc:28-48 | the mask test is membership |
| `Plic.RegisterMap` | src/device/plic.cc:51-173 | an aligned address names at most one register, and different addresses different ones |
| `Plic.WriteThenRead` | src/device/plic.cc:51-173 | every register but the claim register is a cell: a write is read back and no other register changes |
| `PlicDevice.Device.constructor` | src/device/plic.cc:9-16 | one context per hart and mode, everything clear |
| `PlicDevice.Device.UpdateExt` | src/device/plic.cc:18-26 | sets or clears one pending bit in place |
| `PlicDevice.Device.GetInterrupt` | src/device/plic.cc:28-48 | the loop latches the selected source and reports it |
| `PlicDevice.Device.Load` | src/device/plic.cc:51-110 | the value and the side effect of the specification, or refusal |
| `PlicDevice.Device.LoadContext` | src/device/plic.cc:87-110 | threshold and claim reads |
| `PlicDevice.Device.Store` | src/device/plic.cc:112-173 | acceptance and effect of the specification |
| `PlicDevice.Device.StoreContext` | src/device/plic.cc:146-173 | threshold writes and completion |
| `PlicDevice.Device.Reset` | src/device/plic.cc:175-180 | clears all state |
| `Lru.HitReturnsLastSet` | include/libs/lru.hpp:15-63 | in every run with capacity at least 1 the list stays within capacity, every map entry points at a listed node with its own key, and a hit returns the value most recently set since the last reset, duplicates or not |
| `Lru.SetSound` | include/libs/lru.hpp:28-53 | one Set keeps that |
| `Lru.GetRefines` | include/libs/lru.hpp:15-26 | Get is the reference on a recency list of pairs |
| `Lru.SetRefinesExactly` | include/libs/lru.hpp:28-53 | Set is the reference, and keeps list and map in bijection, exactly when it does not fall through from overwrite to eviction |
| `Lru.SetDuplicates` | include/libs/lru.hpp:42-53 | when it does, the list ends up with two nodes of that key |
| `Lru.SetAgain` | include/libs/lru.hpp:28-53 | capacity 2, two keys set, the first set again: both nodes carry its key |
| `Lru.RecencyOrder` | include/libs/lru.hpp:15-53 | in runs that never fall through, keys are distinct, map and list are in bijection and the list is ordered by last touch |
| `Lru.EvictsLeastRecent` | include/libs/lru.hpp:48-53 | a new key in a full cache displaces exactly the least recently touched key |
| `Lru.LruCache.constructor` | include/libs/lru.hpp:13 | an empty cache |
| `Lru.LruCache.Get` | include/libs/lru.hpp:15-26 | hit or miss, value and new list and map of the specification |
| `Lru.LruCache.Set` | include/libs/lru.hpp:28-53 | new list and map of the specification, on all four paths |
| `Lru.LruCache.Splice` | include/libs/lru.hpp:22 | the node found in the list goes to its front |
| `Lru.LruCache.MoveAndWrite` | include/libs/lru.hpp:35-37 | overwrite of a resident key |
| `Lru.LruCache.Evict` | include/libs/lru.hpp:48-52 | reuse of the last node |
| `Lru.LruCache.Reset` | include/libs/lru.hpp:57-63 | an empty cache of the same capacity |
| `JumpEffects.JalEffect` | src/cpu/executor.cc:306-314 | JAL leaves pc = (pc + imm) mod 2^64 and rd = (pc + size) mod 2^64, and nothing else |
| `JumpEffects.JalrEffect` | src/cpu/executor.cc:316-325 | JALR leaves pc = (rs1 + imm) mod 2^64 made even, from the rs1 of before |
| `JumpEffects.BranchEffect` | src/cpu/executor.cc:333-384 | each of the six branches, with its condition on the two register values, goes to pc + imm or pc + size modulo 2^64; any other token is illegal |
| `JumpEffects.UpperEffect` | src/cpu/executor.cc:301-331 | LUI and AUIPC in numbers |
| `JumpEffects.JumpTranslated` | src/jit/jit.cc:621-833 | the translated block of one LUI, AUIPC, JAL or JALR leaves exactly those numbers in pc and rd, every other register, memory and the host as before |
| `JumpEffects.JalHazardFree` | src/jit/jit.cc:721-766 | which covers every JAL that links |
| `MemoryEffects.LoadEffect` | src/cpu/executor.cc:386-420 | loads access rs1 + imm mod 2^64 with the width of the instruction; LB, LH and LW give the signed number in the low bytes, the others the data; a trap leaves rd |
| `MemoryEffects.StoreEffect` | src/cpu/executor.cc:422-435 | stores pass rs1 + imm mod 2^64, width and rs2 |
| `MemoryEffects.LrEffect` | src/cpu/executor.cc:626-660 | LR: refusals, reservation before the load, value of rd |
| `MemoryEffects.ScEffect` | src/cpu/executor.cc:662-690 | SC stores and writes 0 exactly on its own reserved address and width, writes 1 otherwise, and ends the reservation |
| `MemoryEffects.AmoCombines` | src/cpu/executor.cc:722-777 | the low bytes each of the eighteen operations stores: sum, swap, minimum and maximum in the signed or unsigned order of the width, and, or and xor bit by bit |
| `MemoryEffects.AmoEffect` | src/cpu/executor.cc:692-788 | an AMO makes one load and one store of that combination at rs1, rd gets the old content, sign-extended for the W forms, and every refusal and trap leaves rd |
| `AluExec.AmoCombine` | src/cpu/executor.cc:722-777 | the source's switch over the eighteen operations gives the specified values |
| `AluExec.Condition` | src/cpu/executor.cc:344-375 | the source's switch over the six branches gives the specified conditions |
| `WalkEffects.WalkEnds` | src/cpu/mmu.cc:102-155 | which words of DRAM the walk reads and what it concludes: a 1 GiB page exactly when the word at 0x1000 root + 8 (v / 2^30 mod 512) names one, a 2 MiB or 4 KiB page exactly when the words before name tables and the one at index v / 2^21 or v / 2^12 mod 512 names it, nothing otherwise |
| `WalkEffects.WalkIs` | src/cpu/mmu.cc:102-155 | the same as one function from root, address and DRAM to entry and page size |
| `WalkEffects.DecodedSpeaks` | src/cpu/mmu.cc:121-148 | valid, write-only, reserved, pointer, leaf and alignment tests as conditions on the entry as a number |
| `WalkEffects.PageMeans` | src/cpu/mmu.cc:47-58 | frame and permission bits of the page from the entry as a number |
| `WalkEffects.ThreeLevelsWalk` | src/cpu/mmu.cc:102-155 | a concrete table with indices 2, 3 and 5: 0x80605123 is mapped to 0x80003123 |
| `AccessEffects.LoadEffect` | src/cpu/mmu.cc:291-320 | trap, value and DRAM after a load, from satp, mstatus, table words and DRAM: physical with mode 0 and in M unless MPRV is set and MPP is another mode; otherwise a page fault unless the page has A and R, or A, MXR and X; then the DRAM content at frame plus offset, or an access fault |
| `AccessEffects.FetchEffect` | src/cpu/mmu.cc:245-289 | the same for fetches, through the tables outside M, with A, X and the U bit of the mode |
| `AccessEffects.StoreEffect` | src/cpu/mmu.cc:322-352 | the same for stores, with A, W and D, and the bytes written |
| `AccessEffects.SatpFields` | src/cpu/mmu.cc:102-112 | mode, address space and root are bits 60-63, 44-59 and 0-43 of satp |
| `AccessEffects.AccessUses` | src/cpu/mmu.cc:157-197 | a translation is cached under the address space of satp and with the G bit of its entry |
| `AccessEffects.SpacesSeparate` | src/cpu/mmu.cc:87-100 | private pages of other address spaces never answer |
| `AccessEffects.PagesSeparate` | src/cpu/mmu.cc:60-67 | nor do pages that do not contain the address |
| `AccessEffects.ResetEffect` | src/cpu/mmu.cc:224-228 | a reset empties the TLB and zeroes DRAM |
| `Tlb.FlushEffect` | src/cpu/mmu.cc:207-222 | a flush invalidates exactly the entries of the address space whose page contains the address, and keeps every other |
| `Tlb.FillEffect` | src/cpu/mmu.cc:179-196 | the fill replaces the entry at the index and steps it round |
| `Ram.LoadBytes` | src/device/dram.cc:25-32 | a load answers exactly inside window and storage, with byte k from address + k |
| `Ram.StoreBytes` | src/device/dram.cc:34-41 | a store answers in the same places, puts byte k at address + k and changes no other byte |
| `TrapEffects.TrapEffect` | src/cpu/cpu.cc:78-134 | every trap, from every state, in numbers: to S exactly when not from M and its bit is set in medeleg or mideleg; pc = (tvec / 4 * 4 + 4 * code * (tvec mod 4)) mod 2^64 from stvec or mtvec; epc, cause and value; the stack bits of mstatus; nothing else |
| `TrapEffects.EveryTrapCoded` | include/cpu/trap.h:42-67 | every trap has exactly one code of the architecture's tables |
| `TrapEffects.CodedIs` | include/cpu/trap.h:42-67 | and the model uses that code and that kind |
| `TrapEffects.InterruptEffect` | src/cpu/cpu.cc:136-180 | the first of 11, 3, 7, 9, 1, 5 that is pending, enabled and, in M, not delegated is taken if MIE, or SIE below a delegated one, lets it through; its mip bit is cleared and the hart wakes |
| `TrapEffects.NoInterruptEffect` | src/cpu/cpu.cc:136-180 | in every other case nothing happens |
| `TrapEffects.MretEffect` | src/cpu/executor.cc:533-554 | MRET in bits of mstatus, with pc and privilege |
| `TrapEffects.SretEffect` | src/cpu/executor.cc:556-581 | SRET in bits of mstatus, with pc and privilege |
| `Ticks.NestedStarts` | src/cpu/cpu.cc:225-244 | in a tick with exception and interrupt the S handler starts at stvec's entry and the M handler at mtvec's |
| `TickEffects.SampleEffect` | src/cpu/cpu.cc:225-234 | which line goes to which bit of mip |
| `TickEffects.RetireEffect` | src/cpu/cpu.cc:242-243 | instret and minstret count one up |
| `TickEffects.AsleepEffect` | src/cpu/cpu.cc:194-202 | a sleeping hart fetches nothing and wakes exactly when a pending interrupt is enabled |
| `TickEffects.AwakeEffect` | src/cpu/cpu.cc:204-223 | an awake one fetches four bytes at pc, reports a fetch trap or an unknown word, or executes with the pc moved on and clears x0 |
| `TickEffects.TickOrder` | src/cpu/cpu.cc:225-244 | sample, operate, trap with the pc of before, interrupt, retire |
| `TickEffects.PlainTick` | src/cpu/cpu.cc:225-244 | a tick without trap and due interrupt changes what its instruction changes, and counts |
| `TickEffects.TrappingTick` | src/cpu/cpu.cc:225-244 | a tick with a trap and no due interrupt ends in the handler of the trap, with the pc of the instruction recorded |
| `SystemEffects.MstatusEffect` | src/cpu/csr.cc:86-102 | which bits of mstatus are written |
| `SystemEffects.SstatusEffect` | src/cpu/csr.cc:25-75 | which of them sstatus reads and writes |
| `SystemEffects.InterruptRegisters` | src/cpu/csr.cc:44-85 | mie, mip, sie and sip bit by bit |
| `SystemEffects.DelegationRegisters` | src/cpu/csr.cc:103-108 | mideleg and medeleg bit by bit |
| `SystemEffects.SatpEffect` | src/cpu/csr.cc:63-128 | satp keeps its mode unless the new one is 0 or 8 |
| `SystemEffects.OtherRegisters` | src/cpu/csr.cc:25-128 | the read-only registers, and every other register is a cell |
| `SystemEffects.CsrRefused` | src/cpu/executor.cc:437-451 | CSR instructions outside the list, and on satp in S under TVM, are illegal and change nothing |
| `SystemEffects.CsrEffect` | src/cpu/executor.cc:453-498 | the others swap: rd gets the register as read, and the combination, bit by bit for the six forms, is written unless a set or clear form names 0 |
| `SystemEffects.EcallEffect` | src/cpu/executor.cc:500-518 | ECALL traps with code 8, 9 or 11 by privilege |
| `SystemEffects.EbreakEffect` | src/cpu/executor.cc:594-596 | EBREAK traps with code 3 |
| `SystemEffects.WfiEffect` | src/cpu/executor.cc:600-605 | WFI sleeps exactly when TW is set |
| `SystemEffects.SfenceEffect` | src/cpu/executor.cc:520-531 | SFENCE.VMA flushes for rs1 and the low 16 bits of rs2, or is illegal |
| `SystemEffects.ReturnsExecuted` | src/cpu/executor.cc:606-614 | MRET and SRET are dispatched |
| `Plic.AskEffect` | src/device/plic.cc:28-48 | GetInterrupt from the registers alone: the lowest-numbered source of highest priority among those with priority above 0 and not below the threshold, pending, enabled and not claimed, or 0 |
| `Plic.CandidateMeans` | src/device/plic.cc:36-40 | the conditions field by field |
| `Plic.RegisterMapOnto` | src/device/plic.cc:51-173 | and every register there is has its address, for as many contexts as the map has room for |
| `Plic.CompleteEffect` | src/device/plic.cc:146-173 | completion is accepted exactly for sources that exist and releases that source only |
| `Plic.ResetEffect` | src/device/plic.cc:175-180 | after a reset every register reads 0 and nothing is claimed |
| `Lru.ResetForgets` | include/libs/lru.hpp:57-63 | right after a reset every Get misses |

## Left out

- The translator's fault exit through epilog_tag_: nothing creates that label; reaching it stops the modelled host, and the theorems are about blocks whose memory accesses do not trap.
- EmitMov: nothing calls it.
- The machine-code encoding, executable memory and label resolution of asmjit.
- The host stack and the CPU object are separate regions of the A64 machine, which has no other memory.
- The inline-assembly branches of MulUint64Hi: taken to be the exact high multiply; the portable one is proved.
- The decoder and the instruction table: a decoded instruction is an input; for the translator its token fits its opcode and its immediate fits its format.
- Checks that are commented out or compiled only for unit tests: user/supervisor checks on loads and stores, CSR privilege checks, page-crossing checks, pc alignment.
- Devices other than DRAM on the bus, and its range search over several devices: one DRAM window.
- CLINT, UART, host timestamps, ELF loading, the main loop: the clock and the interrupt lines are inputs of a tick.
- Accesses to the interrupt controller that are not aligned and four bytes wide.
- Statistics counters, floating-point registers, fences.
- CPU::Reset.
- CPU and Executor are one class, and the MMU receives privilege, satp and mstatus as a value instead of reading them from the CPU object.
- The LRU list: nodes are identified by numbers in a sequence that the methods reassign, not by heap pointers.
- The CSR array is a sequence that the methods reassign, not an array updated in place.
