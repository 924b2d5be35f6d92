# Verified models of Musashi

Musashi emulates the Motorola 680x0 family in C. This project models its most intricate parts in Dafny and proves what
they are for. `dafny verify dfyconfig.toml` checks everything.

## What is modelled

**Address translation (PMMU).** A 22-entry address translation cache (ATC) stands in front of a 68030 walk of variable
depth and a 68040 walk of three levels. `Descriptors` is memory as the walks see it, one longword at an aligned
address; `Walk030` and `Walk040` are the walks with their U/M write-backs; `Atc` is the cache as a value; `Pack030`
and `Pack040` are the tag and data words; `TableWalks` says in plain numbers what the tables mean, where each longword
leads and when an access is denied, and proves that both walks give that answer; `Transparent` the masks of
transparent translation; `Translation` puts a cached and an uncached translator side by side; `Runs` proves that over
whole runs of accesses, PLOADs and flushes they give the same answers; `Pflush` says which translations the flush
instructions drop; `Pmove` is what PMOVE accepts as a translation control value; `Mmu` is the emulator's own form,
arrays and loops that update them in place, each method proved against the value model. `Examples` holds small tables
on which the cache and the walk disagree, or the walk goes astray.

**Exceptions.** `StatusRegister` keeps the flag words the emulator keeps instead of SR; `Stacks` is the active stack
pointer with its bank; `Exceptions` has the stack frames (three words on the 68000, formats 0, 1 and 2), exception
entry, RTE with its throwaway-frame loop, and the proof that RTE undoes entry; `Nesting` extends it to exceptions
inside handlers, to any depth, and to interrupts that RTE lets in before the interrupted code goes on; `Cpu` is the
processor object. `Ram` is the byte memory behind a 24- or 32-bit bus that wraps around, which the instruction modules
below use too.

**Integer instructions.** `Multiply` and `Divide` hold the two builds of MULL and DIVL, with and without 64-bit
integers; `Chains` and `ChainRuns` the multi-precision chains of ADDX.L, SUBX.L, ABCD and SBCD; `Rotates` the 33-bit
rotations through X in both builds; `LeftShifts` ASL with its overflow rule. Reference: M68000 Family Programmer's
Reference Manual, section 4.

**Bit fields and register lists.** `Bits` are words as bit strings; `BitFields` the bit-addressed view stored through
one to five bytes; `Movem` and `Fmovem` the register-list moves.

**Dispatch.** `Generator` computes masks, matches and bit counts as the generator does; `OpcodeTable` proves that the
builder's phased loops give every opcode its last matching entry in a table sorted that way.

**Self-contained cores.** `Float128` rounds and packs quadruple-precision results as IEEE Std 754-1985 sections 4.1,
4.2 and 7.3 to 7.5 prescribe, subnormal results included, with the sticky right shift of `Jamming`; `Sst` is the
writer and the loader of the unified test-vector format.

`Words`, `Powers` (with `Shifts`), `Bitwise` and `Registers` are shared ground.

## Results that go against the code

- The 68040 ATC keeps G, U0 and U1 in data bits 23-21, which also hold physical address bits 31-29. Cached and
  uncached translation agree on all runs exactly when every such descriptor bit that is set falls on an address bit
  that is set anyway (`Runs.RefinesExactly040`); `Examples.GlobalPageMisread` is a three-descriptor table where they
  do not. For the same reason PFLUSHN spares every page in the upper half of physical memory
  (`Pflush.FlushNonGlobal`).
- The 68030 ATC also keeps the result of a write that write protection stopped half way. Cached and uncached
  translation agree on all runs exactly when, for every such write, the entry it leaves is right for reads
  (`Runs.RefinesExactly030`), in particular when nothing is write protected (`Runs.UnprotectedRefines`);
  `Examples.ProtectedWriteMisread` is a case where they do not, with a TC value that PMOVE accepts.
- Only the third index level follows indirect descriptors, because the test for the last level also looks at the
  level's own width. In a tree of one or two levels an indirect descriptor is taken for a table, and the walk then
  shifts by 32 (`Walk030.IndirectAtThird`, `Walk030.ShortTreeLosesIndirect`; `Examples.IndirectMissed` is such a tree).
- PMOVE adds up IS, bits 19-4 and PS, but the walk takes its widths from bits 15-0, and the fourth of those, at bit 0,
  only after a shift by a negative count. What PMOVE accepts always fits in an address; it covers the whole address
  exactly when bits 19-16 are zero (`Pmove.AcceptedFits`, `Pmove.MissedField`). PS also shares its two low bits with
  the function code lookup and the separate supervisor root (`Pmove.PageSizeIsControl`).
- The DIVL build without 64-bit integers reports overflow for the signed quotient -2^31, except for 2^31 / -1
  (`Divide.BuildsAgree`, `Divide.BuildsDiffer`).
- The byte address of a memory bit field needs `7 - offset`, which overflows for the eight lowest bit offsets
  (`BitFields.PatchExact`).
- The test-vector loader loses its place exactly when the mnemonic is longer than 31 bytes (`Sst.LoadsWritten`,
  `Sst.HeaderAligned`): it cuts the length before it reads, and the bytes left over are taken for vectors.
- The exponent of a subnormal result reaches the right shift as a 16-bit number. Below -32767 that is another number,
  and the result is right exactly when shifting by it still moves the significand far enough, which depends on the
  rounding mode, the count and the significand (`Float128.RoundAndPack`). No caller in softfloat.c passes less than
  -16606, so this limits the function and not the emulator; `Float128.WrappedExample` is -65536, shifted by zero.

## Model

| member | source | states |
|---|---|---|
| Runs.RefinesFromFlushed | m68kmmu.h:697-1290 | for either MMU, every run of translations, PLOADs and flushes from a flushed ATC gives the addresses, fault decisions and memory of always walking, when each walk finds descriptor words in one role and leaves an entry that serves every access that can meet it |
| Runs.Refines | m68kmmu.h:697-1290 | the same from any coherent ATC, by induction over the run |
| Runs.RefinesExactly040 | m68kmmu.h:911-1290 | on the 68040 all runs agree with walking if and only if no set G, U0 or U1 bit of a page falls on a clear physical bit 31-29 |
| Runs.HarmfulAttributes | m68kmmu.h:911-940 | a page with such a bit is translated right once and wrong the second time |
| Runs.RefinesExactly030 | m68kmmu.h:560-779 | on the 68030 all runs of accesses, PLOADs and flushes from a flushed ATC agree with walking if and only if every write that only write protection stops, and whose page reads can meet, leaves a right entry: the read's own walk reaches the page of the protecting descriptor without a fault and with nothing to mark |
| Runs.UnprotectedRefines | m68kmmu.h:560-779 | so all runs agree where no descriptor is write protected |
| Runs.ProtectedWriteThenRead | m68kmmu.h:661-779 | the run of such a write and a read of its page agrees if and only if the entry is right: one half of the theorem over all runs |
| Translation.HitStopped | m68kmmu.h:382-438 | a hit on a right entry of a stopped write does what walking would, however much walks have marked since |
| Translation.RightStopGrows | m68kmmu.h:560-686 | a right entry stays right while walks add U/M bits |
| Examples.GlobalPageMisread | m68kmmu.h:911-940 | a global page in low physical memory on which cached and uncached reads differ |
| Examples.ProtectedWriteMisread | m68kmmu.h:761-774 | a protected write then a read on which the 68030 ATC and the walk differ, under a TC value that enables translation and that PMOVE accepts |
| Examples.IndirectMissed | m68kmmu.h:588-624 | a two-level tree, under a TC value PMOVE accepts, whose indirect descriptor is taken for a table and leads the walk out of range |
| TableWalks.Answers040 | m68kmmu.h:1059-1218 | on the 68040, with the longwords numbered: the root entry at (FC bit 2 set ? SRP : URP) + 4 * address bits 31-25, the pointer entry at its bits 31-9 + 4 * bits 24-18, the page entry at its bits 31-8 (31-7 for 8K) + 4 * the page index, at most four indirect pointers on; the access faults exactly when an entry is invalid, protected against the write, or a supervisor page for a user; else the answer is frame plus offset; and exactly the entries used gain U, and M when written |
| TableWalks.Answers030 | m68kmmu.h:560-779 | on the 68030, with the longwords numbered: from the supervisor root exactly when SRE and FC bit 2 are set, a four-byte entry at table + 4 * index leads to its own bits 31-4, an eight-byte one at table + 8 * index to those of its second longword, a table entry at the third level is an indirect pointer; the access faults exactly when that trail is denied, else the answer is page base plus remaining address bits; and exactly the descriptors on the trail are marked |
| TableWalks.Walk030Is | m68kmmu.h:560-686 | the same of the walk itself |
| TableWalks.BypassedBy | m68kmmu.h:697-715 | which registers can bypass the tables, in which order, and when a write faults |
| Examples.UserAndSupervisor | m68kmmu.h:1067-1075 | two 68040 trees: a user and a supervisor read of one address reach frames 0x5000 and 0x6000 |
| Examples.LongFormat | m68kmmu.h:628-646 | two 68030 trees of eight-byte descriptors behind CRP and SRP, under a TC value PMOVE accepts, and the frames user and supervisor reads reach |
| Translation.Step | m68kmmu.h:697-1290 | one cached translation answers as one walk does, changes memory as it does, and keeps every ATC entry traceable to a walk |
| Translation.LoadStep | m68kmmu.h:1329-1345 | PLOAD, which on the 68030 walks without looking in the ATC, leaves the memory of one walk and an ATC whose entries are all traceable to walks, in which a read of the same page hits |
| Translation.HitGood | m68kmmu.h:382-438 | a hit gives the address and fault decision of walking now, and walking now would write nothing |
| Translation.SecondWalk | m68kmmu.h:560-686 | a walk only adds U/M bits to descriptors; repeated at once it writes nothing and gives the same address and fault decision (both MMUs) |
| Translation.GrownAlike | m68kmmu.h:560-686 | U/M bits set by other walks change neither the address nor the fault decision of a walk |
| Translation.CachedKeepsInv | m68kmmu.h:697-779 | translation keeps valid tags distinct and the history open |
| Walk030.WalkAlike | m68kmmu.h:560-686 | a walk for the same page and function code over memory with more U/M bits takes the same path to the same page, level and fault decision, with the offset of its own address |
| Walk030.WalkGrows | m68kmmu.h:502-516 | a walk changes memory only by setting U, and M in page descriptors, of words in the descriptor role |
| Walk030.WalkQuiet | m68kmmu.h:502-686 | once done, a walk to the same page writes nothing, whatever other walks have marked since |
| Walk030.WalkResolves | m68kmmu.h:582-686 | a walk whose C shifts are in range ends in a page, an invalid descriptor or a violation within five descriptor reads, so the limit of seven never cuts it short |
| Walk030.WalkDefined | m68kmmu.h:560-686 | with one role per word and widths that fit, they are in range |
| Walk030.WalkMonotone | m68kmmu.h:502-686 | more U/M bits before a walk mean more after it, and a write stops at the same descriptor |
| Walk030.IndirectAtThird | m68kmmu.h:588-589 | a level follows indirect descriptors if and only if it is the third one and in use |
| Walk030.ShortTreeLosesIndirect | m68kmmu.h:588-624 | with one or two levels, a table-typed entry at the last level is taken for a table and the walk leaves the defined range |
| Pmove.AcceptedFits | m68kmmu.h:1447-1455 | every enabling TC value PMOVE accepts has pages of at least 256 bytes and fits after each index field, and its fields cover the whole address if and only if bits 19-16 are zero |
| Pmove.MissedField | m68kmmu.h:1447-1455 | two accepted values with two ten-bit fields, of which the walk sees one field and both |
| Pmove.PageSizeIsControl | m68kmmu.h:564-565 | which page sizes turn on the function code lookup and the separate supervisor root |
| Walk030.IndexIsField | m68kmmu.h:582-587 | the shifts pick the next field of the address below the bits consumed so far |
| Walk030.PageIsBase | m68kmmu.h:598-605 | a page reached with bits to spare maps a block: its aligned base plus the address bits not consumed |
| Walk030.SameIndex | m68kmmu.h:582-587 | table indices depend on the page number and function code only |
| Walk040.WalkAlike | m68kmmu.h:1059-1287 | as for the 68030: same page descriptor and fault decision over memory with more U/M bits |
| Walk040.WalkGrows | m68kmmu.h:1088-1218 | a walk changes memory only by setting U in the descriptors it visits, and M in nothing but the page descriptor a write reaches |
| Walk040.WalkQuiet | m68kmmu.h:1088-1218 | once done, a walk to the same page writes nothing |
| Walk040.WalkPhysical | m68kmmu.h:1143-1201 | a walk either faults or reaches a resident page whose frame, with the page offset, is the address |
| Walk040.ResolveAlike | m68kmmu.h:1159-1170 | the chain of at most four indirect pointers ends at the same place in memory with more U/M bits |
| Pack030.HitReads | m68kmmu.h:212-231 | the data word of a walk gives back its page, its fault decision and the modified flag |
| Pack030.TagSamePage | m68kmmu.h:215-215 | tags are equal if and only if page and function code are, for every page size from 256 bytes |
| Pack040.HitExact | m68kmmu.h:911-940 | a hit on the entry of a descriptor gives the walk's address if and only if its attribute bits are harmless |
| Pack040.FillFlags | m68kmmu.h:920-940 | the attribute bits never reach the fault, protection and modified flags above them |
| Pack040.TagSamePage | m68kmmu.h:914-914 | tags are equal if and only if page and function code are, and then the privilege is |
| Atc.RunKeepsInv | m68kmmu.h:182-281 | over every run of adds, lookups and flushes valid tags stay pairwise distinct, the history never fills, a victim with a clear bit exists, and the entry touched last is not it |
| Atc.TouchedIsNotVictim | m68kmmu.h:182-209 | touching an entry leaves a clear history bit, and the next victim is another entry |
| Atc.AddHolds | m68kmmu.h:212-268 | after an add, the ATC holds the new mapping and otherwise only what it held under other tags |
| Atc.AddForgets | m68kmmu.h:233-264 | an add forgets no other mapping while some entry is empty, and else only that of the first entry whose history bit is clear |
| Atc.LookupHolds | m68kmmu.h:382-438 | a lookup adds nothing; a miss leaves no entry of the tag |
| Atc.HitHolds | m68kmmu.h:388-432 | a hit returns a mapping the ATC holds, marked modified if the access writes |
| Atc.AddThenLookup | m68kmmu.h:212-438 | a read right after an add hits on the data added |
| Atc.FlushHolds | m68kmmu.h:345-375 | a selective flush drops exactly the mappings it selects |
| Atc.FlushAllKeepsInv | m68kmmu.h:270-281 | a full flush leaves no valid mapping |
| Pflush.FlushFc | m68kmmu.h:345-354 | PFLUSH by function code drops exactly the translations whose function code matches under the mask |
| Pflush.FlushFcEa | m68kmmu.h:356-371 | with an address, exactly those of them on the page of the address |
| Pflush.FlushPage | m68kmmu.h:1578-1598 | 68040 PFLUSH drops the translations of one page for every function code, and no others |
| Pflush.FlushNonGlobal | m68kmmu.h:1602-1627 | PFLUSHN spares the page's entry if and only if the page is global or in the upper half of physical memory |
| Transparent.Match030 | m68kmmu.h:444-496 | the masked comparisons hold if and only if the register is enabled, the privilege is right, address and function code agree in every bit the register does not mask, and the direction fits |
| Transparent.Match040 | m68kmmu.h:789-839 | the same for address and privilege, with a fault on a write to a protected region |
| Transparent.EqualUnder | m68kmmu.h:468-481 | two numbers are equal under the complement of a mask if and only if they agree in every bit the mask does not have |
| Transparent.MatchMasked | m68kmmu.h:789-839 | a register matches if and only if E is set, S allows the privilege, and the top address bytes agree under the complemented mask byte |
| Transparent.MatchMasked030 | m68kmmu.h:444-496 | and on the 68030 the function codes agree under their mask, and with RWM the direction is that of R/W |
| Mmu.Unit.Bypassed | m68kmmu.h:697-715 | when translation is bypassed, and with which fault decision |
| Mmu.Unit.SetBusError | m68kmmu.h:161-175 | bus errors are counted and the first one's address is latched |
| Mmu.Unit.UpdateHistory | m68kmmu.h:182-194 | after the update the entry's bit is set, some bit is clear, and the next victim is another entry |
| Mmu.Unit.FindVictim | m68kmmu.h:197-209 | the loop finds the first clear history bit |
| Mmu.Unit.Add | m68kmmu.h:233-264 | the three loops replace the entry of the tag, fill an empty one, or evict the victim |
| Mmu.Unit.Lookup | m68kmmu.h:382-438 | the search loop, which empties an entry a write finds unmodified and goes on, is the single-entry lookup |
| Mmu.Unit.FlushAll | m68kmmu.h:270-281 | every tag and the history are cleared |
| Mmu.Unit.Flush | m68kmmu.h:345-371 | exactly the selected tags are cleared |
| Mmu.Unit.UpdateDescriptor | m68kmmu.h:502-516 | the conditional writes amount to setting U, and M on a write to a page that is not protected |
| Mmu.Unit.UpdateSr | m68kmmu.h:518-549 | protection is gathered from every valid descriptor, the supervisor bit from long ones for user accesses |
| Mmu.Unit.Descend | m68kmmu.h:606-658 | one level of that walk: descriptor read, status gathered, U and M written back |
| Mmu.Unit.WalkTables | m68kmmu.h:560-686 | the level loop, shifting the address left as it goes, computes the recursive walk, which is the one of `TableWalks.Walk030Is`, and resolves within five levels |
| Mmu.Unit.AtcAdd030 | m68kmmu.h:212-268 | status bits and page number are packed and cached |
| Mmu.Unit.Walk040 | m68kmmu.h:1059-1287 | the root, pointer and page lookups compute the recursive walk; where it faults one bus error is counted, and its address latched if it is the first |
| Mmu.Unit.PageLevel | m68kmmu.h:1143-1218 | the indirection loop and the page checks compute the value-level page lookup, with one bus error where it faults |
| Mmu.Unit.AtcAdd040 | m68kmmu.h:911-977 | the page, its protection and its attributes are packed and cached |
| Mmu.Unit.Translate | m68kmmu.h:697-1290 | the whole translation in place is the cached translator of the runs; a bus error is counted exactly on a fault, the address latched is that of the first one, and the ATC invariant is kept |
| Mmu.Unit.Preload | m68kmmu.h:1329-1345 | PLOAD in place is the value-level load of the runs, with no bus error on the 68030 and that of a translation on the 68040 |
| Mmu.Unit.Miss030 | m68kmmu.h:729-773 | a walk and the entry it leaves; a fault counts one bus error and latches the first one's address unless PLOAD asked |
| StatusRegister.GetAfterSet | m68kcpu.h:2056-2067 | reading SR after setting v gives v masked with the implemented bits, in legal flag words |
| StatusRegister.Readable | m68kcpu.h:1054-1066 | a status register the emulator reads has implemented bits only |
| StatusRegister.SrDetermines | m68kcpu.h:1054-1066 | equal status registers mean equal mode, mask, trace and condition codes |
| StatusRegister.Layout | m68kcpu.h:1054-1066 | bit by bit where each flag is in the status register |
| Stacks.BankingIsInvisible | m68kcpu.h:1916-2067 | over every run of pushes, pulls and mode changes, USP, ISP and MSP behave as three independent registers, each moved only by what is pushed and pulled while it is selected |
| Stacks.SwitchKeepsPointers | m68kcpu.c:663-667 | a mode switch changes none of the three stack pointers as `m68k_get_reg` reports them |
| Exceptions.RteUndoesEntry | m68k_in.c:9796-9917 | after any exception and a handler that leaves frames, mode and stack pointers as it found them, RTE brings back PC, SR and all three stack pointers before it looks at interrupts: three-word frame, formats 0 and 2, and the throwaway pair |
| Exceptions.RteRestores | m68k_in.c:9796-9917 | with nothing pending above the restored mask, that is the state RTE leaves |
| Exceptions.RteInUserMode | m68k_in.c:9916-9916 | RTE with S clear leaves a frame with SR, the address of the RTE and vector 8 below the supervisor pointer and starts at the longword of vector 8 |
| Exceptions.RteFormatError | m68k_in.c:9873-9914 | an unknown frame format does so with the program counter and vector 14 |
| Exceptions.RteResumes | m68k_in.c:9806-9912 | every other format gives SR under the mask and PC from the stack and moves the pointer by 6, 8, 12, or 58 bytes for format 8 on the 68010, before looking at interrupts |
| Exceptions.RteDiscards | m68k_in.c:9890-9896 | a throwaway frame gives only the SR with which RTE starts again |
| Exceptions.EntryKeeps | m68kcpu.h:2096-2152 | exception entry writes its frames and no other memory |
| Exceptions.EnteredSingle | m68kcpu.h:2096-2152 | one frame with the interrupted SR and PC and the right format and vector word lies just below the supervisor pointer, which moved by its size |
| Exceptions.EntryGoesToVector | m68kcpu.h:2756-2826 | the handler starts at the longword at 4 * vector + VBR, an interrupt at (24 + level) * 4 + VBR or, when that is zero, at 60 + VBR; other exceptions unless their frame falls on the vector; in supervisor mode without tracing; an interrupt masks its level, leaves the master stack and is cleared |
| Exceptions.PendingGoesToVector | m68kcpu.h:2829-2838 | a pending NMI starts at vector 31 and is cleared, else a level above the mask starts at its own vector, else nothing happens |
| Exceptions.FramesAre | m68kcpu.h:2096-2152 | word by word what every exception of every family leaves on the stack: SR, PC or the instruction's own address, format and vector, and the second frame of an interrupt in master mode |
| Exceptions.TrapKeepsAddress | m68kcpu.h:2146-2152 | the six-word frame ends with the address of the instruction that trapped |
| Exceptions.EnteredPair | m68kcpu.h:2756-2826 | an interrupt in master mode leaves a format 0 frame on the master stack and a format 1 frame with S forced on on the interrupt stack, each with its vector word, and runs on the latter |
| Nesting.NestedReturns | m68k_in.c:9796-9917 | however deep exceptions nest, every orderly run gets through, every RTE restores what its exception interrupted and then resumes it or enters the handler of an interrupt still pending, and live memory is untouched |
| Cpu.Processor.SetSFlag | m68kcpu.h:2012-2020 | supervisor mode is on and none of USP, ISP and MSP has changed |
| Cpu.Processor.SetSmFlag | m68kcpu.h:2025-2034 | the mode is the one asked for and none of USP, ISP and MSP has changed |
| Cpu.Processor.WriteSrNoint | m68kcpu.h:2056-2067 | all flags are set from the masked value, then the stack is switched |
| Stacks.PushWordIs | m68kcpu.h:1917-1933 | a pull after a push gives the word back and restores the pointer |
| Stacks.PushLongIs | m68kcpu.h:1923-1939 | the same for longwords |
| Cpu.Processor.Push16 | m68kcpu.h:1917-1921 | the word reads back where the pointer in use now points; that pointer alone has moved, by two bytes, and no other byte of memory has changed |
| Cpu.Processor.Push32 | m68kcpu.h:1923-1927 | the same for longwords and four bytes |
| Cpu.Processor.Pull16 | m68kcpu.h:1929-1933 | the word is the one the pointer in use pointed at, and that pointer alone has moved, by two bytes |
| Cpu.Processor.Pull32 | m68kcpu.h:1935-1939 | the same for longwords and four bytes |
| Cpu.Processor.InitException | m68kcpu.h:2096-2108 | the old SR is returned; tracing is off and supervisor mode on |
| Cpu.Processor.StackFrame0000 | m68kcpu.h:2120-2131 | SR, PC and, except on the 68000, the vector word with format 0 lie below the old stack pointer, which has moved by the frame's size; the rest of memory is as it was |
| Cpu.Processor.StackFrame0001 | m68kcpu.h:2136-2141 | the same for the throwaway frame and format 1 |
| Cpu.Processor.StackFrame0010 | m68kcpu.h:2146-2152 | the same for the trap frame and format 2, with the trapping instruction's address on top |
| Cpu.Processor.ExceptionInstruction | m68kcpu.h:2455-2471 | TRAP #n and the exceptions that push a format 0 frame |
| Cpu.Processor.ExceptionTrap | m68kcpu.h:2424-2437 | group 2 traps |
| Cpu.Processor.ExceptionInterrupt | m68kcpu.h:2756-2826 | interrupt processing in place; the handler starts at the longword of vector 24 + level or, when that is zero, of vector 15 |
| Cpu.Processor.CheckInterrupts | m68kcpu.h:2829-2838 | NMI first, then a level above the mask |
| Cpu.Processor.ReturnFrom | m68k_in.c:9796-9917 | on the processor: RTE at the end of a balanced handler, with nothing pending above the old mask, restores PC, SR and all three stack pointers of the state the exception interrupted, and leaves memory alone |
| Cpu.Processor.TakeAndReturn | m68k_in.c:9796-9917 | taking any exception and returning at once restores PC, SR and the stack pointers and leaves nothing but the frames in memory |
| Cpu.Processor.Rte | m68k_in.c:9796-9917 | RTE in place, by processor family, with format errors; in user mode the privilege violation frame holds the address of the RTE |
| Cpu.Processor.RteLoop | m68k_in.c:9878-9914 | the 68020 loop through throwaway frames |
| Float128.RoundAndPack | softfloat/softfloat.h:335-423 | in all four modes the result, normal, subnormal or overflowed, is the one sections 4.1 and 4.2 prescribe for the exact value, and the flags say exactly whether it overflowed (7.3), is tiny and inexact, by either detection of tininess (7.4), and is inexact (7.5), for every exponent from -32767 on; below that the result is right if and only if the wrapped count still shifts far enough, and the flags are right if and only if it drops a bit that is set, or both flags were up before |
| Float128.SubnormalIsRight | softfloat/softfloat.h:385-421 | the jammed fraction rounds a denormalized significand as the exact one would |
| Float128.TinyIsRight | softfloat/softfloat.h:386-395 | the code's tininess test holds if and only if the value, or the value rounded with unbounded exponent, lies below the smallest normal one |
| Float128.WrappedIsRight | softfloat/softfloat.h:396-421 | for a far exponent and any count the rounded result is the prescribed one if and only if the count is 114 or more to nearest, or 113 with the smallest normal significand; 113 toward zero; 113, or 112 with that significand, away from zero |
| Float128.WrappedExample | softfloat/softfloat.h:396-397 | exponent -65536 is shifted by zero, and the significand packed as it is, which is not the nearest value |
| Jamming.ShiftJam | softfloat/softfloat-macros:226-274 | for every count, the integer part of the shifted number, and a fraction that is zero, below, at or above a half just when the exact one is |
| Float128.RoundedIsRight | softfloat/softfloat.h:335-423 | the incremented or truncated significand is the prescribed rounding among all finite values of the format |
| Float128.OverflowIsRight | softfloat/softfloat.h:358-384 | the overflow test holds if and only if the result rounded with unbounded exponent exceeds the largest finite value |
| Float128.NoValueBetween | softfloat/softfloat.h:303-312 | no finite value of the format lies between a significand and its successor |
| Float128.Packed | softfloat/softfloat.h:303-312 | packing absorbs a carry out of the significand into the exponent |
| Float128.RoundSig | softfloat/softfloat.h:414-420 | the 128-bit increment and the cleared last bit of a tie |
| Float128.Overflowed | softfloat/softfloat.h:370-383 | infinity or the largest finite value, as mode and sign demand |
| Multiply.Mull64 | m68k_in.c:8032-8086 | dh:dl, high word in dh, is the product as a signed or unsigned number, or dl its low word with V set when the product is more; N, Z, X and C; other registers are kept |
| Multiply.Mull32 | m68k_in.c:8088-8163 | the build without 64-bit integers meets the same specification, so both agree on registers and codes for every operand pair |
| Multiply.MultiplyWords | m68k_in.c:8124-8136 | four partial products and their carries make the exact 64-bit product |
| Multiply.MultiplyParts | m68k_in.c:8116-8142 | from magnitudes and sign, the two's complement product in two words |
| Multiply.SignedFits | m68k_in.c:8157-8160 | the overflow test on the high word says whether a signed product fits 32 bits |
| Multiply.SignExtends | m68k_in.c:8053-8060 | so does comparing the 64-bit product with its own sign-extended low half |
| Divide.Divl64 | m68k_in.c:4815-4899 | with V clear, dividend == dl * divisor + dh, the remainder smaller than the divisor and signed as the dividend, N and Z those of dl, C clear, X and other registers kept; a quotient that does not fit sets V and nothing else; zero changes nothing |
| Divide.Divl32 | m68k_in.c:4901-5009 | the same of registers and codes with shift and subtract, judging overflow by the magnitude of the quotient |
| Divide.DividedIs | m68k_in.c:4815-5010 | so for both specifications, with V set exactly when the quotient does not fit, or in the build without 64-bit integers also for the operands of `BuildsAgree` |
| Divide.ShiftSubtract | m68k_in.c:4956-4983 | both loops: quotient * divisor + remainder is the 64-bit dividend and the remainder is below the divisor, although it outgrows 32 bits on the way |
| Divide.BuildsAgree | m68k_in.c:4815-5010 | the builds agree on registers and codes if and only if the division is not a signed one of operands with different signs and 2^31 * abs(m) <= abs(n) < (2^31 + 1) * abs(m), 2^31 / -1 excepted |
| Divide.SpuriousQuotient | m68k_in.c:4985-4991 | those are the divisions with quotient -2^31 |
| Divide.BuildsDiffer | m68k_in.c:4985-4991 | -2^31 / 1: one build stores 0x80000000 with remainder 0, the other sets V |
| Divide.DivisionLaw | m68k_in.c:4853-4862 | n = q * d + r with the remainder smaller than the divisor and signed as the dividend |
| Chains.DigitRelation | m68k_in.c:1152-1176 | one ABCD, SBCD, ADDX.L or SUBX.L adds or subtracts its digit with X in and out exactly, and decimal digits stay decimal |
| Chains.ChainExact | m68kcpu.h:969-1013 | a chain of any length: the result with its final carry or borrow is the exact sum or difference |
| Chains.ChainZero | m68kcpu.h:1009-1013 | Z stays set if and only if it was set and the whole result is zero |
| Chains.ChainResult | m68k_in.c:1152-1176 | from X clear and Z set: the exact result modulo base^n, X and C the carry or borrow, Z the whole-number zero test |
| Chains.ChainSigns | m68kcpu.h:969-984 | for the binary chains N is the sign of the whole number and V says that the exact signed result is not representable |
| ChainRuns.ExtendLong | m68k_in.c:1758-1786 | the ADDX.L and SUBX.L handlers on machine state |
| ChainRuns.ExtendDecimal | m68k_in.c:1152-1176 | the ABCD and SBCD handlers on machine state |
| ChainRuns.AddLong | m68k_in.c:1758-1786 | result and carry are exactly the sum with X, N is its sign, and V says that the signed sum does not fit |
| ChainRuns.SubtractLong | m68k_in.c:10749-10772 | result and borrow are exactly the difference with X, N is its sign, and V says that the signed difference does not fit |
| ChainRuns.AddDecimalByte | m68k_in.c:1152-1176 | for packed decimal operands the byte is packed decimal and with its carry exactly their sum with X |
| ChainRuns.SubtractDecimalByte | m68k_in.c:10080-10108 | for packed decimal operands the byte is packed decimal and with its borrow exactly their difference with X |
| ChainRuns.RunIsChain | m68k_in.c:10749-10772 | n instructions over buffers that do not overlap leave the chain of their operands in the destination buffer, both registers below the buffers, and other memory as it was |
| ChainRuns.RunComputes | m68k_in.c:10080-10108 | from X clear and Z set: the multi-precision sum or difference in memory, binary or packed decimal, with its X, C and Z |
| ChainRuns.RunSigns | m68k_in.c:1758-1786 | N and V after an ADDX.L or SUBX.L run are those of the full-width signed result |
| ChainRuns.BufferNumber | m68k_in.c:1758-1786 | the numbers added and subtracted are those the bytes of the buffers make, most significant first, binary or two decimal digits to the byte |
| BitFields.Unit.LoadBitfield | m68kcpu.h:2863-2894 | one to five bytes, as few as the field needs, with the field at the top |
| BitFields.Unit.StoreBitfield | m68kcpu.h:2910-2948 | the same bytes are stored, rebuilt around the field |
| BitFields.StoreReplaces | m68kcpu.h:2910-2948 | storing a field whose bits beyond the width are as loaded changes exactly the field in memory |
| BitFields.PatchedAddress | m68kcpu.h:2902-2908 | the byte address and bit offset name the same bit as the signed bit offset |
| BitFields.PatchExact | m68kcpu.h:2906-2908 | were the overflow to wrap, the address would be right if and only if `7 - offset` does not overflow |
| BitFields.Unit.Modify | m68k_in.c:2644-2756 | BFCHG, BFSET and BFCLR change exactly the bits [8*ea + offset, 8*ea + offset + width), and N and Z are those of the old field |
| BitFields.Unit.Insert | m68k_in.c:3054-3092 | BFINS changes exactly those bits, to the register's low ones |
| BitFields.Unit.ExtractUnsigned | m68k_in.c:2875-2919 | BFEXTU reads exactly those bits, zero-extended |
| BitFields.Unit.ExtractSigned | m68k_in.c:2793-2838 | BFEXTS reads exactly those bits, sign-extended |
| BitFields.InsertThenExtract | m68k_in.c:2793-3092 | BFINS then BFEXTU or BFEXTS gives the inserted value back, zero- or sign-extended |
| BitFields.ReadsBack | m68kcpu.h:2910-2948 | a changed field holds what was put there |
| BitFields.OthersKept | m68kcpu.h:2910-2948 | fields that do not meet it keep their value |
| Rotates.Rotate64Bit | m68k_in.c:9479-9536 | ROXR.L and ROXL.L by a register count, 64-bit build: as many single-bit rotations of X:Dn, bit by bit, with N, Z, X and C |
| Rotates.Rotate32Bit | m68k_in.c:9704-9761 | so in the 32-bit build |
| Rotates.LeftIsCut | m68kcpu.h:318-327 | any number of single-bit rotations is one cut of the 33-bit word |
| Rotates.RightUndoesLeft | m68k_in.c:9479-9761 | ROXR undoes ROXL of the same count |
| LeftShifts.ShiftLeft | m68k_in.c:2337-2448 | ASL of each size by a register count: as many single shifts, bit by bit, C and X the last bit out, V set if and only if the sign changed at any step |
| LeftShifts.AfterShifts | m68kcpu.c:105-138 | the sign changed on the way if and only if the bits passed through it are not all alike |
| Movem.File.StoreDown | m68k_in.c:7519-7537 | MOVEM.L list,-(An) stores every listed register, An's old value included, and An ends at the lowest one |
| Movem.File.LoadUp | m68k_in.c:7648-7679 | MOVEM.L (An)+,list loads every listed register, and An ends past the last one even when it is listed |
| Movem.LoadUndoesStore | m68k_in.c:7519-7679 | the load with the mirrored list restores every listed register and An, for every list and register file |
| Movem.Ascending | m68k_in.c:7519-7537 | the listed registers lie in memory in ascending order from the new An |
| Fmovem.File.StoreDown | m68kfpu.c:1907-1930 | FMOVEM.X list,-(An) stores every listed register |
| Fmovem.File.LoadUp | m68kfpu.c:1939-1958 | FMOVEM.X (An)+,list loads every listed register |
| Fmovem.LoadStored | m68kfpu.c:64-86 | the twelve-byte memory form gives an extended value back bit for bit |
| Fmovem.StoreLayout | m68kfpu.c:77-86 | sign and exponent at offset 0, zero at 2, the mantissa's high longword at 4 and its low one at 8 |
| Fmovem.LoadUndoesStore | m68kfpu.c:1875-1963 | the load with the mirrored list restores every listed register bit for bit, and An |
| OpcodeTable.Build | m68k_in.c:167-272 | the phased loops fill the jump table with the last matching entry of every opcode, or illegal |
| OpcodeTable.MostSpecific | m68kmake.c:812-820 | in a table in the generator's order, the last match has the most mask bits of all matches |
| OpcodeTable.PhasesInOrder | m68kmake.c:812-820 | from the first 0xff00 entry on, sorted entries come in the order of the builder's loops |
| Generator.NumBits | m68kmake.c:564-571 | adding neighbouring bits, pairs, digits and bytes counts the set bits |
| Generator.FromPattern | m68kmake.c:1157-1164 | an opcode matches the mask and match of a bit pattern if and only if it fits the pattern, and the match lies in the mask |
| Sst.WriteSst | tools/sst_convert.py:211-241 | the loops write the file form |
| Sst.SstLoad | test/singlestep/sst_loader.c:17-102 | the loops read it |
| Sst.LoadRam | test/singlestep/sst_loader.c:73-97 | every RAM entry is read, the first 512 are kept |
| Sst.LoadsWritten | test/singlestep/sst_loader.c:17-102 | loading what was written gives mnemonic, source, names cut to 63 bytes, registers and the first 512 RAM entries of each state, with nothing unread, if and only if the mnemonic has at most 31 bytes |
| Sst.HeaderAligned | test/singlestep/sst_loader.c:31-43 | the vectors start where the header ends if and only if the mnemonic has at most 31 bytes |
| Sst.HeaderLayout | tools/sst_convert.py:211-241 | "SST1", the vector count least significant byte first at 4, the source at 8, the mnemonic's length at 9 and the mnemonic at 10 |
| Sst.VectorLayout | tools/sst_convert.py:211-241 | at literal offsets: name length and name, 19 registers before and after, both RAM counts, and the RAM entries as an address and a byte |

## Left out

Address translation:

- Descriptors are records of a 27-bit upper part, M, U and three low bits, in a map of longwords. That loses nothing
  as long as the root pointers are longword aligned, which the code does not enforce. The history word is the set of
  its one bits.
- Runs.RefinesFromFlushed: needs each descriptor word in one role (`Roles`): a word a walk reads as a descriptor is
  never an indirect pointer or a long descriptor's second word in another walk, since U and M would change it. Results
  of faulting accesses are compared in the fault decision only; the address returned then differs.
  `TableWalks.Answers030` and `TableWalks.Answers040` need the same of one walk.
- Walk030.WalkAlike: 68030 statements need PS of at least 8, the index widths the walk takes and PS to fit in 32 bits
  (both hold of what PMOVE accepts), and every C shift in range (`OutOfRange`); smaller pages shift by a negative
  count. The last turn of the loop also computes, and never uses, an index by an out-of-range shift; that dead value
  is not modelled.
- Mmu.Unit.Translate: PTEST, PMOVE but for its test of TC, MMUSR, the function code decoding of PFLUSH and PLOAD, the
  trap PLOAD takes when a 68040 MMU is disabled, the co-simulation callbacks, the other fields latched with a bus error,
  and the `longjmp` a bus error leads to.

Exceptions:

- Cpu.Processor.Rte: the 68020 loop through throwaway frames is bounded by `limit`; the source loops for as long as it
  finds format 1. One frame is all an interrupt pushes, and `Nesting` shows that a limit of one is enough.
- Exceptions.RteUndoesEntry: families are grouped into 68000, 68010 and 68020 and up. Address-error emulation is off,
  interrupts are autovectored and cleared when taken, trap callbacks decline. Bus and address error frames are not
  pushed (RTE's handling of a 68010 format 8 frame is modelled); trace exceptions, cycle counts, run and instruction
  modes and the callbacks of a jump are not modelled.
- Cpu.Processor.SetSFlag: takes the supervisor value only, the one value the code passes it.
- `m68ki_set_sm_flag_nosp` and `m68ki_set_sr_noint_nosp`, which skip stack banking by design.
- `m68ki_exception_trap_pc`, which differs from the modelled trap in the saved PC before the 68020 only.

Arithmetic:

- Divide.Divl64: the long-by-long form, operand fetch, the zero-divide exception itself (reported as a result) and the
  68060 and illegal-instruction traps. Divide.Divl32 leaves out the same.
- Multiply.Mull32: as for DIVL. Negating a signed 32-bit minimum, undefined in C, is modelled as wrapping.
- Chains.DigitRelation: decimal digits must be valid packed decimal; for others the manual leaves the result open. N
  and V of the decimal instructions are modelled but no meaning is proved of them.
- ChainRuns.RunComputes: the register forms, byte and word ADDX/SUBX and the A7 forms of ABCD and SBCD are left out.
- Rotates.Rotate32Bit: byte, word, immediate and memory rotations, and the rotations without X. A shift by 32 whose
  result is masked away is given the value zero.
- LeftShifts.ShiftLeft: immediate and memory shifts; ASR and LSR. Condition codes are kept as booleans in all integer
  instructions, not as the words of which one bit counts.

Bit fields and register lists:

- BitFields.Unit.Insert: bit offsets below -2147483640, for which `7 - offset` overflows (see `BitFields.PatchExact`).
  BitFields.Unit.Modify leaves out the same. Register forms, BFFFO and BFTST are left out, and the instruction word's
  choice of offset and width is a parameter.
- Movem.File.StoreDown: other addressing modes and MOVEM.W. Memory is plain bytes: no callback between the word
  writes.
- Fmovem.File.StoreDown: dynamic lists, other addressing modes, and control registers.

Dispatch:

- OpcodeTable.Build: takes the table as a sequence; the source stops at a terminator entry and needs an entry of mask
  0xff00 to leave its first loop, which `WellFormed` requires. Cycle counts are part of the target an opcode gets.
- Generator.FromPattern: the generator's parsing, code emission and the masks it adds for addressing modes and
  condition codes. That the generated table is sorted by `qsort` is taken from its comparison function.

Self-contained cores:

- Float128.RoundAndPack: exponents from -32768 down whose 16-bit count is negative, a shift C leaves open; no caller
  passes less than -16606. A significand that is not normalized comes with exponent 0; if it needs rounding, which the
  source's own comment rules out, the result is still proved right, but the code raises no underflow.
- Sst.SstLoad: a file that ends early leaves indeterminate values in the source and is `Short` here; the host is
  little-endian, allocation succeeds (for no vectors at all, too), and the vector count is not narrowed to `int`.
- Sst.WriteSst: inputs `struct.pack` refuses are outside `Writable`; names and mnemonics are byte strings.

Not modelled at all: floatx80 operations and transcendental functions, packed-decimal floating point, the
disassembler, plain moves, logic and compares, MOVEC, timing, callbacks, and the host programs around the emulator.
They would add size rather than harder properties.
