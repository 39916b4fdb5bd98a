# Dryadalis in Dafny

Dryadalis runs a guest program inside its own address space. It overwrites the branch that ends a basic
block with a trampoline (the *dump* hook) and the bytes before the block with another (the *restore* hook),
lets the guest run the block on the hardware, takes the registers back at the trampoline, puts the original
bytes back, emulates the branch in C, and patches the next block. This project models that engine and proves
that the guest does not notice: **along every native run within the engine's limits, the instrumented run,
through its patches and its generated stubs, reaches each branch with the native registers and, under its
patches, the native memory** (`Transparent`). What "within the limits" means is stated of the guest's own
instructions, and where the code leaves the limits the project says exactly when.

## How the proof is built

1. `Guest` is the uninstrumented machine: an abstract decoder (1 to 15 bytes, no dependence on bytes it does
   not consume), an arbitrary effect for straight-line instructions, and concrete jumps, calls, returns and
   system calls. It knows nothing of the engine.
2. `NativeRuns` cuts a native run into blocks. Each block must leave alone the bytes its patches would cover and
   the region where the engine itself lives (state structure, hook cell, host stack, both stubs). Each point of the
   run carries the registers (`lost`) and the bytes (`stale`) in which the instrumented guest may differ there: a
   hooked system call may lose rcx and r11, starting the guest leaves two stale words below its stack pointer, an
   instruction that overwrites them makes them good again, and nothing else may depend on them. With both empty,
   agreement is exact (`InSyncIsExact`).
3. `Patching` is a dispatch on values, `Engine` the code that updates its state in place, proved equal to it.
   The block scan (`OpcodesCflow`) is proved against a plain linear sweep (`Sweep`), the memory accesses
   against plain copies (`PagedMemory`), the branch emulation against the CPU (`Emulation`, `Conditions`,
   `Registers`). No page is assumed to be readable, writable or acceptable to `mprotect`: whatever pages are closed
   or refused, the engine goes on only in the state of `Dispatch`.
4. `Stubs` interprets the generated code, and `exec_binary`: `SavedState` after the dump stub is the registers and
   the hook's address, and the restore stub resumes from exactly that.
5. `Transparency` joins them. A round is: the dispatcher on the engine's memory (`DispatchInSync`), the restore
   stub, in place, landing on the restore hook (`RestoreLands`), the hardware running the patched block
   (`BlockRuns`), the dump hook, still in place, and the dump stub, still in place (`EnterInSync`). The host's
   registers, but for the selectors and privileged flags of the process, and its memory between two rounds are an
   arbitrary function of the round. Induction over the dispatches gives the whole run. `LoopGuest` meets all
   conditions with a concrete guest, stub layout and host for any number of dispatches.
6. `CallNesting`, `SegmentBases`, `Break`, `Loader`, `InitialStack` and `Descriptors` cover call trees and the
   returns of whole engine runs, the FS/GS swap, the program break, segment mapping, the initial stack and the
   descriptor list.

Where a definition serves both the engine and what it is compared with (the groups that end a scan, the position
of a flag, the break that a request grants), a lemma whose name ends in `ByNumber`, or one beside it, fixes its
meaning in plain arithmetic, without that definition.

Modelling choices: words are integers modulo 2^64, memory is a sequence of 2^64 bytes, and the C masks are
written as the division and remainder they stand for. A register key is its position in the engine's own list
of keys (`src/state_runt.c:21-74`). `is_mapped` is constantly true and `get_prot` constantly read-write-execute,
as in the code (`src/core_mapper.c:410`, `src/memory.c:43`). Calls to `fatal_dump` and `exit` are failure
results. Ghost parameters such as the distance `n` of `OpcodesCflow` carry what termination needs. `hide` keeps
function bodies out of proofs that do not need them.

Where the code and its comments disagree the model follows the code: `mem_read` promises the number of bytes
read (`src/memory.c:156`) and returns the length of its last chunk when it crosses a page; `list_del_map`
returns 0 whether or not every page was found (`src/core_mapper.c:520`, `src/core_mapper.c:528`).

## Properties that do not hold, and exactly when they do

- Exact registers after a hooked system call: rcx and r11 differ from the CPU's unless they hold the return
  address and the flags already (`HookedCallExact`; a guest where they differ: `ScratchIsLost`). Hence `lost`.
- The restore patch is never undone when it starts at address 0: `UndoIsExact`.
- A return that pops more than its address, a call through any part of rsp, a call through memory whose operand
  the push moves or overlaps (`call [rsp + 8]`: `CallThroughRspDiverges`), operands that read 2^64 - 1,
  and jumps whose mnemonic the engine does not know (`loop`) diverge from the CPU: `RetExact`, `CallRegisterExact`, `CallMemoryExact`, `JumpExact`.
- The code of a block is always read a page at a time, so the engine faults on a block whose own bytes are all
  readable when the page behind it is not: `ReadBeyondBlockFaults`. For a branch in the page where its block starts,
  the scan needs that page and the next to be readable, unless the block starts on the page boundary: `CanScanIff`.
- `get_prot` claims that every page is readable and writable, so no page is ever made so before it is accessed
  (`ReadFaultsIff`, `WriteSucceedsIff`). `write_hook` gets away with it: its read leaves every page of the hook
  writable (`WriteHook`). `restore_bytes` needs them to have stayed so (`RestoreBytes`).
- `mem_read` reports a refused page only when the range lies in that one page (`ReadFailsIff`); over several pages
  it may leave the buffer half read without a word (`MovedAllIff`, `UnnoticedShortRead`). `write_hook` does
  go on with unread bytes then, but its write is refused the same page, so the engine stops (`WriteHook`).
- `mem_write` fails although every byte is written when the range ends on a page boundary before a refused page:
  `EmptyRoundFails`, `WriteSucceedsIff`.
- An auxiliary vector pair added after a zero value lands one word too early: `AddAppendsIff`. Without a file name
  AT_SECURE overwrites the value of AT_EXECFN: `AddAfterZero`, `SetupStack`.
- Growing the break from inside a page wipes the bytes below it in that page (`KeepsBelowIffAligned`) and may leave
  bytes below the new break unmapped (`MapsToBreakIff`); a 32-bit increment within a page of 2^32 ends the process
  (`WrapsIff`).
- A segment whose file part ends on a page boundary that is the end of the file cannot get its zero-filled tail:
  `LoadsIff`. The protections of a segment may stop short of its last page: `ProtectionReachesEndIff`.
- A writable segment without a zero-filled tail leaves a break one byte past a page (`BreakIsAlignedIffBss`),
  possibly inside the segment (`BreakIsBeyondIff`), whose data the first growth then wipes (`SurvivesGrowthIff`).
- After an FS or GS base that the kernel refuses the guest resumes with the host's: `ResumesWithOwnBases`.
- `list_del_map` over the head's page frees the head and, if more pages follow, starts the next lookup there:
  `ListDelMap`.

## Model

| member | source | states |
|---|---|---|
| Transparency.Transparent | src/engine.c:845-896 | for every native run of any number of blocks that leaves the patched bytes and the engine's own region, stubs included, alone and whose branches are within the limits, on any host whose selectors and privileged flags are those of the process, and for whatever the host does to its other registers and its memory, the engine survives and at each dispatch, reached through the interpreted stubs, holds the native registers (but for those lost in hooked system calls), branch address and (unpatched) memory |
| NativeRuns.BlockRuns | src/engine.c:892-895 | from any CPU that differs from the native one in X and in lost registers only, the hardware first reaches the hook after exactly the block's instructions, alike to the native CPU, with X as it was |
| Transparency.ResumeInSync | src/engine.c:892-915 | from live patches and the host core that carries the engine's state, restore stub, restore hook, block, dump hook and dump stub end in step with the native block |
| Transparency.RestoreLands | src/engine.c:458-464 | the restore stub leaves for the address of the restore patch, whose bytes are in place there and end at the block's base |
| Transparency.EnterInSync | src/engine.c:155-305 | the guest runs the patched block, finds the dump hook and the dump stub intact, and the dispatcher is entered with the native registers, the branch address in all three copies, and memory that undoing the patches makes native |
| Transparency.InSyncIsExact | src/engine.c:845-896 | where nothing is lost or stale, the saved state is exactly the native registers and branch address, and memory the native one outside the host |
| Transparency.DispatchInSync | src/engine.c:845-892 | from a state in step, the dispatcher succeeds, leaves both patches live over a memory that is the native one after the branch outside the host, and the resume address one restore hook before the native pc |
| Transparency.DispatcherInSync | src/engine.c:845-892 | the same of the in-place dispatcher method, whatever pages are closed or refused: where it goes on it is in step, and it goes on if the pages it touches are usable |
| Transparency.RoundInSync | src/engine.c:845-896 | one dispatch and one block keep the engine in step |
| Transparency.StartInSync | src/engine.c:669-701 | the first block, instrumented before the guest starts and entered by way of `exec_binary`, ends in step |
| Transparency.LaunchStays | src/core_mapper.c:566-590 | starting the guest writes nothing but the two words below its stack pointer |
| Transparency.HookJumps | src/engine.c:121-121 | the dump hook jumps to the dump stub and leaves its bytes alone |
| NativeRuns.NativeRunIsSteps | src/engine.c:845-896 | the states the engine is compared with are reached by plain instruction steps of the CPU |
| NativeRuns.StopsFromAgrees | src/analysis.c:92-162 | the scan ends at the same branch over any memory that holds the same code |
| Patching.InstrumentIsLive | src/engine.c:656-663 | after patching a block, memory is the original under exactly two patches, each holding the bytes it hides |
| Patching.LivePatches | src/engine.c:656-665 | the patches are disjoint from each other and from the block's bytes, and carry the hooks' code |
| Patching.UndoIs | src/engine.c:859-879 | undoing gives the clean bytes inside the patches and keeps all others, whatever has become of memory meanwhile |
| Patching.UndoRestores | src/engine.c:859-879 | undoing the patches after the guest ran gives the memory of the unpatched run, guest writes included |
| Patching.UndoIsExact | src/engine.c:859-867 | patching and undoing is the identity on all memories exactly when the block does not start at the restore hook's length |
| Patching.DeferredMakesProgress | src/analysis.c:586-587 | an unhandled system call becomes the next block base; the scan steps over exactly that instruction, so the new hook lies after it, and the flag is off again |
| Engine.Handler.ScanGroups | src/analysis.c:135-143 | the scan ends at an instruction exactly when it is not the skipped one and has one of the eight control-flow groups, named one by one |
| Guest.CflowGroups | src/analysis.c:31-56 | the control-flow groups are exactly those eight; no other group ends a scan |
| Guest.FirstActingIs | src/analysis.c:498-560 | the first group that is a call, jump, return or interrupt decides, whatever follows |
| Guest.DisassemblerIsCoherent | src/analysis.c:498-560 | the group lists of returns, relative and register calls, jumps, system calls, privileged and plain instructions meet the assumption on the decoder |
| Engine.Handler.SweepChunk | src/analysis.c:124-148 | the loop over one buffer keeps to the plain sweep, whatever the buffer cuts off and however short a length the read reported |
| Engine.Handler.OpcodesCflow | src/analysis.c:92-162 | the chunked recursive scan returns the plain sweep's distance to the first control-flow instruction or fails; it fails if the first page is not usable or the page where its first read ends is not readable; it succeeds whenever that sweep ends at an instruction and the scan's pages are usable; it terminates by that distance |
| Engine.Handler.EvalInsn | src/analysis.c:498-593 | the loop over the groups does what the first group it knows asks for, on state, memory and the system call flag |
| Engine.Handler.EvalTarget | src/analysis.c:601-615 | with a usable first page, the branch is disassembled from memory and emulated, or the read faults exactly when the page where its 16 bytes end is not readable |
| Engine.Handler.WriteHook | src/engine.c:730-738 | the hook is written exactly when its pages are readable and neither they nor the one right after are refused; then the bytes under it are saved and replaced by its code, all other bytes kept, and it can be taken off again |
| Engine.Handler.RestoreBytes | src/engine.c:776-787 | the saved bytes are put back, all other bytes kept, exactly when the pages are writable and neither they nor the one right after are refused |
| Engine.Handler.InstrumentBbl | src/engine.c:756-773 | the block is scanned and its branch patched, or a failure; none if the pages are usable |
| Engine.Handler.InstrumentRequest | src/engine.c:656-663 | scan, dump patch, restore patch and the hook address, in that order, or a failure; none if the pages of the scan and the patches are usable |
| Engine.Handler.TakeOffPatches | src/engine.c:859-879 | both patches are off before the branch is evaluated, exactly when their pages allow it |
| Engine.Handler.Dispatcher | src/engine.c:859-892 | whatever pages are closed or refused, the in-place dispatcher goes on only in the state of the dispatch that the transparency theorem is about, with patches it can take off again, and does go on if the pages it touches are usable |
| Engine.Handler.DispatchFreely | src/engine.c:859-892 | with every page readable, writable and granted the dispatcher succeeds exactly when the dispatch does |
| Sweep.DecodeInBuffer | src/analysis.c:119-124 | decoding inside a chunk finds what decoding from memory finds unless the chunk's end cuts the instruction |
| Sweep.SweepInsn | src/analysis.c:135-147 | a branch that is not skipped is where the sweep stops; anything else is stepped over |
| Sweep.StopsIffPath | src/analysis.c:124-148 | the sweep stops at a distance exactly when straight-line instructions, one after the other, lead there and to something that is none |
| Sweep.BranchOffsetIs | src/analysis.c:92-162 | the sweep has one stopping distance |
| Emulation.EmulationIsExecution | src/analysis.c:498-589 | within the limits, which for a hooked system call is that this call has the kernel's effect, emulating a branch gives the CPU's next address, registers and memory; an unhandled system call is returned untouched |
| Emulation.OperandIsDestination | src/analysis.c:515-543 | register, relative, rip-relative and indexed operands evaluate to the CPU's destination modulo 2^64 |
| Emulation.CallByNumber | src/analysis.c:507-513 | a call stores the address after itself eight bytes below the stack pointer, lowers it by eight, and changes nothing else |
| Emulation.RelativeCallByNumber | src/analysis.c:519-520 | a relative call goes to its end plus the displacement modulo 2^64 |
| Emulation.ReturnByNumber | src/analysis.c:557-559 | a return goes where the word at the stack pointer says and pops eight bytes |
| Emulation.JumpByNumber | src/analysis.c:499-556 | a jump changes nothing and goes on after itself, to its end plus the displacement, or to what its register holds |
| Emulation.MemoryOperandByNumber | src/analysis.c:521-540 | a memory operand is the word at base plus index times scale plus offset, an instruction-pointer base counting from the end of the instruction |
| Emulation.SyscallByNumber | src/analysis.c:560-587 | a system call without a hook is left alone; with one its result is taken and control goes on after it or where the hook says |
| Emulation.DeferredIsUntouched | src/analysis.c:586-587 | an unhandled system call changes nothing and yields its own address |
| Emulation.JumpExact | src/analysis.c:499-556 | a jump, one whose mnemonic the engine does not know included, agrees with the CPU exactly within the stated limits |
| Emulation.RetExact | src/analysis.c:557-559 | a return agrees with the CPU exactly when it pops only the return address |
| Emulation.CallRegisterExact | src/analysis.c:507-518 | a call through a register agrees with the CPU exactly when the register is no part of rsp |
| Emulation.CallMemoryExact | src/analysis.c:507-543 | a call through memory agrees with the CPU over every memory exactly when the push neither moves the operand nor overlaps it |
| Emulation.CallThroughRspDiverges | src/analysis.c:507-539 | for every state there is a memory over which a call through rsp and a displacement goes somewhere else |
| Emulation.WithoutRspSurvives | src/analysis.c:523-539 | a readable operand that does not use rsp is not moved by the push |
| Emulation.HookedCallExact | src/analysis.c:565-583 | a hook that is faithful but for rcx and r11 agrees with the CPU exactly when these hold the return address and the flags already |
| LoopGuest.ScratchIsLost | src/analysis.c:565-583 | a guest and a state in which a hooked system call leaves other registers than the CPU |
| LoopGuest.LoopRuns | src/engine.c:845-896 | a guest with a hooked system call in a loop, a stub layout inside the host and a host with constant selectors and flags that meet every condition, for any number of dispatches |
| CallNesting.CallsNest | src/analysis.c:507-559 | over call trees of any depth whose return slots are not overwritten, each return goes to just after its own call, rsp ends where it began, and the outer return slots survive |
| CallNesting.EachReturnsHome | src/analysis.c:507-559 | over any number of dispatches of a guest that keeps to its stack, each return goes to the address right after its own call and leaves the stack pointer that call found |
| CallNesting.RunReturnsHome | src/engine.c:845-896 | in an engine run, the native block after a return starts right after the call that it returns from |
| Conditions.MaskKeepsFlags | src/state_runt.c:215-217 | the flags mask keeps every flag a jump tests |
| Conditions.IsJmpTakenIsCpu | src/analysis.c:274-333 | every jump is decided as the opcode's condition code says, for all register values |
| Conditions.FlagPositions | include/dryadalis_x86.h:70-79 | CF, PF, ZF, SF and OF are bits 0, 2, 6, 7 and 11 of every flags word |
| Conditions.JumpsByNumber | src/analysis.c:274-322 | every conditional jump, over every flags word, by the digits of that word |
| Conditions.CounterJumpsByNumber | src/analysis.c:290-295 | the counter jumps test the low 16, 32 and 64 bits of rcx |
| Conditions.OppositesAreComplements | src/analysis.c:277-322 | exactly one jump of each opposite pair is taken, whatever the flags |
| Conditions.CompareThenJump | src/analysis.c:277-307 | after comparing any two words, the jumps decide the unsigned and signed orders and equality they are named after |
| Conditions.CompareByNumber | src/analysis.c:277-307 | the same with the flags word built from the two numbers |
| Registers.ReadRegIsArchitectural | src/state_runt.c:213-232 | every named register reads as the CPU defines it |
| Registers.FlagsByNumber | src/state_runt.c:215-217 | the flags are read without bits 16, 17 and those from 24 on |
| Registers.OneWidthClass | src/state_runt.c:142-178 | the five lists of names sort every key as the architecture does: each named key is in exactly one, that of its width; any other key is in none and reads as -1 |
| Registers.AliasesAreCoherent | src/state_runt.c:219-229 | a narrower alias reads its part of what any wider alias reads |
| Registers.WordIsTwoBytes | src/state_runt.c:219-225 | the 16-bit register is its two byte registers side by side |
| Registers.UpdateRegEffect | src/state_runt.c:137-140 | a write changes only its register's aliases, each reads its slice, and the key reads back the value exactly when it fits |
| Registers.RegisterMap.GroupMakeLink | include/dryadalis_x86.h:331-337 | the keys of the group lead to the slot, all others where they led |
| Registers.RegisterMap.constructor | src/state_runt.c:76-126 | the listed groups link every named key to its architectural register, and no other key |
| PagedMemory.AddressSpace.IsMappedRange | src/core_mapper.c:247-257 | which pages the range check looks at |
| PagedMemory.AddressSpace.RoundRead | src/memory.c:125-153 | one chunk faults on a page that is not readable; otherwise it is copied, and reported unless the page's protection cannot be set back |
| PagedMemory.AddressSpace.MemRead | src/memory.c:162-207 | the exact result, fault included, and the exact bytes copied, for every alignment, size and set of closed or refused pages: on success the destination equals the source, the result is the last chunk's length over several pages, and every page is left writable |
| PagedMemory.AddressSpace.MemWrite | src/memory.c:216-261 | the exact result, fault included, and exactly which bytes of the target range are replaced; every page re-protected, that of the final empty round included, was checked |
| PagedMemory.MovedAllIff | src/memory.c:145-150 | all bytes are moved exactly when every page but the last of the range is usable and the last is accessible |
| PagedMemory.ReadFailsIff | src/memory.c:178-191 | -1 is returned exactly when the range lies in one page, which is readable and refused |
| PagedMemory.ReadFaultsIff | src/memory.c:145-145 | a read faults exactly when it meets a page that is not readable before one it is refused |
| PagedMemory.LastChunkByNumber | src/memory.c:188-206 | a read over several pages that succeeds reports the bytes after the last page boundary |
| PagedMemory.ShortReadByNumber | src/memory.c:188-191 | one that is refused a page reports the bytes before it, though it has copied that page's too |
| PagedMemory.ReadBeyondBlockFaults | src/analysis.c:119-119 | an input on which the page-sized read of a block's code faults although the block's own page is readable |
| PagedMemory.CanScanIff | src/analysis.c:119-119 | for a branch in the page where its block starts, which pages the scan needs |
| PagedMemory.EveryPageServes | src/memory.c:162-261 | with every page open and granted every block can be scanned and every patch placed or undone |
| PagedMemory.PageRead | src/memory.c:188-206 | a read of at most a page, with a usable first page, is complete when the page where it ends is readable and faults when not; otherwise it faults or reports no bytes |
| PagedMemory.UnnoticedShortRead | src/memory.c:188-191 | an input on which most of the buffer stays unread and 0, not -1, is returned |
| PagedMemory.WriteSucceedsIff | src/memory.c:243-252 | a write succeeds exactly when every page of the range is writable and granted, and the one right after it granted |
| PagedMemory.WriteFaultsIff | src/memory.c:243-243 | a write faults exactly when it meets a page that is not writable before one it is refused |
| PagedMemory.EmptyRoundFails | src/memory.c:245-252 | a range that ends before a refused page is written completely and reported as failed |
| PagedMemory.NextChunkFits | src/memory.c:196-201 | each further chunk stays in its page and in the range and ends one of them |
| Stubs.SaveAllSaves | src/engine.c:159-192 | a run of move-and-store pairs puts each register in its field and changes nothing else but rax |
| Stubs.FieldOffsets | include/dryadalis_x86.h:194-220 | where the stubs expect each register in the state structure |
| Stubs.DumpSaves | src/engine.c:155-305 | the dump hook and stub save every register, the flags as pushfq shows them, and the hook's address, enter the dispatcher on the host stack, and write only the state structure and two host stack words |
| Stubs.DumpIsSave | src/engine.c:155-305 | the saved state is the guest's registers with the hook's address as rip |
| Stubs.RestoreRuns | src/engine.c:420-464 | the restore stub and hook load the registers from their fields, the flags as popfq can change them, leave at the saved rip, and write only below the host stack pointer |
| Stubs.RestoreIsLoad | src/engine.c:420-464 | the guest resumes with exactly the saved registers at the saved rip, if the host has the guest's privileged flags |
| Stubs.DumpRestoreIsIdentity | src/engine.c:155-464 | dump then restore gives back every register for all values, whatever the host did to its own registers; the flags given RF and VM clear and the same privileged bits |
| Stubs.PrivilegedByNumber | src/engine.c:458-464 | flags words that agree on the reserved bits, IF, IOPL, RF, VM, VIF and VIP have the same privileged bits |
| Stubs.PoppedByNumber | src/engine.c:458-464 | popped flags take CF, PF, ZF, SF, DF and OF from the popped word and keep IF and IOPL |
| Stubs.ImageByNumber | src/engine.c:158-158 | pushed flags have RF and VM clear and all else as it was |
| Stubs.ExecRuns | src/core_mapper.c:566-590 | `exec_binary` starts the guest at its entry with its stack pointer and cleared registers, and leaves two words below the stack pointer |
| SegmentBases.Swapper.SetFsGs | src/engine.c:31-34 | both bases are set; a refused FS base leaves GS alone |
| SegmentBases.Swapper.Enter | src/engine.c:847-853 | the guest's bases are recorded and the host's put in force |
| SegmentBases.Swapper.Emulate | src/analysis.c:565-576 | the bracket around a hooked system call, with the base-setting requests inside |
| SegmentBases.Swapper.Continue | src/engine.c:904-908 | the recorded bases are put in force |
| SegmentBases.HostInForce | src/analysis.c:565-576 | the host's bases are in force from the end of the emulation on |
| SegmentBases.ResumesWithOwnBases | src/syscall_hook.c:112-152 | the guest resumes with the bases it would have natively exactly when the kernel grants its request, or the base it falls back to is the host's |
| SegmentBases.ResumesAsRequested | src/syscall_hook.c:112-152 | a granted request takes effect on its base and on no other; nothing else changes a base |
| SegmentBases.RunsAreDisciplined | src/engine.c:847-908 | over every run of granted requests the guest always resumes with the bases of the uninstrumented guest |
| Break.Breaker.HookBrk | src/syscall_hook.c:53-83 | which break every request grants, in plain arithmetic: the request itself if it leaves the break's page, the old one otherwise, and which requests end the process |
| Break.BreakIs | src/syscall_hook.c:62-77 | the granted break in plain arithmetic |
| Break.GrantedIsZero | src/syscall_hook.c:66-66 | what a growth grants reads as zero |
| Break.GrowthIsLocal | src/syscall_hook.c:66-66 | which pages a growth touches, and that no other byte changes |
| Break.AlignedRequest | src/syscall_hook.c:62-77 | from an aligned break, growth keeps the bytes below and maps everything up to the new break |
| Break.OnePageIsRefused | src/syscall_hook.c:65-77 | a request of at most one page leaves the break unchanged |
| Break.KeepsBelowIffAligned | src/syscall_hook.c:65-72 | growth keeps the bytes below the break of every address space exactly when the break is page aligned |
| Break.MapsToBreakIff | src/syscall_hook.c:65-72 | growth maps everything up to the new break exactly when the page offsets of the break and of the increment fit into one page |
| Break.WrapsIff | src/syscall_hook.c:63-66 | the 32-bit mapping length wraps to 0 exactly for increments of at least 2^32 - 4096 |
| Break.BreakRuns | src/syscall_hook.c:53-83 | over any sequence of queries and page-aligned growths no request ends the process, the break stays aligned, never decreases, everything from the initial break on is mapped, and the bytes below the initial break survive |
| Loader.Image.MapLoad | src/core_mapper.c:56-110 | the bytes, the break and the protected range after mapping a segment that is not the first, or the SIGBUS in its memset; every byte of the file part is in its place |
| Loader.FileLengthIs | src/core_mapper.c:58-58 | the nested page macros map up to the page boundary beyond the file part |
| Loader.LoadsIff | src/core_mapper.c:69-77 | a segment with a zero-filled tail is loaded exactly when its file part does not end on a page boundary that is the end of the file |
| Loader.SegmentIsLoaded | src/core_mapper.c:57-82 | the file's bytes, then zeros up to the memory size, all mapped, and nothing changed outside the segment's pages |
| Loader.FileIsLoaded | src/core_mapper.c:57-58 | for every segment, with a zero-filled tail or without, the file's bytes are in their places; without one, nothing changes outside its own pages |
| Loader.BreakByNumber | src/core_mapper.c:70-100 | the break that each kind of segment leaves, in plain arithmetic |
| Loader.BreakIsAlignedIffBss | src/core_mapper.c:86-100 | the break left by a writable segment is page aligned, and then beyond the segment, exactly when it has a zero-filled tail |
| Loader.BreakIsBeyondIff | src/core_mapper.c:98-100 | without a zero-filled tail the break is beyond the segment exactly when the page offsets of its address and size fit into one page |
| Loader.SurvivesGrowthIff | src/core_mapper.c:98-100 | the segment's data survives the first growth of the break exactly under the same condition |
| Loader.ProtectionReachesEndIff | src/core_mapper.c:108-110 | where the final mprotect ends, in plain arithmetic, and that it covers the whole segment exactly when the page offsets of its address and memory size fit into one page |
| InitialStack.MapVal | src/core_mapper.c:169-173 | the words up to the terminating zero are copied, all others kept |
| InitialStack.AddAuxvt | src/elf_parsing.c:350-359 | the pair is written at the first two adjacent zero words |
| InitialStack.AddAppendsIff | src/elf_parsing.c:354-357 | over a well-formed vector the pair is appended exactly when the last value is not zero or the pair is the terminator |
| InitialStack.AddAfterZero | src/elf_parsing.c:354-357 | behind a pair of value zero the id of a further zero-valued pair becomes that value |
| InitialStack.FillAuxv | src/core_mapper.c:216-234 | the whole vector, closed by the zero-valued AT_SECURE and AT_NULL, is the intended list of pairs; without a file name AT_SECURE is the value of AT_EXECFN |
| InitialStack.CopyArguments | src/core_mapper.c:207-214 | the argument count less one, the arguments from the second on, and the environment, each closed by a zero |
| InitialStack.SetupStack | src/core_mapper.c:191-239 | a zeroed stack becomes the initial process stack of section 3.4.1 of the System V AMD64 psABI, for all arguments and environments that fit, with AT_EXECFN from the second argument |
| InitialStack.ArgumentsByPlace | src/core_mapper.c:207-214 | which word of the stack is the count, each argument, each environment string, each zero and each pair |
| InitialStack.AuxByNumber | src/core_mapper.c:216-234 | which id has which value, by the numbers of the ids |
| Descriptors.MergeAddressSpace | src/core_mapper.c:427-443 | two disjoint rings become one ring whose nodes are the concatenation |
| Descriptors.GetMemDesc | src/core_mapper.c:264-278 | the walk ends, finds a page exactly when it is there, and then its first descriptor |
| Descriptors.Unlink | src/core_mapper.c:523-524 | removing any node leaves the ring of the others in their order |
| Descriptors.DeletePage | src/core_mapper.c:519-525 | the page's first descriptor is unlinked and freed, the head's included, or nothing changes |
| Descriptors.ListDelMap | src/core_mapper.c:509-529 | exactly the descriptors of the leading pages that are present are removed and freed once, and the ring keeps the others in order; it goes on from a freed head exactly when the head's page is in the range and not last |
| Descriptors.FreeMemoryMap | src/core_mapper.c:446-460 | every node is read and then freed, once, in ring order, and never touched again |
| Descriptors.NothingAfterFree | src/core_mapper.c:453-457 | in that order of reads and frees no node is read or freed after it is freed |

## Left out

- The disassembler and assembler libraries: decoding is a parameter with stated assumptions, and the generated stubs are transcribed instruction by instruction instead of assembled.
- Platform.callback: the effect of each system call hook is a parameter, asked to match the kernel's only at the calls a run makes and only for registers that are not lost. The hooks of src/syscall_hook.c miss that where the call fails (libc returns -1 instead of the error number), for mmap (its flags are read from rcx, src/syscall_hook.c:180) and for brk (`Break`). It does not change which pages are readable, writable or refused, as a hooked mprotect or munmap would.
- Transparency.Transparent: asks that the guest leave the engine's own region (state structure, hook cell, host stack, stubs) alone; a guest that writes there breaks the engine. Closed and refused pages end a dispatch and are treated in `Engine`, not here; an access of the guest itself to an unmapped address, which faults natively too, is not modelled.
- Vector registers, mxcsr and `vzeroall`: they are saved and restored by repetitive moves, and the C calls in between are assumed not to disturb them.
- Emulation.CallMemoryExact: segment overrides on branch operands are not modelled; the code ignores them.
- Engine.Handler.OpcodesCflow: the offset is an unbounded number; the C `int` limits it to 2^31 - 1. Straight-line code that never ends is excluded by the precondition that the sweep stops. For a block of several pages success is claimed if all pages up to a page beyond the branch are readable, though a scan may not need the last of them.
- Engine.Handler.EvalTarget: nothing is claimed where the branch's first page is not usable; in a dispatch the patch over that page has just been taken off, so it is.
- PagedMemory.AddressSpace.MemRead: the running count is an unbounded number, where the C `int` would overflow for sizes of 2^31 and more; ranges that pass the end of the address space are excluded.
- Restoring protections is claimed only as calls to `mprotect`: `get_prot` always answers read-write-execute, so the previous protection of a page is not known to the code.
- The user callback and `length_cflow`: the callback is assumed to leave the engine's state alone, and the recorded length is never read.
- The page-mapping path of `write_hook`, and `unmap`: unreachable while `is_mapped` is constantly true.
- Loader.Image.MapLoad: the first segment of a binary, whose size does not depend on its address, and mapping failures, which are kernel results.
- Break.BreakRuns: other mappings above the break, which a fixed mapping would replace, are not modelled.
- Break.MapsToBreakIff: increments of 2^32 and more, which the code truncates to 32 bits, are in `HookBrk` only.
- Pass-through system call hooks, their table, logging, register printing, ELF header parsing and allocation: thin wrappers, output or pointer fills.
- Concurrency: one guest thread.
