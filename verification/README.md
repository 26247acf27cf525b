# RoxyOS kernel model

A Dafny model of the stateful cores of the RoxyOS kernel, with proofs about them. `dafny verify dfyconfig.toml` checks all of it.

| part | files | modelled source |
|---|---|---|
| bytes and C strings | `Bytes`, `LibkString`, `Wrappers` | `kernel/libk/string.c` and the x86 layout of packed records |
| SimpleFS | `SimpleFsTable`, `SimpleFsPlan`, `SimpleFs`, `SimpleFsRuns` | `kernel/fs/simplefs.c` on a disk whose write commands may fail |
| kernel heap | `HeapBlocks`, `KernelHeap` | `kernel/libk/memory.c` |
| processes | `SchedulerSpec`, `Scheduler`, `SleepProtocol`, `ContextSwitch`, `Processes` | `kernel/scheduler.c`, `kernel/process.c`, the timer interrupt, `process_switch.asm` |
| terminal | `TerminalSpec`, `Terminal`, `LineEditorSpec`, `ConsoleRuns`, `Modifiers`, `Keyboard`, `Shell` | `kernel/drivers/vga.c`, `kernel/drivers/console.c`, `kernel/keyboard.c`, the tokenizer and the write command of `kernel/shell.c` |
| program loading | `ElfLoader`, `ElfExec` | `kernel/elf_loader.c`, `elf_exec` together with the heap |

## How it is built

Each core comes twice. A class holds the kernel's own arrays and variables and runs its loops and stores statement by statement: 512-byte sector buffers that are read, patched and written back; 8-byte block headers in the same byte array as the callers' data; the process arrays; 2000 cells of video memory. Each method's contract ties the new state to a function over values, and the theorems are about those functions: over every input, every prefix of a list of disk writes, or every run.

- **SimpleFS.** `Files(disk)` is the map from names to `NeverWritten` or a byte string that a disk image stands for, read back through the 64-byte entries in the shared table sectors. A plan is the list of sector writes that an operation issues. The disk decides by an arbitrary function which write commands fail; a failing one changes nothing.
- **Heap.** The abstraction is the list of blocks that the headers in memory spell out. A tiling without adjacent free blocks is determined by its live blocks (`CanonicalUnique`); coalescing, order independence of frees, and kfree undoing kmalloc all follow from that.
- **Processes.** A kernel state is the process states, the scheduler's array and position, the current and idle processes and the clock. `SleepProtocol` splits `process_sleep` at its stores, so that timer interrupts can fall between them. `ContextSwitch` is about the words of the process table and its stacks, and `Processes` runs the two together.
- **Terminal.** The screen is compared with an unbounded 80-column layout in which each character has one position for ever; the input line with a text before and a text after the cursor.

## Assumptions

- Disk reads succeed. SimpleFS operations other than format start from a disk that formatting and earlier operations produced. Names have at most 31 bytes and no NUL, data at most 2^32 - 512 bytes; `SectorCountIsExactBelowWrap` says what that bound is for.
- `kfree` gets live pointers or NULL. Requests to `kmalloc` are those that its 32-bit arithmetic gets right; `ServedIff` proves that it fails on all others.
- Each process is added to the scheduler at most once; the idle process is not in the table and never exits; a process that has exited executes nothing more.
- A process writes only its own stack while it runs, or words that are neither a stack nor a saved stack pointer.
- An ELF image, its headers included, overlaps none of the places it is loaded to; for `elf_exec`, no loaded segment writes a header field or a live payload of the heap. `HeaderOverwritten` shows what one that does can do.
- What the shell shows, prompt and screen clearing included, and the contents of the scancode tables are parameters.

## Facts about the code that the proofs settle

- A write is crash-atomic exactly when the file needs new room, or the data writes change none of its bytes: as far as the old contents and the sectors written reach, the old bytes are the new data followed by zeros (`WriteIsAtomicIff`). So appending within the last sector is atomic (`AppendInLastSectorIsAtomic`). Any other overwrite in place can leave the target torn, with the bytes that `InPlaceWriteTears` names; `TornRun` is such a run from format on.
- A zero-length write to a file that was never written fails, because an allocation of no sectors answers 0; to a written file it succeeds and reserves nothing (`WriteFailsIff`).
- kfree right after kmalloc restores the heap exactly when the request was served from a free block, not from the frontier (`MallocThenFree`); `FrontierStaysRaised` is the smallest case where it does not.
- kmalloc answers a request rightly exactly when rounding and the bound check survive their 32-bit wrap-around; otherwise it returns a block although there is no room (`ServedIff`, and `LargestRequestServedWrongly` for 2^32 - 1 bytes from the empty heap).
- A process that yields or sleeps keeps running when no other table member is ready and there is no idle process but itself (`SwitchesAwayIff`, and `LoneYieldReturns` for the smallest machine, reached in three steps from boot).
- process_sleep wakes its caller at the first timer interrupt that has reached its time, and not before, if and only if its call of the scheduler has somebody to switch to (`SleepProtocolExact`); `LoneSleeperReturnsEarly` is a caller that is ready again at tick 0.
- Redrawing an input line brings the screen into agreement with it if and only if the line ends on the screen once the cursor's row is visible, and the characters that were below the screen when drawn are spaces (`RedrawAgreesIff`). From a console in step that fails for one kind of key only: a character inserted before the end of a line that reaches the last cell of the screen, unless all it pushes over the edge is the space under the cursor (`StrokesKeepInStepIff`); typing at the end of a line always shows (`TypingAtEndShows`). `PushedOffRun` is such a run behind the prompt on the bottom row.
- Enter goes on from the cursor, not from the end of the line. What the old line has at or after the place where the next input begins stays on the screen behind the new prompt, unless the shell clears it (`EnterBlankIff`, `TailStaysBlankIff`); `StaleTailRun` is such a run.

## Model

| member | source | states |
|---|---|---|
| LibkString.Strcmp | kernel/libk/string.c:13-25 | returns the signed difference at the first position where the strings part; 0 exactly for equal strings |
| LibkString.DifferenceIsZeroOnlyForEqual | kernel/libk/string.c:13-25 | the comparison value is 0 only for equal strings, for all pairs |
| LibkString.DifferenceAtParting | kernel/libk/string.c:13-25 | for strings that part, the difference of the signed bytes there |
| LibkString.Strlen | kernel/libk/string.c:3-11 | the number of bytes before the first NUL |
| LibkString.Memcpy | kernel/libk/string.c:27-36 | the destination range becomes the source range as it was, all other bytes unchanged; when the destination begins inside the source, the bytes before it repeat |
| LibkString.Memset | kernel/libk/string.c:38-46 | exactly the given range is filled |
| LibkString.Strcpy | kernel/libk/string.c:48-63 | copies the string and its terminator, nothing after it |
| LibkString.Strcat | kernel/libk/string.c:65-78 | the destination string becomes the concatenation, other bytes unchanged |
| SimpleFsTable.EntryRoundTrip | kernel/include/simplefs.h:22-30 | an entry stored in its 64-byte packed layout decodes to itself |
| SimpleFsTable.RecordRoundTrip | kernel/include/simplefs.h:22-30 | any 64-byte record decodes and encodes back to the same bytes, reserved bytes included |
| SimpleFsPlan.EntryBytes | kernel/include/simplefs.h:22-30 | the layout byte by byte: name, start and size as numbers at 32 and 36, used flag at 40 |
| SimpleFsTable.TableAfterSlotWrite | kernel/fs/simplefs.c:289-298 | rewriting a shared table sector changes one of the 128 slots and no other |
| SimpleFsTable.SectorCountIsExactBelowWrap | kernel/fs/simplefs.c:235-241 | the 32-bit sector count is the rounded-up quotient exactly for sizes up to 2^32 - 512 |
| SimpleFsTable.FilesOfSlot | kernel/fs/simplefs.c:174-203 | in a well-formed table every used slot is the one that a search for its name finds, and gives that file's contents |
| SimpleFsTable.ContentFrame | kernel/fs/simplefs.c:315-332 | a file's contents depend on no sector outside its own extent |
| SimpleFsTable.AllocationSucceedsIffSomeRunFits | kernel/fs/simplefs.c:36-90 | allocation answers 0 exactly when no run of that many free sectors exists, and otherwise the start of the lowest one |
| SimpleFsTable.FreeRunInNumbers | kernel/fs/simplefs.c:36-90 | the free runs lie in sectors 145 to 1168 |
| SimpleFsTable.ExtentInNumbers | kernel/fs/simplefs.c:51-67 | which sectors an entry reserves |
| SimpleFs.FileSystem.AllocSector | kernel/fs/simplefs.c:36-90 | the scan returns the lowest run disjoint from every recorded extent within sectors 145..1168, and 0 when there is none or no sector is asked for |
| SimpleFs.MarkExtent | kernel/fs/simplefs.c:51-67 | marks exactly the sectors that one entry reserves |
| SimpleFs.FirstFreeRun | kernel/fs/simplefs.c:70-89 | finds the lowest run of the wanted length in the occupancy array, or 0 |
| SimpleFs.FileSystem.Format | kernel/fs/simplefs.c:92-112 | writes the superblock and 16 blank table sectors, going on after failing commands |
| SimpleFs.FileSystem.Find | kernel/fs/simplefs.c:174-203 | finds a name exactly when it is a file of the disk, and sets the handle to its lowest slot |
| SimpleFs.FileSystem.Create | kernel/fs/simplefs.c:114-150 | changes nothing and returns -1 when the plan fails; otherwise writes one sector, and returns 0 exactly when that command succeeds |
| SimpleFs.FillFreshEntry | kernel/fs/simplefs.c:131-139 | the byte stores put exactly the new file's entry in its slot of the sector |
| SimpleFs.FileSystem.Delete | kernel/fs/simplefs.c:205-226 | blanks the file's slot by one sector write, or changes nothing and returns -1 |
| SimpleFs.FileSystem.ChoosePlace | kernel/fs/simplefs.c:235-263 | keeps the file's place when it is large enough, otherwise allocates; the handle is unchanged afterwards |
| SimpleFs.FileSystem.WriteData | kernel/fs/simplefs.c:265-282 | carries out the zero-padded data sectors in order up to the first failing command |
| SimpleFs.FileSystem.Write | kernel/fs/simplefs.c:228-300 | carries out the write plan up to the first failing command and returns 0 exactly when all completed; without a plan returns -1 and changes nothing |
| SimpleFs.FileSystem.Read | kernel/fs/simplefs.c:302-335 | delivers exactly the file's bytes at the front of the buffer, or returns -1 with the buffer unchanged when the name is missing, was never written, or the buffer is too small |
| SimpleFsPlan.CreateAddsFile | kernel/fs/simplefs.c:114-150 | creating adds just that name, never written; the table stays well-formed |
| SimpleFsPlan.CreateFailsIff | kernel/fs/simplefs.c:114-150 | creation fails exactly when the name exists or 128 files exist |
| SimpleFsPlan.CreatedRecord | kernel/fs/simplefs.c:114-150 | creation fills the first unused record on the disk with the name, flag 1 and zeros |
| SimpleFsPlan.DeleteRemovesFile | kernel/fs/simplefs.c:205-226 | deleting removes just that name |
| SimpleFsPlan.DeleteFailsIff | kernel/fs/simplefs.c:205-226 | deletion fails exactly when the name is missing |
| SimpleFsPlan.DeletedRecord | kernel/fs/simplefs.c:205-226 | deletion leaves 64 zeros in the file's record |
| SimpleFsPlan.WriteReplacesContent | kernel/fs/simplefs.c:228-300 | a completed write makes the target read as exactly the data written and no other file differently; extents stay disjoint and in the data area |
| SimpleFsPlan.WrittenRecord | kernel/fs/simplefs.c:284-299 | a completed write leaves the chosen sector at 32 and the size at 36 of the file's record, its other bytes unchanged |
| SimpleFsPlan.WriteFailsIff | kernel/fs/simplefs.c:228-263 | a write has no plan exactly when the name is missing, or room is needed and the data is empty or no run fits |
| SimpleFsPlan.TargetIsFree | kernel/fs/simplefs.c:235-263 | the chosen place is in the data area and disjoint from every other file, and from the file's own old extent when it is relocated |
| SimpleFsPlan.RelocatingWriteIsAtomic | kernel/fs/simplefs.c:238-299 | after every proper prefix of a first or growing write's sector writes all files, target included, read as before |
| SimpleFsPlan.InPlaceWriteTears | kernel/fs/simplefs.c:265-299 | after each prefix of an overwrite in place, the target's exact bytes, every other file unchanged |
| SimpleFsPlan.WriteIsAtomicIff | kernel/fs/simplefs.c:228-300 | a write is crash-atomic if and only if the file needs new room or the old bytes, up to their end and that of the last sector written, are the data followed by zeros |
| SimpleFsPlan.AppendInLastSectorIsAtomic | kernel/fs/simplefs.c:238-299 | an append that needs no new sector is of that kind |
| SimpleFsRuns.FormatEmpties | kernel/fs/simplefs.c:92-112 | formatting a working disk leaves no file whatever it held; with failing commands a well-formed disk stays well-formed and only loses files |
| SimpleFsRuns.FormatSuperblock | kernel/fs/simplefs.c:92-106 | the bytes of the superblock in sector 128 |
| SimpleFsRuns.StepRefines | kernel/fs/simplefs.c:92-335 | every operation, whichever commands fail, keeps names unique and extents disjoint and does to the map of files what the abstract step allows: the return code is exact, and a failed overwrite in place leaves a prefix of its sectors |
| SimpleFsRuns.RunRefines | kernel/fs/simplefs.c:92-335 | along every run each step refines the map of files |
| SimpleFsRuns.FormatStartsCleanRun | kernel/fs/simplefs.c:92-335 | from any disk at all, a format without failures starts such a run with no files |
| SimpleFsRuns.WriteThenRead | kernel/fs/simplefs.c:228-335 | a successful write is what every later read returns, through any operations on other files and any failing commands |
| SimpleFsRuns.TornRun | kernel/fs/simplefs.c:228-300 | format, create, write 600 bytes, overwrite with 600 others failing at the second sector: -1, and the file reads as 512 new and 88 old bytes |
| SimpleFsRuns.Perform | kernel/fs/simplefs.c:92-335 | the byte-level operations take exactly the steps of the runs, answers included |
| HeapBlocks.Align4RoundsUp | kernel/libk/memory.c:6-9 | rounding up to 4 is right exactly for sizes up to 2^32 - 4 |
| HeapBlocks.FrontierTestExact | kernel/libk/memory.c:95-96 | the 32-bit bound check is right exactly when its sum does not wrap or wraps to an address above the heap |
| HeapBlocks.ServedIff | kernel/libk/memory.c:79-108 | for every size: the heap stays good, NULL means no room and anything else is a block of that size, if and only if the request passes the 32-bit arithmetic rightly |
| HeapBlocks.LargestRequestServedWrongly | kernel/libk/memory.c:6-9 | on the empty heap a request for 2^32 - 1 bytes is answered with an empty block |
| HeapBlocks.BlocksApart | kernel/libk/memory.c:79-120 | blocks are inside the used heap, 4-aligned, and disjoint, headers included |
| HeapBlocks.CanonicalUnique | kernel/libk/memory.c:45-72 | a tiling without adjacent free blocks is determined by its live blocks |
| HeapBlocks.CoalesceCanonical | kernel/libk/memory.c:45-72 | one pass reaches that form, keeping the span and every allocated block |
| HeapBlocks.CarveKeepsForm | kernel/libk/memory.c:29-43 | splitting a free block keeps the tiling and the form |
| HeapBlocks.MallocKeepsInv | kernel/libk/memory.c:79-108 | kmalloc keeps the heap invariant |
| HeapBlocks.MallocNullIff | kernel/libk/memory.c:79-96 | NULL, with the heap unchanged, exactly when the request is empty or neither a free block nor the frontier has room for that many bytes |
| HeapBlocks.MallocGives | kernel/libk/memory.c:79-108 | the result is a new live block, aligned, at most 15 bytes larger than asked, the lowest free block that fits or else the frontier; all other live blocks stay |
| HeapBlocks.HandedOverWholeIff | kernel/libk/memory.c:29-43 | the free block that serves a request is handed over whole if and only if at most 12 bytes would be left; otherwise it is cut to the rounded size, and the rest is the only new free block, of at least 8 bytes |
| HeapBlocks.TwelveLeftOverGoAlong | kernel/libk/memory.c:29-43 | of 16 free bytes a request for 4 takes all, and the next request goes to the frontier |
| HeapBlocks.FreeKeepsInv | kernel/libk/memory.c:110-120 | kfree keeps the invariant and takes away just the freed block |
| HeapBlocks.FreeOrderIrrelevant | kernel/libk/memory.c:110-120 | freeing the same live pointers in any two orders gives the same heap |
| HeapBlocks.FreeEverything | kernel/libk/memory.c:110-120 | freeing all live pointers leaves one free block over the used heap, or an empty heap |
| HeapBlocks.MallocThenFree | kernel/libk/memory.c:79-120 | kfree of a fresh result restores the exact heap if and only if it came from a free block |
| HeapBlocks.FrontierStaysRaised | kernel/libk/memory.c:79-120 | on the empty heap a small kmalloc and its kfree leave a free block and a raised frontier |
| HeapBlocks.StepKeepsLiveBlock | kernel/libk/memory.c:79-120 | a live block keeps its address and size through every call but its own kfree |
| HeapBlocks.RunSafe | kernel/libk/memory.c:79-120 | over every run the blocks tile the heap in canonical form, the frontier never falls, and live blocks stay |
| KernelHeap.KernelHeap.FindFreeBlock | kernel/libk/memory.c:11-27 | the walk over the headers in memory finds the lowest free block that fits |
| KernelHeap.KernelHeap.SplitBlock | kernel/libk/memory.c:29-43 | the header stores spell out the two parts, inside the block only |
| KernelHeap.KernelHeap.CoalesceBlocks | kernel/libk/memory.c:45-72 | the merging walk terminates with the headers of the coalesced list and touches no live payload |
| KernelHeap.KernelHeap.Kmalloc | kernel/libk/memory.c:79-108 | block list, frontier and pointer as in the list model; no live payload byte and nothing outside the used heap changes; a NULL result changes no byte |
| KernelHeap.KernelHeap.Kfree | kernel/libk/memory.c:110-120 | block list as in the list model; header fields of the blocks are all that changes, so no payload byte of a remaining live block |
| SchedulerSpec.DoKeepsInv | kernel/process.c:24-116 | every operation keeps: at most one RUNNING process and it is the current one, position in bounds, table members distinct and alive |
| SchedulerSpec.RunExtends | kernel/process.c:24-116 | a run can be continued by any operation its callers may make |
| SchedulerSpec.ExitedForever | kernel/process.c:91-105 | over every run an exited process stays exited and is never switched to |
| SchedulerSpec.LoneYieldReturns | kernel/process.c:77-89 | the only process without an idle process is still current after its yield, READY |
| SchedulerSpec.RemoveKeepsInv | kernel/scheduler.c:88-111 | removing an exiting process keeps the table distinct and the position in bounds |
| SchedulerSpec.PicksFirstEligible | kernel/scheduler.c:37-63 | dispatches the first ready process other than the current one in cyclic order, exactly when there is one; otherwise falls back to idle |
| SchedulerSpec.SwitchesAwayIff | kernel/scheduler.c:37-63 | a scheduling call leaves the current process if and only if another member is ready or there is another idle process |
| SchedulerSpec.InTurn | kernel/scheduler.c:37-63 | a scheduling call hands over to the first ready process of the table read from behind the position around to it, else to idle, else returns |
| SchedulerSpec.GivesWayInTurn | kernel/process.c:77-116 | a yield or sleep of the process at the position hands over to the first ready process behind it, around to the one before it |
| SchedulerSpec.ExitInTurn | kernel/process.c:91-99 | when the process at the position exits, the one behind it moves up and comes last; of the last process, the front one comes last |
| SchedulerSpec.ExitHandsOver | kernel/scheduler.c:88-111 | who runs after an exit, wherever the exiting process stands in the table |
| SchedulerSpec.DispatchedRuns | kernel/process.c:61-75 | after every operation that changes the current process, that process is RUNNING |
| SchedulerSpec.SwitchStates | kernel/process.c:61-71 | a switch makes its target RUNNING, whoever was RUNNING READY, and changes no other state |
| SchedulerSpec.CreateTakesLowest | kernel/process.c:24-39 | creation makes the lowest unused slot ready and changes no other |
| SchedulerSpec.AddAppends | kernel/scheduler.c:29-35 | a process that is not in the table always finds room and is appended |
| SchedulerSpec.TickSlices | kernel/arch/x86/irq.c:14-21 | a timer interrupt counts, and asks for rescheduling exactly when the slice is up, a sleeper is due against the new count, or it was asked for before |
| SchedulerSpec.SliceOverRun | kernel/scheduler.c:65-76 | over every run the slice counts the timer interrupts modulo ten |
| SchedulerSpec.YieldClearsRequest | kernel/process.c:77-89 | a yield leaves no request for rescheduling |
| SchedulerSpec.LoneProcessReached | kernel/process.c:24-75 | creating, adding and starting one process after boot leads to a machine with nobody to switch to |
| SchedulerSpec.ScheduleMakesProgress | kernel/scheduler.c:37-63 | each call dispatches a waiting process or brings it strictly closer in cyclic distance |
| SchedulerSpec.BoundedBypass | kernel/scheduler.c:37-63 | along every run that leaves the table alone a waiting process is dispatched within as many scheduling calls as the table has members |
| Scheduler.Scheduler.Schedule | kernel/scheduler.c:37-63 | the scanning loop and switch have exactly the modelled effect |
| Scheduler.Scheduler.Add | kernel/scheduler.c:29-35 | appends to the array while it has room, and changes nothing else |
| Scheduler.Scheduler.Remove | kernel/scheduler.c:88-111 | search and shifting loops remove the process and reset the position when needed |
| Scheduler.Scheduler.Wakeup | kernel/scheduler.c:113-128 | exactly the blocked members whose time has come become ready |
| Scheduler.Scheduler.TimerInterrupt | kernel/arch/x86/irq.c:14-21 | counts, then wakes against the new count, then accounts the slice |
| Scheduler.Scheduler.CreateKernel | kernel/process.c:24-59 | takes the lowest unused slot and makes it ready, or changes nothing |
| Scheduler.Scheduler.Yield | kernel/process.c:77-89 | makes the current process ready and schedules |
| Scheduler.Scheduler.Exit | kernel/process.c:91-99 | marks the current process exited, removes it and schedules |
| Scheduler.Scheduler.Sleep | kernel/process.c:107-116 | stores the wakeup tick, blocks, and schedules, in that order |
| SleepProtocol.SleeperStep | kernel/scheduler.c:113-128 | no step but an interrupt that has reached its time disturbs a sleeper, and that one makes it ready |
| SleepProtocol.WokenExactlyOnTime | kernel/scheduler.c:113-128 | over every run a sleeper stays blocked until the first interrupt whose count has reached its time, which makes it ready |
| SleepProtocol.SleepSetsAlarm | kernel/process.c:107-116 | with interrupts anywhere between the statements, the caller is blocked with alarm t + n once the BLOCKED store is done |
| SleepProtocol.IrqsWakeIff | kernel/scheduler.c:113-128 | interrupts before the scheduler call wake the caller exactly when one of them reached its time |
| SleepProtocol.WokenOnTimeIff | kernel/scheduler.c:37-63 | a caller about to call the scheduler is woken on time along every run if and only if there is somebody to switch to |
| SleepProtocol.LoneSleeperReturnsEarly | kernel/process.c:107-116 | the only process without an idle process sleeps, yields, and is ready before its time |
| SleepProtocol.SleepProtocolExact | kernel/process.c:107-116 | the whole protocol from the call on, for every caller in the table: no early and no lost wakeup, if and only if the scheduler call has somebody to switch to |
| SleepProtocol.UninterruptedSleep | kernel/process.c:107-116 | without interrupts in between the protocol is process_sleep in one step |
| ContextSwitch.Cpu.SwitchAsm | kernel/arch/x86/process_switch.asm:7-26 | the pushes, the store of the stack pointer, the swap and the pops have exactly this effect on memory and registers |
| ContextSwitch.Cpu.ProcessSwitch | kernel/process.c:61-75 | the switch stores the old slot's frame and loads the new slot's |
| ContextSwitch.Cpu.CreateFrame | kernel/process.c:33-53 | the new slot's words: pid, state 1, the entry on top of an otherwise zero stack; its frame starts at the entry with zero registers; no other slot changes |
| ContextSwitch.SwitchSaves | kernel/arch/x86/process_switch.asm:12-17 | the saved pointer is 7 words below the call's stack pointer, and from there lie edi, esi, ebx, ebp and the return address; no other slot is touched |
| ContextSwitch.SwitchLoads | kernel/arch/x86/process_switch.asm:19-26 | the pops deliver the frame that the next slot had before the switch |
| ContextSwitch.TakeKeepsInv | kernel/process.c:61-75 | every suspended process has its recorded registers in its own slot, and a switch delivers exactly those |
| ContextSwitch.SwitchIsTransparent | kernel/process.c:61-75 | after any run of the others a process gets back its own edi, esi, ebx, ebp, stack pointer and return address |
| ContextSwitch.FirstSwitchStartsAtEntry | kernel/process.c:41-53 | a new process first runs at its entry with zero registers, whatever ran in between |
| Processes.BootInv | kernel/process.c:7-12 | booting starts such runs, whatever memory holds |
| Processes.DispatchAllowed | kernel/scheduler.c:37-63 | whenever an operation switches, its target has a frame to resume from |
| Processes.TakeKeepsInv | kernel/process.c:24-116 | every operation, creation and stretch of work keeps a frame for every living process but the current one |
| Processes.ResumesWhereSuspended | kernel/process.c:61-116 | in every run of the process operations a process that lost the processor continues with its own registers behind its own call |
| Processes.StartsAtEntry | kernel/process.c:24-59 | in every run a created process first runs at its entry with zero registers |
| TerminalSpec.ShownWhereItWasPut | kernel/drivers/vga.c:41-60 | in the layout each character stays at the position where the text before it ended |
| TerminalSpec.ShownOnlyWhatWasPut | kernel/drivers/vga.c:41-60 | every other position shows a space |
| TerminalSpec.PutShows | kernel/drivers/vga.c:41-89 | one more character keeps the screen equal to the last 25 rows of the layout, scrolling included |
| TerminalSpec.PutAllShows | kernel/drivers/vga.c:30-89 | after clearing, any text leaves the screen showing the last 25 rows of its layout, cursor included |
| TerminalSpec.VideoMemoryAfter | kernel/drivers/vga.c:13-60 | the same on video memory: the low byte of each cell is the character, the high byte the colour, or 0xFF for characters above 127 |
| TerminalSpec.PutStores | kernel/drivers/vga.c:13-60 | the bytes that one character leaves at the cursor |
| TerminalSpec.PutAtStores | kernel/drivers/vga.c:186-192 | the bytes that a character drawn at a position leaves there, and that no other cell changes |
| TerminalSpec.EmitShows | kernel/drivers/vga.c:30-89 | the same for output that clears the screen on its way: only the text since the last clear shows |
| TerminalSpec.TextBlankIff | kernel/drivers/vga.c:41-89 | after any text the cells ahead of the cursor are blank exactly when those from the position reached on were |
| TerminalSpec.MarkStays | kernel/drivers/console.c:22-42 | the input-start marker keeps naming the same row and column of the layout until that row has scrolled off |
| Terminal.Terminal.Clear | kernel/drivers/vga.c:30-39 | blanks all cells and homes the cursor |
| Terminal.Terminal.Scroll | kernel/drivers/vga.c:70-89 | the copying loops move every row up by one, blank the last, and move the marker |
| Terminal.Terminal.PutChar | kernel/drivers/vga.c:41-68 | has the modelled effect on cells, cursor and marker |
| Terminal.Terminal.SetCursor | kernel/drivers/vga.c:159-174 | scrolls until the row is on the screen and places the cursor there |
| Terminal.Terminal.PutEntryAt | kernel/drivers/vga.c:186-192 | changes one cell, or nothing outside the screen |
| LineEditorSpec.EraseUndoesInsert | kernel/keyboard.c:261-313 | backspace takes back the character just typed |
| LineEditorSpec.EditOnText | kernel/keyboard.c:261-313 | on the text with a cursor in it: typing inserts at the cursor up to 255 characters, backspace removes before it, Enter empties it |
| LineEditorSpec.MovingKeepsText | kernel/keyboard.c:178-194 | the cursor keys move by one within the text and keep it |
| LineEditorSpec.CursorKeysUndo | kernel/keyboard.c:178-194 | the cursor keys undo each other |
| LineEditorSpec.RedrawnCells | kernel/keyboard.c:135-155 | every cell, the marker and the cursor after redrawing, for any line, clipped or scrolled |
| LineEditorSpec.RedrawAgrees | kernel/keyboard.c:135-155 | a line that fits is shown cell by cell, vacated cells are blank, the cursor is on its cell, and nothing else changes unless the cursor's cell makes the screen scroll |
| LineEditorSpec.RedrawAgreesIff | kernel/keyboard.c:135-155 | for every line, agreement if and only if it ends on the screen once the cursor's row is visible and what lay below the screen when drawn is spaces |
| LineEditorSpec.ShowableIffNotPushed | kernel/keyboard.c:135-155 | while screen and text agree, a key draws a line that cannot be shown exactly when it pushes something other than the space under the cursor off the last cell |
| LineEditorSpec.TypingAtEndShows | kernel/keyboard.c:299-313 | a character typed at the end of the line is always shown |
| LineEditorSpec.KeyAgreesIff | kernel/keyboard.c:164-314 | after each key screen and text agree exactly when the new line can be shown, or the key was Enter, or it changed nothing and they agreed before |
| LineEditorSpec.RedrawKeepsBlank | kernel/keyboard.c:135-155 | no redraw leaves anything behind the end of the line |
| LineEditorSpec.EnterBlankIff | kernel/keyboard.c:279-295 | after Enter the screen behind the new input line is blank exactly when the shell clears it or the old line has only spaces from the place on where the new input begins |
| ConsoleRuns.TypedLinesOk | kernel/keyboard.c:164-314 | for every scancode sequence the line and every line handed to the shell has at most 255 characters and no NUL |
| ConsoleRuns.CursorStaysInPlace | kernel/keyboard.c:124-155 | over every sequence of scancodes the screen's cursor stays on the cell of the cursor position |
| ConsoleRuns.StrokesKeepInStepIff | kernel/keyboard.c:164-314 | over every sequence of scancodes and shell outputs screen and text agree throughout if and only if every line drawn can be shown, and if and only if no key pushes a character off the screen |
| ConsoleRuns.PushedOffRun | kernel/keyboard.c:135-155 | 71 letters behind the prompt on the bottom row, one step left and two letters: in agreement before the last key and not after it |
| ConsoleRuns.TailStaysBlankIff | kernel/keyboard.c:164-314 | over every such sequence in agreement the screen stays blank behind the line if and only if every Enter is clean |
| ConsoleRuns.StaleTailRun | kernel/keyboard.c:279-295 | 100 letters, back to the first and Enter: the end of the old line stays behind the new prompt |
| Modifiers.FlagsFollow | kernel/keyboard.c:164-240 | over every sequence of strokes: shift is held if and only if a shift key went down and none has come up since, Caps Lock is on if and only if it was pressed an odd number of times, bytes behind 0xE0 not counted |
| Modifiers.StrokeMeans | kernel/keyboard.c:164-259 | the whole decoding from the strokes before: a letter key gives the capital if and only if exactly one of shift and Caps Lock is on, any other key takes the shifted table if and only if shift is held, and behind 0xE0 only the arrow codes count |
| Modifiers.CapsLockRun | kernel/keyboard.c:226-256 | Caps Lock makes the A key a capital, and shift on top of it small again |
| Keyboard.Keyboard.RedrawInput | kernel/keyboard.c:135-155 | the drawing loops have the modelled effect on the screen |
| Keyboard.Keyboard.EraseChar | kernel/keyboard.c:261-273 | the shifting loop removes the character before the cursor and keeps the buffer terminated |
| Keyboard.Keyboard.InsertChar | kernel/keyboard.c:299-312 | the shifting loop inserts at the cursor and keeps the buffer terminated |
| Keyboard.Keyboard.BufferIsTheText | kernel/keyboard.c:80-86 | the buffer, read as a C string, is the edited text |
| Keyboard.Keyboard.EnterLine | kernel/keyboard.c:279-295 | Enter hands the whole text and its arguments to the shell, shows its output, clearing included, and begins a new line at the cursor |
| Keyboard.Keyboard.Handler | kernel/keyboard.c:164-314 | one scancode takes exactly the step of the runs, on flags, text and screen, and on Enter yields the text's arguments |
| Shell.WordsAreWords | kernel/shell.c:277-295 | words are non-empty and without spaces |
| Shell.OneWord | kernel/shell.c:277-295 | a text without a space is one word, or none if empty |
| Shell.SpaceSeparates | kernel/shell.c:277-295 | the words of two texts with a space between are those of both, in order |
| Shell.FirstSixteen | kernel/shell.c:267-277 | the arguments are the first 16 words |
| Shell.CommandLine.Tokenize | kernel/shell.c:267-295 | the in-place tokenizer leaves argv pointing at the first 16 words of the line, each a C string in the buffer |
| Shell.CommandLine.JoinText | kernel/shell.c:166-175 | the appending loop builds the arguments from the third on, joined by single spaces |
| Shell.WordsOfJoin | kernel/shell.c:166-175 | splitting joined words gives the words back |
| Shell.WrittenTextSplitsBack | kernel/shell.c:158-177 | the text that the write command stores splits into exactly its argument words |
| Shell.WrittenTextFits | kernel/shell.c:158-175 | the joined arguments of a line of at most 255 characters always fit the 512-byte buffer |
| ElfLoader.Memory.Load | kernel/elf_loader.c:9-70 | rejects a bad header with -1 and memory unchanged, on the header's bytes; otherwise every byte is the one that loading all segments in order gives, stated on the segments and on the bytes of the program headers |
| ElfLoader.LastSegmentDecides | kernel/elf_loader.c:46-65 | a covered byte is decided by the last PT_LOAD segment that covers it: file byte below p_filesz, zero up to p_memsz |
| ElfLoader.UncoveredByteStays | kernel/elf_loader.c:46-65 | a byte that no loaded segment covers is unchanged |
| ElfLoader.ImageKept | kernel/elf_loader.c:42-65 | loading leaves the image itself alone, so the program headers read during the loop are those of the file |
| ElfLoader.AcceptedIsGood | kernel/elf_loader.c:14-40 | which bytes of the header the checks accept |
| ElfLoader.LoadingFollowsHeaders | kernel/elf_loader.c:42-65 | on the file's bytes: the last program header of type 1 that reaches a byte gives it the file byte from the offset at 4, below the address at 8 plus the size at 16, and 0 up to the size at 20; elsewhere nothing changes |
| ElfLoader.SmallProgram | kernel/elf_loader.c:46-65 | a concrete program with 4 bytes in the file and 8 in memory |
| ElfLoader.SmallProgramLoadable | kernel/elf_loader.c:9-70 | elf_load can be called on it |
| ElfExec.Exec | kernel/elf_loader.c:72-95 | over one memory, kmalloc, the read, elf_load and kfree leave the same blocks live with the same bytes for every program that writes no header field and no live payload of the heap; every byte but the header fields ends as the segments decide |
| ElfExec.SameBlocksLive | kernel/elf_loader.c:72-95 | allocating and freeing the buffer keeps the live blocks, and the heap itself exactly when the frontier did not have to move |
| ElfExec.LoadSparesHeap | kernel/elf_loader.c:46-65 | such a program changes no byte that the heap needs |
| ElfExec.HeaderOverwritten | kernel/elf_loader.c:46-65 | a segment whose zeroed part covers a block's size word destroys that block's header |

## Left out

- ATA port I/O and polling, PIC, PIT, GDT, IDT, TSS, boot code and interrupt stubs: only a sector array with failing writes and a tick counter remain.
- Disk read errors: a failing read inside a search looks like a missing name to the code.
- `simplefs_find_free_entry` (never called), `simplefs_list`, and any use of the superblock fields, which are never read back.
- SimpleFs.FileSystem.Write: data above 2^32 - 512 bytes, whose 32-bit sector count wraps to 0.
- SimpleFs.FileSystem.Find: table sectors that formatting and the operations never produce, such as names without a terminator.
- SimpleFs.FileSystem.Create: names of more than 31 bytes, which the code copies unchecked.
- KernelHeap.KernelHeap.Kmalloc: what becomes of memory after a request that `ServedIff` shows to be answered wrongly.
- Scheduler.Scheduler.CreateKernel: the pid and the initial stack; the stack is modelled by `ContextSwitch.Cpu.CreateFrame`.
- Scheduler.Scheduler.Exit: the halting loop after the last switch.
- SchedulerSpec.BoundedBypass: runs that change the process table, since removing a member can push the next one to the back.
- SleepProtocol.SleepProtocolExact: wrap-around of the tick counter between the call and the wakeup, and interrupts inside the scheduler's own scan.
- `need_resched` as preemption: only the idle loop reads it, so scheduling is otherwise cooperative.
- ContextSwitch.Cpu.SwitchAsm: addresses count words instead of bytes; eflags and the segment registers, which the routine does not save.
- `vga_set_color`, `vga_backspace`, the hardware cursor registers, and the cursor left and right helpers: the screen keeps one colour.
- The 128-slot character queue of the keyboard, and what the shell's commands do besides their output.
- ElfLoader.Memory.Load: the call of the entry point, where control leaves the modelled code; reads beyond the image.
- ElfExec.Exec: what the loaded program does before it returns, and how `vfs_read` fills the buffer.
- `fd.c`, `syscall.c`, `vfs.c` and `printk.c`: small tables, forwarding calls and number formatting.
