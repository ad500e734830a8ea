# Kyro kernel: a verified model

Kyro is a small 32-bit x86 kernel written in C. This project models its stateful core in Dafny and proves what that
core keeps, over single calls, over whole runs, and across components. Each imperative source file has a class or
methods with its code's loops, branches and fields; each is proved against functions on plain values; and the theorems
about runs are stated on those values.

`dafny verify dfyconfig.toml` checks everything.

## The parts

**Memory.** `Heap` is the bump allocator. `Paging.Pager` is `kernel/memory/paging.c` on one flat memory of 4 million
32-bit words (16 MB): directories, page tables and the frame bitmap are blocks of words at the addresses `kmalloc`
returned, and a write is a write to a word. That tables, directories and the bitmap never overlap is not assumed; it
is the invariant `PageTables.Layout`, proved from the allocator. `VirtualMemory` says what the memory means: for each
directory a sequence of 2^20 entries, a set of used frames, and the heap break. Every method of `Pager` is proved to
act on that meaning as the function of the same name. The runs are in `VirtualMemory` (isolation of address spaces,
the identity map of low memory) and `FrameRuns` (no aliasing). `Hardware` is the walk that the processor makes through
the same words, and what it finds there compared with what the software says.

**Processes.** `Processes.ProcessTable` is `kernel/process.c` on records linked by address. Its operations are proved
against `Scheduler` (the list as a sequence, a current position, a pid counter) together with the memory, in `Kernel`.
`Liveness` has the theorems on infinite and finite runs of the list: no starvation, a wait bound, round robin.
`KernelRuns` carries them to runs of the whole kernel, where creations fail and memory operations interleave.

**Console.** `Screen.Console` is the 80 by 25 video memory that scrolls in place. It is proved to show the last 25
rows of `Transcript.Page`, an unbounded page that never scrolls. `Terminal` holds the two line readers, proved against
the editing functions of `LineEditing`. `KeyboardDriver.KeyboardState` is the driver with its ring buffer; the
interrupt handler may run any number of times between any two statements of the reader. `Keyboard` has the modifier
flags, the scancode tables and the drop rule.

**Formatting, arithmetic, strings.** `Digits` is positional notation and the two number printers, `Format` the format
language, `Printf` the two implementations of it, one into a buffer and one onto the screen, each with its own loop,
its own switch and its own count; `FormatLaws` says on bytes and text what each letter behind a '%' asks for.
`Arithmetic` has `sqrt`, `pow`, `gcd` and `lcm`, `MemoryCopy` and `Strings` the byte and C-string primitives with
their exact footprints.

**Tables.** `Users.UserTable` and `Files.FileTable` are arrays that close gaps by shifting. `Accounts` shows that the
first is an ordered map.

`Words`, `Bits`, `Products`, `CStrings`, `FirstMatch` and `Shifting` are small shared modules.

## How the model reads the code

- Integers are 32 bits wide where the source's are: `Words.Add32` and `Words.Mul32` wrap, bit operations are defined
  on numbers in `Bits`.
- Errors are results, not preconditions: a failed `kmalloc` is address 0, and `map_page` with an exhausted heap is
  modelled down to the words of low memory that it clears. A division by zero is the result `None`.
- An interrupt handler runs to completion, because the stubs run with interrupts disabled
  (`kernel/interrupts/interrupt_asm.s:41-46`). Each statement of the interrupted reader is one atomic step.
- Keys are the successive results of `keyboard_get_char`, 0 standing for "no key"; the bytes of the keyboard port and
  their arrival times are parameters. A reader whose input is used up is still waiting.
- Keyboard flags and LED bits are booleans of a record rather than bits of a byte.
- Process records are a map from addresses to values. The addresses come from `kmalloc` in the flat memory, which is
  how records and kernel stacks are proved disjoint, and out of reach of every write of the paging code.
- `current_process`, `process_list` and the counters are fields of a class, as are `heap_current`,
  `current_directory`, the cursor and the keyboard state. Ghost fields hold only what the proofs name: the order of
  the list, the owner of each word, the transcript, the codes accepted.
- A string argument is the bytes from its pointer on, and must contain a NUL.

## Where the code does less than it seems to

Each of these is a theorem, with the exact condition where there is one:

- `schedule` makes the outgoing process READY whatever its state, so an exited process runs again exactly when there
  is another READY process (`Liveness.ExitedRunsAgain`).
- `alloc_frame` compares after the multiplication, so it never notices that the frames have run out; frames handed out
  are distinct exactly while at most one call finds every frame used, whatever but `clear_frame` runs in between
  (`FrameRuns.SentinelNeverFires`, `FrameRuns.MixedFramesDistinct`).
- `kmalloc` is sound for every break exactly for sizes up to 0xFF7FFFFC (`Heap.SafeSize`).
- A new user process has nothing mapped, its stack included (`Kernel.NewProcessHasNoStack`). It has a directory at all
  exactly when the heap can hold one; `create_process` and `fork` do not look
  (`Processes.ProcessTable.CreateProcess`).
- `map_page` maps the given frame exactly when flags above bit 11 add nothing to it (`VirtualMemory.WideFlags`).
- From the entries in `tables_physical` the processor computes what `get_physical_address` answers exactly as long as
  the heap could serve the table (`Hardware.WalkExactly`). But the address that `switch_page_directory` loads is that
  of the directory, where the pointers lie, and from those it computes no address at all
  (`Hardware.PointersArePageFaults`).
- A page that `map_page` or `alloc_frame` maps is open to user code exactly if its flags say so and its table was there
  before and is open itself: the page for which a table is created never is, because the table is opened to user code
  exactly when that page is not (`Paging.Pager.MapPage`, `Paging.Pager.AllocFrame`).
- The echo of the line editor agrees with the buffer exactly while no backspace erases across a row boundary
  (`LineEditing.EchoAgreesExactly`). That of `gets_simple` does exactly while every backspace finds the cursor in
  column 1 when there is text to erase, and in column 0 when there is none (`LineEditing.SimpleEchoAgreesExactly`).
- `sqrt` faults exactly for 2^32 - 1; `lcm` is right exactly when the product fits a word (`Arithmetic.Sqrt`,
  `Arithmetic.Lcm`).
- The number `printf` returns is the length of its output exactly when its empty strings make up for the characters it
  does not count; without an empty string, exactly when every number has one digit, every string one character, and
  there is no pointer and no null string (`Format.CountIsLengthExactly`).
- `memcpy` does what `memmove` does exactly when the destination does not start inside the source
  (`MemoryCopy.CopyIsMove`).
- The uids stay in order, and below the counter, in every step but the add that takes the last uid
  (`Accounts.ApplyKeepsOrdered`); the order alone is lost with the next add whose uid is not above the last one listed
  (`Accounts.ApplyKeepsIncreasing`). No uid is issued twice exactly while at most 2^32 are issued
  (`Accounts.NeverReused`).

Of the pids nothing of the kind is true: every pid costs a record of heap that is never given back, so the pid counter
cannot wrap, however long the kernel runs (`Kernel.PidsNeverRunOut`). This rests on requests of sizes that `kmalloc`
serves properly.

## Model

| member | source | states |
|---|---|---|
| Heap.BumpHeap.Kmalloc | kernel/utils/memory.c:9-19 | refines the allocation function: the returned address and the new break, wrap-around and failure included |
| Heap.BumpHeap.KmallocA | kernel/utils/memory.c:21-25 | the same after aligning the break, which stays aligned even when the request fails |
| Heap.BumpHeap.KmallocP | kernel/utils/memory.c:27-33 | the physical address reported is the virtual one |
| Heap.BumpHeap.KmallocAp | kernel/utils/memory.c:35-41 | both of the above |
| Heap.SoundExactly | kernel/utils/memory.c:9-19 | exactly which sizes a given break serves properly, given 32-bit wrap-around |
| Heap.SafeSize | kernel/utils/memory.c:9-19 | 0xFF7FFFFC is the largest size that is served properly whatever the break |
| Heap.ServedExactly | kernel/utils/memory.c:9-41 | for such sizes what each of the four functions returns and leaves, in unbounded arithmetic: rounding to 4 and to pages, and failure exactly at 8 MB |
| Heap.HugeRequestOverlaps | kernel/utils/memory.c:9-19 | inputs beyond it: a block of no length, and a break that moves below the heap |
| Heap.EnoughHeap | kernel/utils/memory.c:9-41 | with enough heap left every one of the four functions succeeds and consumes at most a page more than asked |
| Heap.BlocksInOrder | kernel/utils/memory.c:9-41 | over any run, successful blocks follow one another between the first and the last break, aligned |
| Heap.AllocatorRun | kernel/utils/memory.c:6-41 | over any run from boot, blocks are pairwise disjoint, aligned and inside the heap, and the break never falls or passes the end |
| PageTables.TablesApart | kernel/memory/paging.c:21-27 | no two directories share a table; tables, directories and the bitmap never overlap |
| PageTables.WriteElsewhere | kernel/memory/paging.c:97-112 | writes outside table pointers and tables change no address space |
| PageTables.WriteEntry | kernel/memory/paging.c:84-85 | a write to one table entry changes one page of one address space, and keeps the layout |
| PageTables.LinkTable | kernel/memory/paging.c:72-82 | creating a zeroed table on demand disturbs no translation of any directory |
| PageTables.AddDirectory | kernel/memory/paging.c:21-27 | a new directory is an empty address space beside all others, which stay as they are |
| Paging.Pager.CreatePageDirectory | kernel/memory/paging.c:21-27 | flat memory refines adding an empty address space that knows its own address; 0 and no new space when the heap is exhausted |
| Paging.Pager.PagingInit | kernel/memory/paging.c:29-61 | leaves exactly the identity map of the first 8 MB, no used frame, and the kernel directory current |
| Paging.Pager.CreateKernelDirectory | kernel/memory/paging.c:36-44 | bitmap and directory are separate zeroed blocks, so nothing is mapped before the loop |
| Paging.Pager.MapIdentityPage | kernel/memory/paging.c:47-49 | each round of the loop extends the identity map by one page and creates at most two tables in all |
| Paging.Pager.SwitchPageDirectory | kernel/memory/paging.c:63-66 | changes which address space is current and none of their contents |
| Paging.Pager.MapPage | kernel/memory/paging.c:68-86 | flat memory refines setting one entry of the current address space, tables created on demand, heap exhaustion included; exactly when user code may use the page afterwards |
| Paging.Pager.LinkNewTable | kernel/memory/paging.c:72-82 | the on-demand branch: it adds an empty table and changes no translation, whether or not the heap can serve it; the entry for the processor has the address of the table and is open to user code exactly if the flags are not |
| Paging.Pager.UnmapPage | kernel/memory/paging.c:88-95 | clears one entry of the current address space, and nothing if the page has no table |
| Paging.Pager.GetPhysicalAddress | kernel/memory/paging.c:97-112 | the software walk answers what the address space says |
| Paging.Pager.SetFrame | kernel/memory/paging.c:114-120 | the bitmap refines insertion into the set of used frames |
| Paging.Pager.ClearFrame | kernel/memory/paging.c:122-128 | and removal from it |
| Paging.Pager.TestFrame | kernel/memory/paging.c:130-136 | nonzero exactly for members and for addresses beyond the last frame |
| Paging.Pager.FirstFreeFrame | kernel/memory/paging.c:138-149 | the least free frame, or -1 exactly when all 4096 are used |
| Paging.Pager.AllocFrame | kernel/memory/paging.c:151-165 | refines taking the least free frame and mapping it, exhaustion included; exactly when user code may use the page afterwards |
| Hardware.WalkExactly | kernel/memory/paging.c:72-86 | for every address in every directory, exactly when the walk of the processor from tables_physical computes what get_physical_address answers |
| Hardware.PointersArePageFaults | kernel/memory/paging.c:21-27 | from the address of a directory, which physical_addr is, the processor computes no address |
| Hardware.MatchLink | kernel/memory/paging.c:74-81 | writing pointer and entry of a new table keeps the two halves of every directory in step |
| Hardware.MatchElsewhere | kernel/memory/paging.c:84-136 | so does every write outside the directories |
| Hardware.EntryForUsers | kernel/memory/paging.c:84-85 | the permission bits of an entry are those of the flags, for every flags word |
| Paging.FullWord | kernel/memory/paging.c:138-142 | a bitmap word is all ones exactly when its 32 frames are used |
| VirtualMemory.EntryParts | kernel/memory/paging.c:84-85 | entry and flags never mix while the flags fit 12 bits; otherwise their high bits join the page number |
| VirtualMemory.MapThenTranslate | kernel/memory/paging.c:68-112 | after map_page the walk answers the new frame on that page and what it answered before everywhere else, in every directory |
| VirtualMemory.WideFlags | kernel/memory/paging.c:84-85 | for arbitrary flags, exactly when the walk answers the mapped frame |
| VirtualMemory.UnmapUndoesMap | kernel/memory/paging.c:68-95 | unmap_page undoes map_page on an unmapped page |
| VirtualMemory.StepKeepsValid | kernel/memory/paging.c:21-165 | every operation keeps the memory in order and loses no directory |
| VirtualMemory.StepIsolates | kernel/memory/paging.c:68-112 | no operation changes an address space that is not current |
| VirtualMemory.RunIsolates | kernel/memory/paging.c:68-112 | nor does any run, with directories created and switched in between |
| VirtualMemory.BootStep | kernel/memory/paging.c:47-49 | the invariant of the mapping loop |
| VirtualMemory.IdentityMapsLowMemory | kernel/memory/paging.c:45-49 | the kernel directory translates every address below 8 MB to itself and nothing above, by writable supervisor pages |
| VirtualMemory.IdentityTranslates | kernel/memory/paging.c:97-112 | identity on entries and identity of the walk are the same thing |
| VirtualMemory.IdentityStays | kernel/memory/paging.c:68-112 | the identity map survives every run that does not remap low memory |
| VirtualMemory.HeapBlocksAreIdentity | kernel/utils/memory.c:27-33 | hence every byte of every later heap block has its virtual address as its physical one |
| FrameRuns.FullExactly | kernel/memory/paging.c:138-149 | no free frame exists exactly when 4096 are used |
| FrameRuns.SentinelNeverFires | kernel/memory/paging.c:151-156 | the test for exhaustion is never true; with a free frame left exactly one new frame is taken |
| FrameRuns.DistinctFrames | kernel/memory/paging.c:151-165 | frames of a run of alloc_frame calls alone are pairwise distinct exactly while there is at most one call more than free frames |
| FrameRuns.MixedFramesDistinct | kernel/memory/paging.c:114-165 | frames handed out in any run without clear_frame, with maps, unmaps, set_frame, new directories and switches in between, are pairwise distinct exactly while at most one call finds all frames used |
| FrameRuns.MixedFramesAreFree | kernel/memory/paging.c:114-165 | and none of them was used when the run began |
| FrameRuns.AllocAt | kernel/memory/paging.c:151-165 | one call changes one page, to a frame that was free |
| FrameRuns.AllocPermissions | kernel/memory/paging.c:160-162 | the new page is present, writable exactly if asked, and open to user code exactly if it is no kernel page |
| FrameRuns.SetThenClear | kernel/memory/paging.c:114-128 | below 16 MB set_frame marks the frame of the address and clear_frame takes the mark back; beyond it both do nothing |
| FrameRuns.RunAliasFree | kernel/memory/paging.c:114-165 | over any run without clear_frame, pages mapped by alloc_frame never share a frame, across all address spaces |
| Scheduler.ScanIsFirstReady | kernel/process.c:96-104 | the search stops at the first READY process on the way round, and at the current one only if there is none |
| Scheduler.ExitWakesParent | kernel/process.c:157-164 | a BLOCKED parent of the exiting process is READY afterwards, or already runs |
| Scheduler.ExitSparesOthers | kernel/process.c:151-165 | a process that is neither that parent nor chosen next keeps its state |
| Scheduler.ApplyKeepsInv | kernel/process.c:18-165 | every step keeps the list strictly decreasing in pid, the current process in it, at most one RUNNING process, parents older than children, while pids are left; that they always are is Kernel.PidsNeverRunOut |
| Liveness.RescheduleApproaches | kernel/process.c:93-110 | schedule runs a waiting process or comes strictly nearer to it |
| Liveness.StepMeasure | kernel/process.c:18-165 | no other step loses what schedule gained: the lexicographic measure never grows |
| Liveness.NoStarvation | kernel/process.c:93-124 | in every infinite run of the list in which schedule is called again and again, a READY process that stays listed becomes current |
| Liveness.WaitBound | kernel/process.c:93-124 | it waits at most its distance in calls, plus one for each process created meanwhile |
| KernelRuns.NoStarvation | kernel/process.c:93-124 | the same for every infinite run of the kernel, with failing creations and memory operations in between, and no bound on pids |
| KernelRuns.WaitBound | kernel/process.c:93-124 | on runs of the kernel it waits at most its distance in calls, plus one for each pid taken meanwhile |
| KernelRuns.OthersStayReady | kernel/process.c:93-165 | on every run of the kernel from boot a process that is not current is READY |
| KernelRuns.RunOnList | kernel/process.c:18-165 | every run of the kernel is a run of the list, in which failed creations and memory operations are steps that change nothing |
| KernelRuns.IdentityStays | kernel/memory/paging.c:45-49 | the kernel directory keeps mapping low memory to itself over every run of the kernel whose memory operations spare it |
| KernelRuns.HeapBlocksAreIdentity | kernel/utils/memory.c:27-33 | hence every byte of every block handed out after such a run has its virtual address as its physical one |
| Liveness.RoundRobin | kernel/process.c:93-124 | with a fixed list of n READY or RUNNING processes, n calls run each exactly once and restore the state |
| Liveness.RunKeepsOthersReady | kernel/process.c:93-165 | on runs from boot every process that is not current is READY |
| Liveness.Reachable | kernel/process.c:11-165 | the invariant holds in every state of every run from boot |
| Liveness.ExitedRunsAgain | kernel/process.c:107 | an exited process becomes READY and runs again, exactly when another process is READY |
| Liveness.AncestryIsAcyclic | kernel/process.c:136-138 | every chain from child to parent leads strictly down the list and is no longer than it |
| Liveness.ForkExtendsAncestry | kernel/process.c:126-149 | the ancestors of a new child are its parent and the parent's ancestors, and nobody else's change |
| Kernel.ApplyKeepsInv | kernel/process.c:18-165 | processes and memory stay in step: the current directory is the current process's, directories are live, and only the kernel directory is shared |
| Kernel.PidsNeverRunOut | kernel/process.c:19-24 | the pid counter never passes 38552: a pid is taken only after kmalloc has served a record, and nothing is freed |
| Kernel.SpawnKeepsInvExactly | kernel/process.c:33-58 | creating a process keeps this exactly when it is a kernel process or the heap can hold its directory |
| Kernel.DirectoryCanFail | kernel/process.c:33-35 | a state of the heap in which a user process gets a record and the directory NULL |
| Kernel.ReachableFromBoot | kernel/process.c:11-165 | it holds in every state of every run from boot, however long, and the pid counter has not wrapped |
| Kernel.Prepared | kernel/process.c:33-50 | create_process gives a user process an address space nobody had; other spaces but the creator's stay as they are |
| Kernel.BlocksExactly | kernel/process.c:19-31 | every process gets a record of 136 bytes and a stack of 8 KB behind it, while the heap has room for each |
| Kernel.StackGoesToCreator | kernel/process.c:37-39 | while there is a frame and a table for it, the stack page of a user process is a free frame at 0xBFFFF000 of its creator, present, writable and open to user code |
| Kernel.ProcessesAreIsolated | kernel/process.c:18-165 | while a user process is not current, no run of other processes, and no paging, frame or heap operation of theirs, changes any of its translations |
| Kernel.TranslationsStay | kernel/process.c:18-165 | so the software walk answers every address of a listed user process the same while it is away |
| Kernel.NewProcessHasNoStack | kernel/process.c:37-39 | the stack frame is mapped in the creator's directory: the new address space translates nothing |
| ProcessRecords.BlocksApart | kernel/process.c:19-31 | records and kernel stacks of different processes never overlap |
| ProcessRecords.PidsNeverRunOut | kernel/process.c:19-24 | the same for the linked records: one pid for each record the heap has held |
| ProcessRecords.RecordsSpared | kernel/process.c:19-31 | no write of the paging code reaches a record or a kernel stack |
| ProcessRecords.UnownedPushed | kernel/process.c:19-31 | nor one of a new process, whose blocks were allocated before its directory and tables |
| ProcessRecords.StackFollowsRecord | kernel/process.c:19-31 | the stack lies right behind the record |
| ProcessRecords.StartingRegisters | kernel/process.c:42-58 | the registers of a new process: ring 0 or 3 by its mode, the stack of that ring, interrupts on, its entry point and directory |
| ProcessRecords.Pushed | kernel/process.c:60-62 | push-front keeps the linked list well formed and is the list operation |
| ProcessRecords.DirectoriesPushed | kernel/process.c:33-62 | with a new record every process has a live directory exactly if every one had and the new one has |
| ProcessRecords.UnlinkedHead | kernel/process.c:71-72 | removing the head keeps it |
| ProcessRecords.UnlinkedInner | kernel/process.c:73-81 | bypassing an inner record keeps it |
| ProcessRecords.WokenIsTerminate | kernel/process.c:155-161 | waking through the parent pointer wakes exactly the record with the parent's pid |
| ProcessRecords.AdoptedView | kernel/process.c:136-141 | fork's writes to the child change its parent and registers only |
| Processes.ProcessTable.ProcessInit | kernel/process.c:11-16 | boot leaves one RUNNING process that uses the kernel directory, or none at all without room for its record |
| Processes.ProcessTable.CreateProcess | kernel/process.c:18-65 | the linked records and the memory refine creation, failed allocations included; the record has the segments, stacks, flags, entry point and directory address of its mode; every process has a live directory exactly if every one had and the heap could hold the new one |
| Processes.ProcessTable.DestroyProcess | kernel/process.c:67-91 | removes exactly the given record, and changes nothing if it is NULL or not listed |
| Processes.ProcessTable.FindPredecessor | kernel/process.c:74-77 | the pointer walk ends, at the unique record before the given one or at NULL if it is not listed |
| Processes.ProcessTable.Schedule | kernel/process.c:93-110 | refines the scheduling step and switches to the new process's directory, be it NULL |
| Processes.ProcessTable.FindNext | kernel/process.c:96-104 | the wrap-around pointer walk ends and finds what the search on positions finds |
| Processes.ProcessTable.SwitchTask | kernel/process.c:112-124 | nothing for NULL or the current process; otherwise the given process is RUNNING and current, in its own address space |
| Processes.ProcessTable.Fork | kernel/process.c:126-149 | -1 without a current process or record; otherwise a child with the parent's registers, and the child's pid; the same exact condition for its directory |
| Processes.ProcessTable.Exit | kernel/process.c:151-165 | refines termination, waking a blocked parent, and scheduling |
| Transcript.PutAllKeepsValid | kernel/kernel.c:77-116 | the cursor is always in bounds and rows only grow |
| Transcript.TextAppears | kernel/kernel.c:90-99 | text without control characters appears, character by character, from the cursor on, through the ends of rows, and the cursor stands behind it |
| Transcript.CursorMoves | kernel/kernel.c:78-84 | newline, return and tab write nothing and move the cursor to the next row, the row's start and the next multiple of 8 |
| Transcript.BackspaceErases | kernel/kernel.c:85-89 | backspace leaves a space one column back with its attribute, and does nothing in column 0 |
| Transcript.RowsAboveAreFinal | kernel/kernel.c:101-115 | what has scrolled off is final |
| Transcript.PrintersAgree | kernel/kernel.c:39-116 | print_message shows what putchar shows for every string free of tab and backspace |
| Transcript.PrintersAgreeExactly | kernel/kernel.c:39-116 | character by character, on which characters and pages the two printers differ: every backspace, and every tab but one special case |
| Transcript.AttributesStay | kernel/kernel.c:77-116 | every cell keeps the light-grey attribute |
| Screen.Console.ClearScreen | kernel/kernel.c:29-37 | shows the empty transcript, whatever the memory held |
| Screen.Console.PutChar | kernel/kernel.c:77-116 | the screen stays the last 25 rows of the unbounded transcript with the cursor in the matching place, for every character |
| Screen.Console.PrintMessage | kernel/kernel.c:39-75 | the same for every string |
| Screen.Console.PutString | kernel/printf.c:13-17 | puts appends exactly the string |
| Screen.Console.ScrollUp | kernel/kernel.c:101-115 | in-place copying moves every row up by one and blanks the last |
| Screen.Console.Settle | kernel/kernel.c:96-115 | wrap and scroll keep the screen equal to the transcript's last rows |
| LineEditing.ZerosIgnored | kernel/printf.c:20-41 | absent keys do not change the line |
| LineEditing.TypedIsKept | kernel/terminal.c:66-69 | characters from space to tilde are on the line, as typed |
| LineEditing.BackspacesUndo | kernel/terminal.c:59-65 | k backspaces take back the last k characters of the line |
| LineEditing.OthersIgnored | kernel/terminal.c:55-69 | every other character leaves the line alone, a backspace on an empty line included |
| LineEditing.EnterEndsLine | kernel/terminal.c:50-58 | reading goes on while there was no Enter and the buffer is not full, and Enter stops it with the line as it is |
| LineEditing.EchoShowsLine | kernel/terminal.c:46-72 | while the line is typed the echo shows it, blanks where text was erased, and nothing else changed |
| LineEditing.EchoAgreesExactly | kernel/terminal.c:59-65 | the cursor stands behind the line at every moment if and only if nothing is erased across a row boundary |
| LineEditing.EdgeCanBePopped | kernel/terminal.c:59-65 | an input that fails: two characters in the last two columns and a backspace |
| LineEditing.WithinRow | kernel/terminal.c:46-72 | so it does whenever the line stays in its row, and the cursor stays in that row |
| LineEditing.ScreenOnReturn | kernel/terminal.c:46-72 | when the reader returns the screen shows the line; after Enter the cursor is at the start of the row behind it, after a full buffer behind the line |
| LineEditing.WithinRowOnReturn | kernel/terminal.c:46-72 | for a line within its row, Enter leads to the row below |
| LineEditing.SimpleEchoErasesTwice | kernel/printf.c:26-61 | behind column 1 the echo of gets_simple moves back two columns for one backspace |
| LineEditing.SimpleEchoAgreesExactly | kernel/printf.c:20-66 | its cursor stands behind the line at every moment if and only if every backspace finds it in column 1 with text on the line, and in column 0 without |
| LineEditing.EmptyLineSlips | kernel/printf.c:26-61 | a backspace on an empty line blanks the character in front of it |
| Terminal.GetLine | kernel/terminal.c:46-72 | the buffer holds the fold of the edit function over the shortest stopping prefix, terminated; bytes beyond max_length stay |
| Terminal.GetsSimple | kernel/printf.c:44-66 | the same line for the same input, with its own echo |
| Keyboard.HeldFlag | kernel/drivers/keyboard.c:118-188 | shift, control and alt are on exactly when the last event of such a key was a press |
| Keyboard.LockFlag | kernel/drivers/keyboard.c:118-188 | each lock is on exactly after an odd number of presses of its key, whatever else was typed |
| Keyboard.LedsFollowLocks | kernel/drivers/keyboard.c:216-223 | each LED shines exactly after an odd number of presses of its lock's key |
| Keyboard.RawBytes | kernel/drivers/keyboard.c:128-156 | which bytes from the keyboard switch shift, control and alt on and off |
| Keyboard.Rows | kernel/drivers/keyboard.c:10-31 | the tables hold the four rows of a US keyboard, without and with shift |
| Keyboard.OtherKeys | kernel/drivers/keyboard.c:10-31 | and escape, backspace, tab, enter, star and space beside them, and nothing else |
| Keyboard.LetterCase | kernel/drivers/keyboard.c:199-205 | for all letter keys caps lock acts like shift and is not undone by it |
| Keyboard.OthersIgnoreCaps | kernel/drivers/keyboard.c:199-205 | every other key ignores caps lock |
| Keyboard.AcceptedIsPrefix | kernel/drivers/keyboard.c:82-88 | only lack of room drops a make code |
| Keyboard.BufferedExactly | kernel/drivers/keyboard.c:180-184 | a byte reaches the buffer exactly when fewer than 256 codes are pending, it is a press, and its key can move no flag |
| Keyboard.AcceptedConcat | kernel/drivers/keyboard.c:82-88 | how acceptance composes over batches of interrupts |
| KeyboardDriver.KeyboardState.BufferPut | kernel/drivers/keyboard.c:82-88 | appends one code exactly when fewer than 256 are pending, and overwrites no pending one, also between two statements of the reader |
| KeyboardDriver.KeyboardState.Handler | kernel/drivers/keyboard.c:118-188 | flags, LEDs and accepted codes after one byte, at every moment the reader can be interrupted |
| KeyboardDriver.KeyboardState.SpecialKey | kernel/drivers/keyboard.c:132-178 | the switch moves exactly the flag of its key, and the LEDs with a lock |
| KeyboardDriver.KeyboardState.Interrupts | kernel/drivers/keyboard.c:118-188 | any number of handler runs |
| KeyboardDriver.KeyboardState.TakeCode | kernel/drivers/keyboard.c:90-95 | the code loaded is the oldest pending one, whatever interrupts arrive before the tail moves |
| KeyboardDriver.KeyboardState.BufferGet | kernel/drivers/keyboard.c:90-98 | under interrupts between any two statements, codes read are a prefix, in order, of those accepted, none lost or duplicated |
| KeyboardDriver.KeyboardState.GetChar | kernel/drivers/keyboard.c:190-208 | the oldest pending code, decoded with the flags as they stand when each is read |
| Digits.RenderDecodes | kernel/printf.c:68-88 | for every number and base 2 to 16 the digits decode to it, with no leading zero |
| Digits.RenderInjective | kernel/printf.c:68-88 | printing is injective |
| Digits.NumeralsAreRendered | kernel/printf.c:68-88 | and onto the numerals |
| Digits.DigitsFit | kernel/printf.c:70 | a number below 2^k has at most k digits, so 32 bits fit the scratch array |
| Digits.SignedRoundTrip | kernel/printf.c:119-129 | %d decodes to the argument for every word, the minimum included |
| Digits.DigitTable | kernel/printf.c:69 | the characters of the sixteen digits |
| Digits.ExtractDigits | kernel/printf.c:79-82 | the first loop stays inside the scratch array and leaves the digits, last one first |
| Digits.PrintNumberToBuffer | kernel/printf.c:68-88 | writes exactly the numeral and advances the pointer past it |
| Format.PlainFormat | kernel/printf.c:179-183 | a format without '%' is printed as it is |
| Format.OutputConcat | kernel/printf.c:110-188 | printing a concatenation prints the first part, then the second with the remaining arguments |
| FormatLaws.SignedDecimal | kernel/printf.c:118-129 | "%d" and "%i" print a decimal numeral, a minus sign before it when negative, that decodes to the argument read as a signed word |
| FormatLaws.UnsignedNumber | kernel/printf.c:130-141 | "%u" prints a decimal and "%x" and "%X" a hexadecimal numeral that decodes to the argument |
| FormatLaws.PointerNumber | kernel/printf.c:142-148 | "%p" the same with 0x in front |
| FormatLaws.CharacterOrText | kernel/printf.c:149-168 | "%c" the low byte of its argument, "%s" the string, and (null) for a null pointer |
| FormatLaws.PercentOrUnknown | kernel/printf.c:169-177 | "%%" is a percent sign and "%" before any other character stands for itself, whatever the arguments |
| FormatLaws.TakesOneOrNone | kernel/printf.c:117-178 | which letters take an argument |
| FormatLaws.PrintedConcat | kernel/printf.c:110-188 | a concatenation of formats is printable exactly when the parts are, with the arguments the first part leaves, and prints them in order |
| FormatLaws.DirectiveInText | kernel/printf.c:110-188 | a directive in the middle of a text is replaced by what it shows and the text around it stays |
| Format.LengthOfOutput | kernel/printf.c:110-188 | for every format the length of the output is the count, plus what each directive shows beyond its count, less the empty strings |
| Format.CountIsLengthExactly | kernel/printf.c:110-188 | exactly when the number returned is the length of the output, and when it is at most that |
| Format.CountIsNotLength | kernel/printf.c:130-165 | a format on either side: a number of two digits, and an empty string |
| Printf.VSprintf | kernel/printf.c:110-188 | its loop and counting store exactly the characters the format stands for, and a NUL, touch nothing behind, and return the count of the format |
| Printf.StoreConversion | kernel/printf.c:117-178 | its switch takes the argument, stores the characters and adds the count of the directive behind every '%' |
| Printf.Print | kernel/printf.c:198-272 | its own loop and counting send exactly the same characters to the screen and return the same count |
| Printf.PrintConversion | kernel/printf.c:207-261 | the other switch does the same on the screen, directive by directive |
| Printf.PrintNumber | kernel/printf.c:90-108 | shows the same numeral that print_number_to_buffer stores |
| Printf.ScratchDigits | kernel/printf.c:100-103 | its own first loop stays inside its own scratch array |
| Arithmetic.NewtonStep | kernel/utils/math.c:38-41 | a step never passes below the root and its sum never exceeds x + 1 |
| Arithmetic.Sqrt | kernel/utils/math.c:32-44 | ends with the root rounded down for every x but 2^32 - 1, where it divides by zero |
| Arithmetic.RootsAreOrdered | kernel/utils/math.c:32-44 | the rounded root is unique, monotone, and inverts squaring |
| Arithmetic.Pow | kernel/utils/math.c:20-30 | the exact power modulo 2^32, for all inputs |
| Arithmetic.EuclidStep | kernel/utils/math.c:46-53 | one round keeps the common divisors |
| Arithmetic.Gcd | kernel/utils/math.c:46-53 | its divisors are exactly the common divisors |
| Arithmetic.GcdIsGreatest | kernel/utils/math.c:46-53 | and no common divisor is greater |
| Arithmetic.ProductOverGcd | kernel/utils/math.c:55-57 | product over greatest common divisor is the least common multiple |
| Arithmetic.Lcm | kernel/utils/math.c:55-57 | divides by zero exactly for (0, 0), and is the least common multiple exactly when the product fits a word |
| MemoryCopy.MemSet | kernel/utils/memory.c:57-63 | n bytes become the low byte of c, and no others change |
| MemoryCopy.MemCpy | kernel/utils/memory.c:65-72 | what the forward loop leaves for any overlap: it repeats its own output where it runs into it |
| MemoryCopy.CopyIsMove | kernel/utils/memory.c:65-88 | memcpy agrees with memmove on every memory exactly when the destination does not start inside the source |
| MemoryCopy.MemMove | kernel/utils/memory.c:74-88 | section 7.24.2.2 of ISO C11: the destination holds the old source and nothing else changes, for any overlap |
| MemoryCopy.ThereAndBack | kernel/utils/memory.c:74-88 | moving a region away and back restores it |
| Strings.Strlen | kernel/utils/string.c:5-11 | the position of the first NUL |
| Strings.Strcpy | kernel/utils/string.c:13-17 | writes the string and its NUL and not a byte more |
| Strings.Strncpy | kernel/utils/string.c:19-28 | writes exactly n bytes if the string does not end among them, and n + 1, zero-padded, if it does |
| Strings.FieldHoldsString | kernel/fs.c:93-94 | with the field size less one it stays in the field, which then holds the string cut to that size |
| Strings.ProcessName | kernel/process.c:22-25 | the same for the 32-byte name in a zeroed process record |
| Strings.WholeSizeOverruns | kernel/utils/string.c:19-28 | with the whole field size it overwrites the neighbouring byte exactly when the string is shorter |
| Strings.Strcmp | kernel/utils/string.c:53-59 | zero exactly for equal strings, otherwise the sign of the dictionary order |
| Strings.BeforeExactly | kernel/utils/string.c:53-59 | the dictionary order is decided where the strings first differ, by the end of one or the smaller byte |
| Strings.BeforeIsTransitive | kernel/utils/string.c:53-59 | which is a transitive order |
| Strings.Strstr | kernel/utils/string.c:100-122 | the first occurrence, or none exactly when there is none |
| Accounts.FindIsLookup | kernel/user.c:36-41 | the linear search is lookup in the map |
| Accounts.ApplyRefinesMap | kernel/user.c:14-66 | every operation keeps names distinct and does to the map what it should, refusals included |
| Accounts.DropIsFilter | kernel/user.c:54-66 | removal keeps the others in their order |
| Accounts.AccountLasts | kernel/user.c:19-66 | over any run an account and its password stay until it is removed or the table is reset |
| Accounts.CanAddExactly | kernel/user.c:20-41 | an add succeeds exactly with fewer than 100 accounts, a name of at most 31 and a password of at most 63 characters, and a name not in the map |
| Accounts.AddedStays | kernel/user.c:43-51 | after a successful add the account has the given password and role, the group of that role and the next uid, over any run that neither removes it nor resets the table |
| Accounts.ApplyKeepsOrdered | kernel/user.c:43-51 | uids stay increasing and below the counter in every step but the add that takes the last uid |
| Accounts.ApplyKeepsIncreasing | kernel/user.c:43-51 | the order of the uids alone survives a step exactly when it adds nothing or the counter is above the last uid listed |
| Accounts.RunKeepsOrderedMap | kernel/user.c:14-66 | over any run in which the counter does not wrap, however long, the table is an ordered map and the uids issued are consecutive |
| Accounts.NeverReused | kernel/user.c:12-48 | the uids issued in any run, through removals and resets, are pairwise distinct exactly while there are at most 2^32 of them |
| Accounts.IssuedAt | kernel/user.c:47 | they are consecutive and start over at 0 behind the last one |
| Accounts.NeverTaken | kernel/user.c:12-48 | until the counter wraps none is issued that an account held when the run began |
| Accounts.OrderIsDetermined | kernel/user.c:19-66 | the array is determined by the map |
| Users.UserTable.constructor | kernel/user.c:10-12 | an empty table whose first uid is 1000 |
| Users.UserTable.Init | kernel/user.c:14-17 | empties the table and keeps the uid counter |
| Users.UserTable.AddUser | kernel/user.c:19-52 | the array refines adding to the ordered map, with its four refusals |
| Users.UserTable.RemoveUser | kernel/user.c:54-66 | shifting refines removal |
| Users.UserTable.AuthenticateUser | kernel/user.c:68-75 | succeeds exactly when the map holds that name with that password |
| Users.UserTable.GetUser | kernel/user.c:77-84 | the record of that name, or none exactly when the map has none |
| Files.FileTable.CreateFile | kernel/fs.c:8-26 | appends an empty file, a duplicate name included, with its three refusals |
| Files.FileTable.DeleteFile | kernel/fs.c:32-44 | removes the first file of that name |
| Files.FileTable.WriteFile | kernel/fs.c:89-104 | changes the content of the first file of that name, and neither its name nor its directory flag |
| Files.NewContent | kernel/fs.c:93-94 | on the flat record, the call of strncpy and the NUL behind it touch the content field only |
| Files.DeleteAfterCreate | kernel/fs.c:8-44 | delete undoes create for a new name; for an old one it takes the old file and leaves the new one |
| Files.CreatedIsFound | kernel/fs.c:8-26 | a new name of 1 to 49 characters is found as created, empty, and writable unless it is a directory; any other create changes nothing |
| Files.CreateKeepsMeanings | kernel/fs.c:8-26 | creating a file never changes which file an existing name means |
| Files.ReadAfterWrite | kernel/fs.c:73-104 | a write is read back cut to 255 characters and affects no other name |
| Shifting.ShiftDown | kernel/user.c:57-61 | the loop that closes a gap removes one element and keeps the order of the rest |

## Left out

- Port I/O, PIC, PIT, IDT and bootloader: hardware plumbing; only "IRQ stubs run with interrupts disabled" is used.
- CR3, CR0, the TLB and `context_switch`: their effect is in the CPU. `Hardware.Walk` is defined on the words of memory, for any base address; which base is in force, and which registers are restored, is not modelled. `physical_addr` of the kernel directory is never set by the code and is carried along as the word it is.
- Hardware.Walk: a table beyond the 16 MB of this memory counts as a fault; permission bits do not stop the walk (`Hardware.UserMay` follows the one for user code, nothing the one for writing), and pages of 4 MB are off, as the kernel leaves them.
- Destroying the current process: the source frees the record it is running on; `Processes.ProcessTable.DestroyProcess` excludes it.
- Processes.ProcessTable.CreateProcess: requires that the current directory is one, and paging_init before any kernel process; so does `Processes.ProcessTable.Fork`. With NULL as current directory alloc_frame would take low memory for one.
- Runs of the kernel (`Kernel.ApplyKeepsInv` and all of `KernelRuns`): a user process is created only while the heap can hold its directory. Otherwise it gets the directory NULL, which the methods of `Processes.ProcessTable` follow and the runs do not.
- Processes.ProcessTable.ProcessInit: modelled for its one call at boot, on an empty list; when there is no record, the write of its state through NULL is not.
- Paging.Pager.PagingInit: requires the heap room that the boot sequence has; the boot messages are not modelled.
- Paging.Pager.ZeroWords: `memset` to zero on word memory; the byte version is `MemoryCopy.MemSet`.
- Process name, priority, time slice and child list: no operation of the list reads them; the name field has its own lemma, `Strings.ProcessName`.
- The contents of process records are values in a map and not words of the flat memory; only their addresses and extents are.
- Freeing: `kfree` does nothing in the source.
- Hardware resend and acknowledge of the keyboard, and the port writes of `keyboard_update_leds`.
- Printf.VSprintf: a format that ends in a dangling '%' is excluded, because the source then reads past its NUL; so are arguments of the wrong kind and an output array that is too small.
- The cells behind the echo of `gets_simple`: only its cursor is followed; the cells go wrong with it.
- `strcat`, `strncat`, `strncmp`, `strchr`, `strrchr`, `memcmp`, `abs`, `labs`, `max`, `min`: loops and expressions like those modelled, which would add easy members.
- Strings.Strncpy: source and destination do not overlap, as sections 7.24.2.3 and 7.24.2.4 of ISO C11 demand of the caller.
- Strings.Strcpy: the same.
- `delete_directory`, `read_file` and the listings of `kernel/fs.c` and `kernel/user.c`: searches like those modelled, followed by printing.
- Messages printed by the tables and the frame allocator.
- `wait`, `vsscanf`, `kernel/printf_stubs.c`, networking, package manager, scripting, mouse, shell and login: stubs or text.
