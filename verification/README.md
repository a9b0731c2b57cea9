# Memory, processes and messages of a small x86 kernel

This project models the state-keeping parts of the kernel and proves what they promise.

- `Machine.dfy`: the fixed numbers of the machine and of the kernel's memory map.
- `FrameAllocator.dfy`: the frame bitmap. `Frames` is the set of used frames and the counter;
  class `Pmm` is the bitmap of 32-bit words.
- `Paging.dfy`, `Ownership.dfy`, `Translation.dfy`, `Boot.dfy`: two-level page tables in frames
  of the page pool (Intel SDM volume 3A, "32-Bit Paging"), who owns which frame, and what the
  tables mean. `Vmm.dfy` is the code that writes the words in place.
- `Room.dfy`: when a request for memory returns. `AddressSpaceRuns.dfy`, `LifeCycle.dfy`,
  `Conservation.dfy`, `SbrkRuns.dfy`: isolation, conservation of frames and the break, over whole
  runs. `AsWritten.dfy`: `destroy_context` with the pointer as it is written.
- `Access.dfy`: reading, writing and copying bytes through the page tables, and who sees it.
  `Reuse.dfy`: what new memory reads as. `Elf.dfy`, `Images.dfy`, `Segments.dfy`, `Loader.dfy`:
  loading a program from the caller's memory through a new address space.
- `Heap.dfy`: the first-fit chain. `Messages.dfy`: the message queues. `Scheduling.dfy` and
  `Processes.dfy`: the scheduler and the process list. `Ramdisk.dfy`: the tar index.
  `Digits.dfy`: printing a number.
- `Kernel.dfy`, `KernelRuns.dfy`, `Syscalls.dfy`: all of it as one state machine whose steps are
  the timer interrupt, the system calls 2, 3, 4, 5, 8 and 9 and the stores of user code.
  `Calls.dfy`: what each call does, in terms of what was asked for. `FrameRuns.dfy`,
  `HeapRuns.dfy`: the frames and the heap blocks, over the runs of this machine. `Stray.dfy`:
  stores and messages that are not to the caller's own memory.

Classes have the fields the source updates; each method is proved to compute a function on the
value its object stands for, and the theorems are about those functions. A failed `assert` never
returns (`hal.x86/include/debug.h:20`): it is the result `None`, or an `ok` that is false.

How the code departs from what it says or means, and what is modelled:

- `hal.x86/vmm.c:46` uses a directory entry as a pointer without clearing its flags. `Paging`
  clears them, as `vmm.c:108` does. `AsWritten` is about the pointer as it stands: it releases the
  right frames whenever the context has no user page, and only then, unless what is read behind a
  table (in the frame that happens to follow) names a frame of the context (`RightByChance`).
- `hal.x86/pmm.c:57-58` says that all is marked used but clears the bitmap, so that the memory
  map has no effect on it: `Pmm.Init` states exactly what is marked.
- `hal.x86/vmm.c:134` maps one page past each range; `Boot.InitVmmOwned` says which pages are
  mapped. The page at the end of the heap is mapped for everybody and is the first frame handed
  out to users: `NextPageIsEverybodys`. `SharedExactly`: no other frame is shared.
- `hal.x86/heap.c:42` bounds only where a header starts: the exact conditions are
  `MallocKeepsTilingExactly` and `PayloadInHeapExactly`. A huge request breaks the chain
  (`HugeRequestBreaksTiling`), and the buffer of `hal.x86/elf.c:43-47` may run out of the heap into
  a page of another process (`BufferRunsIntoUserFrame`).
- `hal.x86/vmm.c:141-152` and `hal.x86/syscall.c:45-62` do not keep a request off the kernel's pages.
  `KernelSurvivesExactly` says which requests leave the kernel mapped; two calls of sbrk map the
  page pool away (`TwoRequestsUnmapKernel`). From there on the kernel reads its tables through
  other frames, so the theorems about runs ask that requests are on user pages.
- `hal.x86/message.c:187` and `:195` follow NULL when a receive from a named sender takes the only
  message. The intent, an empty list, is modelled, and `stray` tells exactly when it happens.
- `hal.x86/message.c:167-173` leaves `last` as it was when the queue drains; `last` is never read.
- `hal.x86/multitasking.c:63` and `:112` do not set `messages.first`; it starts as NULL here.
- `hal.x86/multitasking.c:136` selects the head of the list after a kill, even a sleeper:
  `SelectedAmissExactly`. The search of `hal.x86/multitasking.c:138-164` does not wrap around:
  `FairExactly` says who starves.
- `hal.x86/multitasking.c:72` and `:89` put the stacks of a process, that of user mode too, on the kernel
  heap, which every context maps: a stack is the process's own here by use, not by the tables.
- `hal.x86/vmm.c:162` maps the kernel's pages writable for user code, and `hal.x86/message.c:127-128` and
  `:199` write to the address the caller gives, unchecked. Module `Stray` says exactly which
  addresses lead to a table or to a byte of another process (`AstrayExactly`), and when a store, a
  send or a receive changes one (`StoreTouchesExactly`, `SendTouchesExactly`,
  `ReceiveTouchesExactly`); one word stored to its page table gives a process any page of any
  other (`TableStoreStealsPage`), and the page behind the heap is read by another
  (`LastPageIsRead`). The theorems about runs ask for stores and buffers in memory of one's own.
- `hal.x86/vmm.c:141-152` clears no page: a new one reads as its frame was left
  (`GrantedReadsAsLeft`), and is a page of a process that has just ended exactly if that had the
  lowest frame that is free then (`NextPageIsLeftBehindExactly`, `NextPageIsAnothersExactly`).
- `hal.x86/syscall.c:97-101` leaves the new context behind when an image cannot be loaded.
- `hal.x86/syscall.c:58` adds to the break even when a request wraps around 2^32 and maps nothing:
  `GrantedExactly`.

## Model

| member | source | states |
|---|---|---|
| `Frames.LedgerKeptExactlyByLegalUse` | hal.x86/pmm.c:21-35 | the counter plus 4096 times the number of used frames is kept exactly if a claimed frame was free, and a released one used |
| `Frames.ReleaseAllExact` | hal.x86/pmm.c:21-27 | releasing different used frames removes exactly them and keeps the ledger |
| `Frames.LedgerDeterminesCounter` | hal.x86/pmm.c:11-35 | with the ledger, equal bitmaps mean equal counters, although the counter wraps |
| `Pmm.OneBitIsOneFrame` | hal.x86/pmm.c:14-35 | changing one bit of one word adds or removes exactly one frame of the set the bitmap stands for |
| `Pmm.Pmm.Free` | hal.x86/pmm.c:21-27 | the set loses exactly the frame of the address; the counter grows by a page, modulo 2^32 |
| `Pmm.Pmm.Use` | hal.x86/pmm.c:29-35 | the set gains exactly the frame of the address; the counter shrinks by a page |
| `Pmm.Pmm.IsFree` | hal.x86/pmm.c:37-42 | the result is 0 exactly for a free frame |
| `Pmm.Pmm.Alloc` | hal.x86/pmm.c:120-137 | claims the lowest free frame of the range, or NULL and no change exactly if there is none; halts exactly if the range is empty |
| `Pmm.Pmm.AllocStart` | hal.x86/pmm.c:139-153 | the lowest free frame from the start address to 4 GB, or NULL exactly if there is none |
| `Pmm.Pmm.UseRange` | hal.x86/pmm.c:77-107 | a marking loop marks exactly the pages its steps visit and takes a page from the counter for each step, marked already or not |
| `Pmm.Pmm.Init` | hal.x86/pmm.c:44-114 | whatever memory map is passed, a frame ends up marked if and only if it is one of the kernel or of the heap, frame 0, that of a boot structure, or one that a module reaches into in steps of a page from its start: the bitmap is cleared where the comment says all is marked used. The counter is a page for each step through a free region, less one for each step of a marking loop, modulo 2^32 |
| `Vmm.Vmm.CreateContext` | hal.x86/vmm.c:16-31 | two pool frames are claimed and the directory is cleared; halts exactly if the pool is used up |
| `Vmm.Vmm.CreateUsermodeContext` | hal.x86/vmm.c:65-83 | the new context has the kernel's directory entries, is new, and the ownership invariant holds again |
| `Vmm.Vmm.PageTable` | hal.x86/vmm.c:104-123 | the table is looked up, or claimed, cleared and entered in the directory |
| `Vmm.Vmm.MapPage` | hal.x86/vmm.c:85-128 | halts exactly if an address is not aligned or no table can be had; else the memory is the specified one |
| `Vmm.Vmm.MapRange` | hal.x86/vmm.c:130-139 | maps the pages from start to end address inclusive, one more than the size says |
| `Vmm.Vmm.VmmAlloc` | hal.x86/vmm.c:141-152 | the loop, in 32-bit arithmetic, computes Paging.VmmAlloc and keeps the ownership invariant |
| `Vmm.Vmm.FreeTable` | hal.x86/vmm.c:46-52 | one table releases the frames of its entries above the heap, in order |
| `Vmm.Vmm.DestroyContext` | hal.x86/vmm.c:33-63 | halts exactly for the kernel context; else releases pages, tables, directory and context, and what is left is owned as before |
| `Vmm.Vmm.InitVmm` | hal.x86/vmm.c:154-181 | creates the kernel context and the three identity mappings; everything marked by then is reserved |
| `Ownership.TakeKeepsOwned` | hal.x86/vmm.c:148-148 | a frame just claimed belongs to nobody; all others keep their one owner |
| `Ownership.MapPrivate` | hal.x86/vmm.c:105-126 | writing an entry of a private table keeps every frame of every context with one owner |
| `Ownership.MapShared` | hal.x86/vmm.c:105-126 | writing into a table of the kernel, by any context, changes no owner |
| `Ownership.GrownOwned` | hal.x86/vmm.c:110-126 | installing a new table and its first page keeps the invariant for all contexts |
| `Ownership.CreateKeepsOwned` | hal.x86/vmm.c:65-83 | a new context owns two new frames and no other context's directory or tables change |
| `Ownership.TableFreesItsPages` | hal.x86/vmm.c:48-52 | the frames released from a table are exactly those owned as its pages, each once |
| `Ownership.ContextFreesExactlyItsFrames` | hal.x86/vmm.c:33-63 | destroy_context releases exactly the frames the context owns, each once |
| `Ownership.DestroyKeepsOwned` | hal.x86/vmm.c:33-63 | afterwards exactly those frames are free, the ledger is kept and all other contexts are as before |
| `Translation.MapPageUpdatesOneKey` | hal.x86/vmm.c:85-128 | the two-level walk is a map from pages to (frame, flags); map_page updates exactly one key, with or without a new table, and in a private slot no other context sees it |
| `Translation.MapPageStep` | hal.x86/vmm.c:85-128 | what map_page does to owners, translations and frames of all contexts |
| `Translation.AllocPageStep` | hal.x86/vmm.c:146-151 | one turn of vmm_alloc maps the page to a frame that was free and changes no other entry of any context |
| `Translation.VmmAllocExact` | hal.x86/vmm.c:141-152 | exactly the pages of the request are mapped, to different frames free before; all other translations stay; the bitmap grows by those frames and pool frames for tables; a request that wraps around 2^32 maps nothing |
| `Boot.InitVmmOwned` | hal.x86/vmm.c:154-181 | exactly the kernel's memory and the one page after the heap are mapped one to one, and no frame marked at boot has an owner |
| `Boot.InitVmmSucceedsExactly` | hal.x86/vmm.c:154-173 | whatever is marked at boot, InitVmm runs into an assertion if and only if fewer pool frames are free than a context, a directory and one table for each directory slot of the kernel take |
| `Room.AllocPagesCounts` | hal.x86/vmm.c:141-152 | n turns of vmm_alloc return if and only if n frames for users are free, and a pool frame for each directory slot of the pages that has no table yet |
| `AddressSpaceRuns.StepKeepsInv` | hal.x86/vmm.c:16-152 | each operation, with requests on user pages, keeps ownership, the kernel one to one in every context, and the ledger, and changes no user page of any context but its own |
| `AddressSpaceRuns.IsolationOnEveryRun` | hal.x86/vmm.c:16-152 | on every run from boot whose requests are on user pages, over all live contexts: context pages, directories, private tables and user frames are pairwise different, used and never reserved; tables in the pool, user frames above the heap; every context maps the kernel one to one |
| `AddressSpaceRuns.MarkedIsNobodys` | hal.x86/pmm.c:77-110 | on every such run from there, no user page lies in a frame of the kernel, the heap or a boot structure, or holds a byte of a module that starts at a page |
| `AddressSpaceRuns.KernelSurvivesExactly` | hal.x86/vmm.c:141-152 | after a request that returns, every context still maps the kernel one to one if and only if the request covers none of its pages, or begins at the one behind the heap while that is the next frame |
| `AddressSpaceRuns.TwoRequestsUnmapKernel` | hal.x86/syscall.c:45-62 | from any state, two calls of sbrk by a process with break 0: the first wraps around and returns, and once the second returns the pool is no longer mapped one to one |
| `AddressSpaceRuns.NextPageIsEverybodys` | hal.x86/vmm.c:134-148 | while the frame behind the heap is free, the next page of any process lies in it, and every context maps it, writable by user code, at the page behind the heap |
| `AddressSpaceRuns.SharedExactly` | hal.x86/vmm.c:130-152 | a user page shares its frame with another page of any context if and only if that is the page behind the heap and the frame is the one there |
| `AddressSpaceRuns.SharedOnEveryRun` | hal.x86/vmm.c:130-152 | the same on every run from boot whose requests are on user pages |
| `LifeCycle.LifeCycleRestores` | hal.x86/vmm.c:33-152 | after creating a context, any requests and destroying it, bitmap and counter are as before if and only if the requests covered different user pages only; no other context's translation of a user page changes |
| `LifeCycle.LostIsNobodys` | hal.x86/vmm.c:126-150 | what an allocation over a mapped page or in a kernel slot loses: a used frame without an owner |
| `Conservation.FramesOnEveryRun` | hal.x86/vmm.c:16-152 | on every run from boot whose requests are on user pages, a frame is used if and only if boot had marked it, a live context has it, or a later allocation of the same page has replaced it; and it is only one of the three |
| `Conservation.EverythingComesBackExactly` | hal.x86/vmm.c:16-152 | once all user contexts are gone, however their calls were interleaved, bitmap and counter are what they were after boot if and only if no request was over a mapped page |
| `FrameRuns.StepLeads` | hal.x86/syscall.c:12-111 | each proper step of the kernel, a launch with all its segments among them, is a run of address-space operations on user pages |
| `FrameRuns.KernelFramesOnEveryRun` | hal.x86/syscall.c:12-111 | so on every proper run of the kernel from boot the same holds of every frame: whatever was launched, grown and ended has given back all but the replaced ones |
| `Reuse.GrantedReadsAsLeft` | hal.x86/vmm.c:141-152 | every byte of every page of a request reads as its frame was left, a frame that nobody used |
| `Reuse.NextPageIsLeftBehindExactly` | hal.x86/vmm.c:33-152 | after a context is destroyed, the next page of another is byte for byte a given page of it if and only if that page had the lowest frame that is free now |
| `Reuse.NextPageIsAnothersExactly` | hal.x86/vmm.c:33-152 | and it is some page of it if and only if the lowest frame that is free now was used before |
| `SbrkRuns.SbrkRun` | hal.x86/syscall.c:45-62 | over any run in which the context asks for whole pages, without wrapping, and others do anything on user pages, every page below the break is mapped and none is ever remapped |
| `SbrkRuns.SbrkReturnsRunningTotal` | hal.x86/syscall.c:55-58 | each call returns the pool base plus the sum of the earlier requests |
| `SbrkRuns.SbrkOfNothing` | hal.x86/syscall.c:46-51 | a request of 0 returns -1 and changes nothing |
| `SbrkRuns.GrantedExactly` | hal.x86/syscall.c:53-58 | a call that returns has mapped every page of its request, to frames that were free, if and only if break and request do not wrap around 2^32; else it maps nothing, and the break moves either way |
| `SbrkRuns.SbrkHaltsExactly` | hal.x86/syscall.c:53-55 | a call halts if and only if its request does not wrap, and the break is not page-aligned, or the request ends in the last page below 2^32, or it has more pages than frames are free, or needs more tables than pool frames are free |
| `AsWritten.OnePageLeaks` | hal.x86/vmm.c:46-52 | with the pointer as written, flags included, the frame of a table's only page is not released, unless what is read behind the table names it |
| `AsWritten.RightByChance` | hal.x86/vmm.c:46-52 | a table and a frame behind it for which it does |
| `AsWritten.WrongWithPages` | hal.x86/vmm.c:42-60 | one user page, wherever it is, and the written code releases the wrong frames, whatever lies behind the tables as long as it names no frame of the context |
| `AsWritten.RightExactlyWithoutPages` | hal.x86/vmm.c:42-60 | where every table maps a page: without a user page the written code releases the right frames; and only then, unless what is read behind a table names a frame of the context |
| `AsWritten.RightOnEveryRun` | hal.x86/vmm.c:42-60 | that is so on every run from boot whose requests are on user pages: there every table maps a page |
| `Access.PlacesApart` | hal.x86/vmm.c:85-152 | two contexts meet in one byte only in the kernel heap, at one address, and one context meets itself nowhere: for all addresses of user pages and of the heap |
| `Access.WriteEffect` | hal.x86/elf.c:47-55 | storing bytes through the tables and reading back gives those bytes, and whatever else anybody reads there or elsewhere is as before |
| `Access.CopyIsWrite` | hal.x86/elf.c:55-55 | copying, byte by byte, to where the source is not gives what the source read before |
| `Elf.LoadOneStep` | hal.x86/elf.c:30-58 | one segment, buffer included, whatever frames were picked: if the buffer ends in the heap, other contexts read what they read before |
| `Elf.LoadAllStep` | hal.x86/elf.c:28-59 | after the loop every segment reads as the bytes of the file followed by zeros up to msize, if no two share pages, and no user byte of another context changes |
| `Elf.LoadKeepsHeap` | hal.x86/elf.c:43-58 | the staging buffers come and go: the live heap blocks are as before |
| `Elf.BuffersStayInHeap` | hal.x86/elf.c:43-58 | if the chain never ends behind the heap, neither does any buffer |
| `Elf.BufferRunsIntoUserFrame` | hal.x86/elf.c:43-47 | a heap and a file for which one does: the copy overwrites the page of whichever process has the frame behind the heap |
| `Loader.Loader.StoreByte` | hal.x86/elf.c:54-55 | a store goes where the page walk of the active context leads, or faults |
| `Loader.Loader.Memcpy` | hal.x86/elf.c:55-55 | the loop of loads and stores computes Access.Copy |
| `Loader.Loader.Memset` | hal.x86/elf.c:54-54 | the loop of stores computes Access.Write on zeros |
| `Loader.Loader.LoadSegment` | hal.x86/elf.c:41-58 | the file is copied to the buffer in the active context, the pages are allocated, the two writes are made in the new one, and the active context is the one it was |
| `Images.ParseIs` | hal.x86/elf.c:15-61 | ParseElf reads header, program headers and files through the caller's tables while it allocates and loads; if they lie in the caller's user pages it loads the image, and returns the entry, that was there when it was called |
| `Loader.Loader.ParseElf` | hal.x86/elf.c:7-62 | returns 0 exactly for a NULL argument, a wrong magic or an entry of 0, halts exactly when a read faults or loading fails, else has loaded all segments; header and number of headers are read anew at each turn |
| `Heap.MallocKeepsTilingExactly` | hal.x86/heap.c:35-81 | an allocation keeps the blocks a tiling if and only if a free block fits or the end of the chain lies below 2^32 |
| `Heap.HugeRequestBreaksTiling` | hal.x86/heap.c:40-44 | a heap and a request for which it does not, since only the start of a header is bounded |
| `Heap.PayloadInHeapExactly` | hal.x86/heap.c:40-81 | what is returned lies in the heap if and only if it is a block that is not the last, or the request ends in time in the last block or behind it |
| `Heap.MallocHoldsExactly` | hal.x86/heap.c:35-81 | all blocks stay in the heap if and only if a free block fits or the new one ends in time; then none moves |
| `Heap.BlocksAreDisjoint` | hal.x86/heap.c:35-81 | different blocks do not overlap |
| `Heap.MallocAllTakes` | hal.x86/heap.c:54-81 | a list of allocations uses exactly the blocks whose addresses it returned |
| `Heap.Replay` | hal.x86/init.c:19-48 | allocating any list of sizes, freeing all in any order and allocating the list again gives the same addresses in the same order and the same chain |
| `Heap.KernelHeap.constructor` | hal.x86/heap.c:116-126 | one free block of size 0 at the start of the heap |
| `Heap.KernelHeap.CreateBlock` | hal.x86/heap.c:35-52 | links a block behind the last, or halts exactly if it would start beyond the heap |
| `Heap.KernelHeap.Kmalloc` | hal.x86/heap.c:54-81 | returns the lowest free block that fits or, only if none does, a new one just past the last; neither assertion of the loop can fail |
| `Heap.KernelHeap.Kfree` | hal.x86/heap.c:83-114 | marks exactly the block of the address free |
| `Messages.MessageRoundTrip` | hal.x86/include/kmessage.h:16-27 | a message copied to memory and back is the same message |
| `Messages.BytesOfMessage` | hal.x86/include/kmessage.h:16-27 | and bytes read as a message and written back are the same bytes |
| `Messages.FindTakesFirst` | hal.x86/message.c:164-197 | a receive takes the first message of its sender and leaves the order of the rest |
| `Messages.PerSenderFifo` | hal.x86/message.c:127-203 | under any mix of calls, what was received from a sender followed by what is queued from it is exactly what it sent, in order |
| `Messages.NothingLost` | hal.x86/message.c:127-203 | no message is lost, invented or received twice |
| `Messages.Mailbox.Append` | hal.x86/message.c:133-151 | the message is appended; next and prev stay inverse, the count is the length |
| `Messages.Mailbox.Unlink` | hal.x86/message.c:182-196 | exactly this node leaves the list; tells when the source would follow NULL, exactly for an only node |
| `Messages.Mailbox.Receive` | hal.x86/message.c:156-204 | returns the head or the first from the named sender, removes exactly it, and the freed node is in the list no more |
| `Messages.SendMessage` | hal.x86/message.c:109-154 | fails exactly on a NULL message, sender or receiver; else both pids are written and the message is appended |
| `Scheduling.FairWhileReached` | hal.x86/multitasking.c:138-164 | while the tail of the list is ready or is the idle process, or it is itself behind idle, a process that stays ready is selected within as many searches as there are processes, whatever else changes |
| `Scheduling.FairExactly` | hal.x86/multitasking.c:138-164 | while nobody's readiness changes and idle is not ready, a ready process is selected within that bound from every start if and only if one of the three holds; else, from idle on, it never is |
| `Scheduling.FairOnRuns` | hal.x86/multitasking.c:129-171 | the same bound for runs of timer interrupts and set_timer calls of the state machine |
| `Scheduling.StuckBehindIdle` | hal.x86/multitasking.c:155-161 | from idle on, as long as the tail is not ready, nobody in front of idle is selected, whoever else is ready |
| `Scheduling.LeavesIdleExactly` | hal.x86/multitasking.c:140-164 | idle is left exactly if somebody behind it is ready, or it is the tail and somebody is |
| `Scheduling.WakesExactly` | hal.x86/syscall.c:87-88 | a sleeper is due exactly from its deadline on if the sum does not wrap; what happens if it does |
| `Scheduling.SelectedMayRun` | hal.x86/multitasking.c:138-164 | with a current process, Schedule selects a runnable process or idle |
| `Scheduling.ScheduleExactly` | hal.x86/multitasking.c:133-164 | with a current process: the first entry behind it that is runnable or due is selected, else idle; only the state pointer of the old process, and status and timer of a sleeper that the search selects, change |
| `Scheduling.WokenOnlyWhenDue` | hal.x86/multitasking.c:146-153 | Schedule makes a process runnable only if its deadline is reached and it is the one selected |
| `Scheduling.SelectedAmissExactly` | hal.x86/multitasking.c:136-137 | over all events, the process selected is neither runnable nor idle exactly after a kill, or at the first call, when whoever is then at the head of the list is neither |
| `Scheduling.SleepsUntilDue` | hal.x86/syscall.c:85-90 | over whole runs a sleeper sleeps on while the counter is below its deadline |
| `Scheduling.SetTimerExactly` | hal.x86/syscall.c:85-90 | set_timer puts the caller to sleep until the sum of ticks and request modulo 2^32, whichever entry it is; it is awake afterwards only if that is over already and it is selected; no other entry changes but one that is selected |
| `Scheduling.SleepsFromTheCall` | hal.x86/syscall.c:85-90 | from the call on, if the sum does not wrap, the caller sleeps on over every run on which the counter stays below it |
| `Scheduling.TicksAreCounted` | hal.x86/idt.c:243-246 | the counter goes up by one for each timer interrupt, modulo 2^32, and for nothing else |
| `Scheduling.ResumedFaithfully` | hal.x86/multitasking.c:133-170 | over whole runs every process is resumed with exactly the state pointer it was last suspended with, or created with |
| `Scheduling.PidsAreNeverReused` | hal.x86/multitasking.c:107-124 | before the counter wraps, a pid that was given out and is gone stays gone |
| `Scheduling.CreateExactly` | hal.x86/multitasking.c:69-127 | a new process is at the head of the list with the next pid, runnable, without a timer; all others are as they were, one entry further on |
| `Scheduling.ReadyIsSelected` | hal.x86/multitasking.c:138-164 | whoever is runnable, or due, is selected within as many timer interrupts and set_timer calls as there are processes, if it is in reach: nobody has to assume that it stays so |
| `Scheduling.BootExactly` | hal.x86/multitasking.c:256-263 | the three first processes by pid; all but idle may run |
| `Processes.Multitasking.constructor` | hal.x86/multitasking.c:256-263 | the three first processes, idle paused, no current process |
| `Processes.Multitasking.Create` | hal.x86/multitasking.c:69-127 | the new process is the head of the list, with the next pid and the uid of its parent, root for a kernel process |
| `Processes.Multitasking.Search` | hal.x86/multitasking.c:138-163 | the loop finds the entry that Scheduling.Scan names and wakes it if it was asleep |
| `Processes.Multitasking.Schedule` | hal.x86/multitasking.c:129-171 | computes Scheduling.Schedule, activates the context of the process selected and returns its state |
| `Processes.Multitasking.TimerInterrupt` | hal.x86/idt.c:243-248 | the tick, then Schedule |
| `Processes.Multitasking.SetTimer` | hal.x86/syscall.c:85-90 | deadline and status are set, then Schedule |
| `Processes.Multitasking.GetProcessByPid` | hal.x86/multitasking.c:239-252 | the one process with this pid, or NULL exactly if there is none |
| `Processes.Multitasking.KillProcess` | hal.x86/multitasking.c:199-237 | exactly this process leaves the list and the rest keeps its order and values |
| `Processes.Multitasking.KillCurrentProcess` | hal.x86/multitasking.c:173-179 | the kill, then Schedule without a current process |
| `Ramdisk.OctalRoundTrip` | ramdisk.c:30-40 | reading a number written with octal digits gives it back |
| `Ramdisk.GetSize` | ramdisk.c:30-40 | the value of the first 11 digits of the size field, modulo 2^32 |
| `Ramdisk.FileAt` | ramdisk.c:49-60 | every file of an archive lies at its offset |
| `Ramdisk.PaddingExactly` | ramdisk.c:52-55 | the contents of a file are filled up to a whole number of 512-byte blocks, by less than one |
| `Ramdisk.NameMatches` | ramdisk.c:99-99 | strcmp with a header matches a name that fits the field exactly if it is the file's and terminated |
| `Ramdisk.FullNameIsLost` | ramdisk.c:99-99 | a name that fills its field and runs into the next is never found |
| `Ramdisk.Index.CountFiles` | ramdisk.c:42-63 | the walk counts exactly the files of the archive |
| `Ramdisk.Index.AddFilesToList` | ramdisk.c:65-85 | takes the same walk and fills every entry with the header of its file |
| `Ramdisk.Index.Init` | ramdisk.c:180-195 | the index holds exactly the files; halts exactly for address 0 or an empty archive |
| `Ramdisk.Index.GetFile` | ramdisk.c:109-128 | the header of the first file with the name, or NULL exactly if there is none, in any archive, names that fill their field among them |
| `Ramdisk.Index.GetContent` | ramdisk.c:88-107 | the address right behind that header, or 0 |
| `Ramdisk.RoundTrip` | ramdisk.c:30-128 | with different names, looking up each file leads to its own header, its contents and its length |
| `Digits.Dbgputn` | hal.x86/debug.c:118-138 | for every 32-bit number and base 2 to 36: at most 32 digits, no leading zero unless it is 0, and the digits evaluate to the number |
| `Digits.LastDigitIsOnes` | hal.x86/debug.c:132-136 | the last digit counts once, and every other one base times as much as the next |
| `Syscalls.Syscalls.Timer` | hal.x86/idt.c:243-248 | computes the step of the kernel's state machine and keeps its invariant; the same for the calls below |
| `Syscalls.Syscalls.Exit` | hal.x86/syscall.c:22-27 | the context is destroyed, the blocks are freed and the process leaves the list; returns the state of the next |
| `Calls.ExitExactly` | hal.x86/multitasking.c:173-237 | after an exit the process is in no list and has no box; exactly the frames of its address space are free, and exactly its two stacks and its record; the rest of the list keeps its order and its head is resumed |
| `Syscalls.Syscalls.UserStore` | hal.x86/idt.c:230-241 | a store of user code goes where the tables of the process lead, or ends it |
| `Calls.StoreExactly` | hal.x86/idt.c:230-241 | a store changes the one byte that the tables name and nothing else; one that faults does what an exit does |
| `Syscalls.Syscalls.SendMessage` | hal.x86/syscall.c:30-35 | the receiver is read from the caller's memory, both pids are written there, and what is read back reaches the box of the receiver in a new node; an error exactly for NULL or if there is no such process; halts exactly on a fault or without a node |
| `Calls.SendExactly` | hal.x86/syscall.c:30-35 | from any state, for a message in the caller's memory: nothing changes if and only if the address is NULL or the receiver that the message names is no process; else the message, with the caller as its sender, goes to the end of the box of that receiver, and to no other |
| `Calls.MailIsAddressed` | hal.x86/syscall.c:30-42 | on every proper run, what is queued for a process or was received by it was sent by a call on the way whose message named it, by the process that it says |
| `Syscalls.SendCodeExactly` | hal.x86/message.c:111-153 | the result is 0 exactly if there is such a process, else 1 |
| `Syscalls.Syscalls.ReceiveMessage` | hal.x86/syscall.c:38-42 | the message is written to the caller's memory, leaves the box and its node is freed; an error exactly for NULL or if there is none |
| `Calls.ReceiveExactly` | hal.x86/syscall.c:38-42 | nothing changes if and only if the address is NULL or no message in the caller's box is from the sender asked for; else the first that is leaves the box, the caller's memory holds it and no other box changes |
| `Calls.IncomingExactly` | hal.x86/message.c:156-203 | the result tells a message from none: there is one exactly if the address is not NULL and a message is wanted |
| `Syscalls.Syscalls.Sbrk` | hal.x86/syscall.c:45-62 | -1 for a request of 0, else the break before the call; halts exactly when Paging.VmmAlloc does (see SbrkHaltsExactly) |
| `Syscalls.Syscalls.SetTimer` | hal.x86/syscall.c:85-90 | the caller sleeps and the next process is scheduled |
| `Calls.TimerExactly` | hal.x86/syscall.c:85-90 | of the whole state only the scheduler's part changes, by one of its steps (see SetTimerExactly); the same for a timer interrupt |
| `Syscalls.Syscalls.LaunchElf` | hal.x86/syscall.c:93-105 | a new context, the program in it, and a process with its three heap blocks to run it; halts exactly when one of these does |
| `Calls.LaunchExactly` | hal.x86/multitasking.c:69-127 | a launch with an entry puts a runnable process at the head of the list, in the new address space, in user mode with interrupts on, at that entry, with its own empty user stack, an empty box and a break of 0; its registers fill the end of its kernel stack; all others are as they were |
| `Calls.LaunchedIsSelected` | hal.x86/multitasking.c:138-164 | it is selected within as many timer interrupts and set_timer calls as there are processes, if the tail of the list stays ready or is idle |
| `Calls.BootedExactly` | hal.x86/multitasking.c:256-263 | the three first processes, each with its own stack, address space and function, in kernel mode; all but idle may run |
| `HeapRuns.LaunchAccounts` | hal.x86/multitasking.c:71-73 | a launch takes exactly three blocks of the heap, different ones that nobody had, and no other block is in use afterwards that was not before |
| `HeapRuns.HeapOnEveryRun` | hal.x86/multitasking.c:69-237 | on every proper run from boot the blocks in use are exactly the stacks and records of the live processes and the messages in their boxes, each its own and large enough, those in use before boot, and the messages left in the boxes of processes that ended; no two stacks overlap |
| `KernelRuns.StepKeeps` | hal.x86/syscall.c:12-111 | every call keeps ownership, the kernel one to one in every context, one context and one box a process, every block the kernel will free, and the ledger, and disturbs no user byte of any process but the caller's own |
| `KernelRuns.EveryRunIsIsolated` | hal.x86/syscall.c:12-111 | from boot, on every proper run of all calls: processes have different contexts, all their frames are pairwise different and never reserved, and every context maps the kernel one to one |
| `KernelRuns.MemoryIsPrivate` | hal.x86/syscall.c:12-111 | as long as a process does not store, grow, exit, send or receive itself, every user byte it could read it reads unchanged, whatever all others do, pushing to their stacks included |
| `Stray.AstrayExactly` | hal.x86/vmm.c:154-173 | an address of a process leads to a byte of a table, or to one that another has in a user page, if and only if it is in the page pool, or in the page behind the heap while another process has that frame |
| `Stray.WriteTouchesExactly` | hal.x86/message.c:199-199 | writing data leaves all tables, and all that others read, as they were if and only if at each such address it writes what was there |
| `Stray.StoreTouchesExactly` | hal.x86/vmm.c:162-162 | for a store of user code |
| `Stray.SendTouchesExactly` | hal.x86/message.c:127-128 | for the two pids that a send writes |
| `Stray.ReceiveTouchesExactly` | hal.x86/message.c:199-199 | for the 528 bytes of a message that a receive writes |
| `Stray.OwnIsNotAstray` | hal.x86/syscall.c:12-111 | what runs are asked to keep to is at none of these addresses |
| `Stray.TableStoreStealsPage` | hal.x86/vmm.c:162-162 | from any state, one word stored to its own page table and a process reads a page of another, byte for byte |
| `Stray.LastPageIsRead` | hal.x86/vmm.c:134-162 | what anybody writes in the page behind the heap is read by the process that has its frame |
| `KernelRuns.LaunchedReadsImage` | hal.x86/syscall.c:93-105 | after launch_elf_program the new process reads, segment by segment and through its own tables, the image that the caller's memory held before the call |
| `KernelRuns.LaunchedReadsCaller` | hal.x86/syscall.c:93-105 | byte for byte: what the caller read at the file, and then zeros |
| `Segments.HeaderReads` | hal.x86/include/elf.h:33-48 | ParseElf finds magic, entry, offset and count of any file header laid out field by field |
| `Segments.ProgramReads` | hal.x86/include/elf.h:52-61 | and kind, offset, address and sizes of any program header |
| `Segments.LaunchedReadsFile` | hal.x86/syscall.c:93-105 | so for any file in the caller's memory, header i of which is to be loaded, the new process starts at the entry of the file and reads its bytes at that header's address, and then zeros |
| `Segments.LaunchedMapsExactly` | hal.x86/elf.c:28-59 | a user page of the new address space is mapped if and only if a byte of a segment to load lies in it |
| `KernelRuns.ImageStays` | hal.x86/syscall.c:12-111 | and goes on reading it on every proper run on which it rests |
| `KernelRuns.ReceiveDelivers` | hal.x86/message.c:199-199 | after a receive the caller's memory reads as the message that was taken |
| `KernelRuns.SendTakes` | hal.x86/message.c:127-151 | what a send queues is what the caller's memory held, with the caller as sender and the receiver it named |
| `KernelRuns.MailIsRun` | hal.x86/syscall.c:30-42 | the box of a process is exactly what the sends to it and its own receives make of an empty one |
| `KernelRuns.DeliveredInOrder` | hal.x86/syscall.c:30-42 | so per-sender order and conservation hold of every process on every run |
| `KernelRuns.LaunchLeavesExactly` | hal.x86/syscall.c:94-103 | the new context is left without a process if and only if no image is found, or its entry is 0 when it is loaded: the entry it had, if it lies in the caller's memory |
| `KernelRuns.LeakedForGood` | hal.x86/syscall.c:94-103 | a context left behind is never destroyed on any later proper run: its frames stay used |

## Left out

- The descriptor tables, interrupt stubs, ports, timer chip, screen, debug printing (`kputn`, `pmm_info`) and CPU detection: hardware effects and constant tables.
- The daemon loops of `kernel-process.c` and `ramdisk.c:197` on, and the message library they use, which is not part of this model.
- Parsing the multiboot structures: the memory regions and modules are parameters of `Pmm.Init`.
- System calls 1, 6 and 7, the table of interrupt handlers and the messages sent for interrupts (`hal.x86/idt.c:250-253`): only easy claims.
- `ramdisk.c:130-178`: four wrappers that prepend a directory to a name.
- Kernel processes that exit: `hal.x86/multitasking.c:230` frees a `user_stack` that was never set for them.
- What the kernel keeps in its heap blocks (process records, registers, message nodes, headers) is in fields, not in the bytes of memory: a store of a process to another's stack or to a header is not a step. Of the registers those a process starts with are kept; what an interrupt saves is a pointer.
- Memory size: all 2^20 frames are taken to be memory. The bitmap of the source also has frames free that have none behind them (`hal.x86/pmm.c:57-58`); what is stored there is lost.
- The words of the tables and the bytes of memory are kept apart in the state; module `Stray` reads the tables in the bytes (`TablesIn`) for what a store to them does. The translation buffer (`invlpg`) is not modelled.
- A linked mailbox for each process in class `Syscalls`: the boxes are kept there by their values; `Messages.Mailbox` is the list.
- Pmm.Pmm.Init: a region or module that ends in the last page below 4 GB is excluded, because the marking loop would not stop.
- Boot: the kernel with its pool and heap is taken to lie below 1 GB, where user space begins; the linker script does not say how large it is.
- Vmm.Vmm.MapRange: stated for the identity mappings of the kernel context, the only calls there are.
- AsWritten.RightExactlyWithoutPages: if what is read behind a table does name a frame of the context, nothing is said; `RightByChance` shows that the release can then be right.
- AsWritten.OnePageLeaks: the same exception.
- Heap.KernelHeap.Kmalloc: nothing is said of the chain after a request that wraps around 2^32.
- Heap.KernelHeap.Kfree: an address that is no block's is excluded; what lies before it decides whether the kernel halts.
- Loader.Loader.ParseElf: the heap is to end below 2^32 before each segment, since nothing is said of `Heap.KernelHeap.Kmalloc` after it.
- Loader.Loader.LoadSegment: the same.
- Elf.LoadKeepsHeap: files so large that the staging buffer could wrap around 2^32 are excluded.
- Elf.LoadOneStep: as `Elf.LoadAllStep`.
- Images.ParseIs: for an image in user pages of the caller, and with what `Elf.LoadAllStep` asks for.
- Elf.LoadAllStep: segments lie in user slots and do not wrap around, and the buffers end in the heap; the source checks none of it. The content is stated for segments that do not share pages.
- Processes.Multitasking.KillCurrentProcess: killing the last process or the idle process, after which the source follows NULL or a dangling pointer, is excluded.
- Processes.Multitasking.KillProcess: the context is destroyed and the blocks are freed in `Syscalls.Exit`; a process that is not listed, for which the source follows NULL, is excluded.
- Processes.Multitasking.Create: the context and the place of the registers are parameters, which `Syscalls.LaunchElf` and `Kernel.Booted` supply; nothing is said once the pid counter wraps around.
- Scheduling.PidsAreNeverReused: runs end when the pid counter is used up; the source wraps around.
- KernelRuns.StepKeeps: a proper step stores, sends and receives only in the caller's user pages and its own stack, asks for memory and loads segments on user pages only, and allocates only what ends in the heap. The source checks none of it; the kernel's pages are mapped writable for user code (`hal.x86/vmm.c:162`). What else happens: for stores, sends and receives module `Stray`; for requests `TwoRequestsUnmapKernel` and `KernelSurvivesExactly`; for the heap `BufferRunsIntoUserFrame` and `PayloadInHeapExactly`. What a store to the kernel's own data does is not said.
- KernelRuns.EveryRunIsIsolated: for runs of such steps.
- KernelRuns.MemoryIsPrivate: for runs of such steps.
- KernelRuns.LeakedForGood: for runs of such steps.
- KernelRuns.ImageStays: for runs of such steps.
- KernelRuns.ReceiveDelivers: for a buffer in the caller's user pages or stack.
- KernelRuns.SendTakes: for a buffer in the caller's user pages or stack.
- Calls.SendExactly: for a buffer in the caller's user pages or stack.
- Calls.ReceiveExactly: for a buffer in the caller's user pages or stack.
- Calls.MailIsAddressed: for runs of such steps.
- HeapRuns.HeapOnEveryRun: for runs of such steps.
- AddressSpaceRuns.MarkedIsNobodys: for requests on user pages.
- Segments.LaunchedReadsFile: as `KernelRuns.LaunchedReadsImage`.
- KernelRuns.LaunchedReadsImage: for such a step, and segments that do not share pages.
- FrameRuns.KernelFramesOnEveryRun: for runs of such steps.
- Syscalls.Syscalls.LaunchElf: for such a step, and before the pid counter is used up.
- Syscalls.Syscalls.Sbrk: for such a step.
- Syscalls.Syscalls.SendMessage: for such a step.
- Syscalls.Syscalls.ReceiveMessage: for such a step.
- Syscalls.Syscalls.UserStore: for such a step; a fault as `Syscalls.Syscalls.Exit`.
- Syscalls.Syscalls.Exit: for a user process that is not the last; see kernel processes above, and `Processes.Multitasking.KillCurrentProcess`.
- AddressSpaceRuns.IsolationOnEveryRun: for requests on user pages; after another the kernel reads its tables through other frames, which is not modelled.
- AddressSpaceRuns.StepKeepsInv: the same.
- AddressSpaceRuns.SharedOnEveryRun: the same.
- Conservation.FramesOnEveryRun: the same.
- AsWritten.RightOnEveryRun: the same.
- Digits.Dbgputn: bases below 2 are excluded: 0 divides by zero, 1 never ends, and a negative base reads outside the digits.
- Ramdisk.Index.GetFile: the archive lies in memory without address wrap, and the name asked for fits the field; a longer one may match a header whose name runs on.
- Ramdisk.Index.Init: the index array itself is not placed on the kernel heap.
