# A verified model of the kernel's memory, tasks and console

This project models the core of the 32-bit kernel in Dafny and proves what it does over whole runs: the heap
allocator, the physical frame allocator, the two-level page tables, tasks and the context switch, the timer-driven
system of three tasks, and the line editor with the shell's console. `dafny verify dfyconfig.toml` checks everything.

Code that updates state step by step is modelled as classes and methods over arrays, and each method is proved against
a specification function; the properties of the system are lemmas about those functions and about runs of them.

| part | specification | implementation |
|---|---|---|
| heap (`mm/memory.c`) | `HeapModel`, `HeapRuns` (lists of blocks, runs of calls), `HeapTest` | `HeapMemory`, `Heap` (headers linked inside the managed memory), `Boot` |
| frames (`mm/pmm.c`) | `Bitmap`, `FrameRuns` (set of free frames, runs) | `Frames` (bitmap words and counter) |
| page tables (`mm/paging.c`) | `PageModel`, `PageTables`, `PageRuns` (entry bits, the processor's walk, runs on a flat address space) | `Paging` (tables in physical memory, on the frame allocator) |
| tasks (`cpu/task.c`, `cpu/switch.asm`) | `TaskModel` (ring of stack images, runs) | `TaskMemory`, `Scheduler`, `SchedulerRuns` (structures and stacks on the heap's memory, registers, runs of them) |
| whole system (`drivers/timer.c`, `kernel/kernel.c`) | `System` | `Kernel` (boot and runs on the scheduler's memory and registers) |
| console (`lib/libc.c`, `drivers/vga.c`, `shell/shell.c`, `drivers/keyboard.c`) | `ScreenModel`, `Terminal`, `Commands`, `Transcripts`, `Typing`, the functions of `Libc` and `Keyboard` | `Console`, `Shell`, and the methods of `Libc` and `Keyboard` |
| words, bits, division | `Words`, `Bits`, `Arithmetic` | |

`kernel_panic` does not return, so a call that panics has the outcome `Panicked`. 32-bit wrap-around is written out
(`Words.Wrap`) wherever a value can leave the range. Ghost state is a list of blocks, a set of frames, a ring of tasks
or a line of text; `Valid()` ties it to the words in memory.

Places where a natural expectation is not what the code does have an exact condition and a failing input:

- A request of more than 0xFFFFFFFC bytes wraps to zero when it is rounded up, and the block is too small
  (`HeapRuns.BigEnoughIff`, `HeapRuns.WrappedRequest`).
- `mark_used` rounds the length of a range but not its ends, so an unaligned range can miss its last frame
  (`FrameRuns.RangeCompleteIff`, `FrameRuns.MissedFrame`); the bitmap is reserved to its last byte exactly when it
  starts on a frame boundary (`FrameRuns.BitmapReservedIff`).
- `pmm_init` reserves no frame of the heap, so the heap is kept out of the frame allocator exactly when the memory map
  reports none of it usable (`FrameRuns.HeapKeptOutIff`, `FrameRuns.HeapNotReserved`).
- `paging_map` clears a new table through the identity mapping, so it faults when the lowest free frame is not mapped
  (`Paging.AddressSpace.FirstTableIff`, `Paging.NoLowFrames`), and flags with high bits change the frame an entry points
  to (`PageModel.LeafFrameIff`, `PageModel.FlagsMoveFrame`).
- Round robin is fair only while nobody creates tasks: a task waits until there have been as many more yields than
  creates as there are places in front of it (`TaskModel.ContextPreserved`), which a chain of creating tasks never
  reaches (`TaskModel.ChainStarves`).
- The prompt row shows the line exactly while the line has stayed within 72 characters since the prompt
  (`Keyboard.Keyboard.HandleAll`, `ScreenModel.EchoLost`).
- `itoa` of -2^31 prints a bare sign (`Libc.RenderReadBackIff`), and `strcmp` does not look past a tab in its second
  argument (`Libc.CompareZeroIff`, `Libc.TabHidesTheRest`).

Where the code and its own words differ, the model follows the code: the `heaptest` command says the heap use it prints
last "should be 0", which holds exactly when nothing was allocated before it (`HeapTest.CommandRestores`), and tasks
are; the terminal is said to scroll, but `vga_scroll` leaves the last column of all rows but the last
(`Console.Console.VgaScroll`); the comment in `mm/paging.c` gives the end of the kernel window as 0x003FFFFF, while slot
768 covers 0xC0000000 to 0xC03FFFFF.

## Model

| member | source | states |
|---|---|---|
| HeapModel.RoundUp | mm/memory.c:82-85 | The rounded request is a multiple of four, at most three above the request, and zero when the addition wraps. |
| HeapModel.FirstFit | mm/memory.c:88-91 | The block chosen is free and big enough, and no block before it is. |
| HeapModel.AllotLive | mm/memory.c:91-109 | Taking a block, split or whole, adds exactly one live allocation at that block's offset, moves nothing, and charges its size and header. |
| HeapModel.AllotValid | mm/memory.c:91-109 | malloc keeps the heap tiled to exactly 4 MB, sizes multiples of four, and no two neighbouring free blocks. |
| HeapModel.ReleaseLive | mm/memory.c:132-153 | Freeing with two-sided coalescing removes exactly that allocation and its bytes, and nothing else. |
| HeapModel.ReleaseValid | mm/memory.c:132-153 | free keeps the tiling and merges so that again no two neighbouring blocks are free. |
| HeapModel.FreeHeadEnds | mm/memory.c:135-153 | A free block is a maximal gap: it ends where a live block begins or where the heap ends. |
| HeapModel.CanonicalFrom | mm/memory.c:93-153 | Coalesced lists over the same bytes with the same live allocations are equal, by induction on the list. |
| HeapModel.Canonical | mm/memory.c:93-153 | Canonical form: the set of live allocations determines the whole heap. |
| HeapRuns.LiveIsBlocks | mm/memory.c:11-16 | The live set is exactly the blocks whose flag is not free, at their own offsets. |
| HeapRuns.StepValid | mm/memory.c:74-154 | Every call that does not panic keeps the invariant. |
| HeapRuns.RunValid | mm/memory.c:74-154 | So does every run of calls. |
| HeapRuns.RunPositive | mm/memory.c:74-154 | Over runs whose requests do not wrap every block's size stays positive. |
| HeapRuns.HistoryIndependent | mm/memory.c:74-154 | Two runs from boot that end with the same live allocations end with the same heap, whatever happened in between. |
| HeapRuns.MallocEffect | mm/memory.c:88-108 | A successful malloc adds one allocation that was not live, at the first fit's offset, of at least the rounded size. |
| HeapRuns.ReleaseUndoesAllot | mm/memory.c:91-153 | Releasing a block just taken, whole or split, restores the list. |
| HeapRuns.FreeUndoesMalloc | mm/memory.c:74-154 | `free(malloc(n))` restores the heap exactly. |
| HeapRuns.FreesLive | mm/memory.c:118-154 | Freeing any distinct live allocations one after the other never panics and leaves exactly the others live. |
| HeapRuns.FreesCommute | mm/memory.c:118-154 | Freeing the same allocations in any two orders gives the same heap. |
| HeapRuns.FreeEverything | mm/memory.c:118-154 | Freeing everything in any order gives the single initial block back, with no bytes in use. |
| HeapRuns.RoomInOneBlock | mm/memory.c:135-153 | Any stretch of bytes that meets no live allocation lies inside one free block. |
| HeapRuns.LowestPlacement | mm/memory.c:88-113 | malloc panics exactly when there is no room between the live allocations, and otherwise uses the lowest offset with room. |
| HeapRuns.ExactCharge | mm/memory.c:93-106 | How many bytes a malloc charges, from the live allocations alone: the rounded size when there is room for 28 bytes more at the new allocation, and otherwise the whole gap, which is less than 28 bytes larger. |
| HeapRuns.RoomAtBlock | mm/memory.c:93-108 | Where a free block begins, the largest stretch free of live allocations has exactly the size of that block. |
| HeapRuns.BytesAddUp | mm/memory.c:156-164 | Bytes of live and of free blocks add up to the span of the heap. |
| HeapRuns.Fragmentation | mm/memory.c:88-113 | With L live blocks and every free block below m bytes, fewer than (L+1)*m bytes are free. |
| HeapRuns.GuaranteedSuccess | mm/memory.c:82-113 | With L live allocations, malloc(n) succeeds whenever (L+1) times the rounded size plus header is free. |
| HeapRuns.MallocCost | mm/memory.c:82-106 | A request of n bytes costs at least n+12 and at most n+39 bytes. |
| HeapRuns.BigEnoughIff | mm/memory.c:82-91 | The block handed out holds the bytes asked for if and only if the request is at most 0xFFFFFFFC. |
| HeapRuns.WrappedRequest | mm/memory.c:82-108 | A request of 0xFFFFFFFD bytes on the empty heap gets a block of size zero. |
| HeapRuns.LiveDisjoint | mm/memory.c:91-109 | Two live allocations, headers and payloads, never overlap. |
| HeapRuns.HeadersOutsidePayloads | mm/memory.c:91-109 | No header, of a live or free block, lies in a live payload. |
| HeapMemory.PayloadNotHeader | mm/memory.c:91-109 | In memory words: a word of a live payload is not a header word. |
| HeapMemory.SplitRepresented | mm/memory.c:95-102 | The five stores of a split turn a memory holding a list into one holding the list with the block split. |
| HeapMemory.MergeRepresented | mm/memory.c:136-153 | The two stores of a merge turn it into one holding the list with two blocks joined. |
| HeapMemory.SetFreeRepresented | mm/memory.c:105-132 | Storing a free flag changes that block of the list and no other header. |
| Heap.Heap.constructor | mm/memory.c:55-72 | memory_init leaves one free block of the whole heap at the next word boundary, nothing in use, and touches no other word. |
| Heap.Heap.SplitAt | mm/memory.c:95-102 | The split in memory refines the split of the list and writes header words only. |
| Heap.Heap.SetFreeAt | mm/memory.c:105-132 | Writing a flag refines the change of that block; exactly one word changes. |
| Heap.Heap.MergeAt | mm/memory.c:136-152 | Absorbing the following block refines the merge of the list; only the size and link words change. |
| Heap.Heap.Take | mm/memory.c:93-108 | Splitting if enough remains, marking and accounting refine taking the block, and keep every payload word. |
| Heap.Heap.Find | mm/memory.c:88-111 | The walk over the linked headers stops at the first block that fits, or at null when none does. |
| Heap.Heap.Malloc | mm/memory.c:74-116 | The walk over linked headers does what one step of the list model does, including the panic; the pointer is just past the chosen header; no word outside headers changes. |
| Heap.Heap.Previous | mm/memory.c:142-147 | The walk from the heap start stops at the block in front of the freed one, or at null when there is none. |
| Heap.Heap.CoalesceNext | mm/memory.c:136-140 | Merging with the following block when it is free refines the list's merge. |
| Heap.Heap.CoalescePrevious | mm/memory.c:142-153 | Finding the block in front and letting it absorb the freed one when it is free refines the list's merge. |
| Heap.Heap.Coalesce | mm/memory.c:135-153 | Both merges in the code's order give the coalesced list and write header words only. |
| Heap.Heap.Release | mm/memory.c:132-153 | Flag, accounting and coalescing give the list without that allocation. |
| Heap.Heap.Free | mm/memory.c:118-154 | Null does nothing; a set flag panics and changes nothing; a live pointer's block is released; no payload word changes. |
| Heap.Heap.CountersAgree | mm/memory.c:156-164 | The two counters are the bytes of the live and of the free blocks, and add up to 4 MB. |
| Heap.Heap.Perform | mm/memory.c:74-154 | One call does one step of the model and keeps every payload word of every allocation that it does not free. |
| Heap.Heap.Replay | mm/memory.c:74-154 | Any run of calls does to memory what the run does to the list, and leaves alone the payloads of all allocations it does not free. |
| HeapTest.CommandRestores | shell/shell.c:189-239 | The command panics only if one of its first three allocations does; otherwise any heap is left as it was, what is printed last is 0 exactly when nothing was allocated before, and d lies at b's slot or below. |
| HeapTest.CommandCompletes | shell/shell.c:189-239 | A free-space bound in the number of live allocations under which the command completes. |
| Boot.BumpAllocator.BumpAlloc | mm/memory.c:25-47 | Allocations lie one after the other from the first word boundary after the kernel, each rounded up to words. |
| Boot.MemoryBoot | kernel/kernel.c:42-46 | After boot the bitmap lies at the first word boundary after the kernel and the heap 4096 bytes behind it, empty, valid and one free block of 4 MB; no word below the heap has been touched. |
| Bitmap.ChangeBit | mm/pmm.c:12-20 | Setting or clearing a bit changes that bit and no other. |
| Bitmap.MarkUsed | mm/pmm.c:12-15 | Setting a frame's bit removes exactly that frame from the set of free frames. |
| Bitmap.MarkFree | mm/pmm.c:17-20 | Clearing it adds exactly that frame. |
| Bitmap.FullWordIff | mm/pmm.c:126 | A word is all ones if and only if none of its 32 frames is free, so skipping it misses nothing. |
| Bitmap.FreeFramesDetermine | mm/pmm.c:12-25 | The set of free frames determines the bitmap word for word. |
| Frames.FrameAllocator.TestIsUsed | mm/pmm.c:22-25 | The masked word is nonzero exactly when the frame is not free. |
| Frames.FrameAllocator.Set | mm/pmm.c:12-15 | Only the frame's bit changes, and the frame leaves the free set. |
| Frames.FrameAllocator.Clear | mm/pmm.c:17-20 | Only the frame's bit changes, and the frame joins the free set. |
| Frames.FrameAllocator.UseIfFree | mm/pmm.c:35-45 | The counter stays equal to the number of free frames, so its guard never blocks the decrement; frames beyond the total are ignored. |
| Frames.FrameAllocator.FreeIfUsed | mm/pmm.c:57-64 | The counter stays equal to the number of free frames; frames beyond the total are ignored. |
| Frames.FrameAllocator.MarkRangeUsed | mm/pmm.c:27-47 | Exactly the frames of the rounded range leave the free set, with wrap-around in the rounding. |
| Frames.FrameAllocator.MarkRangeFree | mm/pmm.c:49-66 | Exactly the frames of the rounded range below the total join it. |
| Frames.FrameAllocator.constructor | mm/pmm.c:76-94 | Before the memory map is walked every frame is used and the count is zero. |
| Frames.FrameAllocator.ScanWord | mm/pmm.c:128-140 | The scan of a word returns its lowest free frame, or says that it has none. |
| Frames.FrameAllocator.AllocFrame | mm/pmm.c:116-146 | Panics exactly when no frame is free; otherwise returns the address of the lowest free frame and changes that frame's bit only; the "inconsistent bitmap" panic cannot be reached. |
| Frames.FrameAllocator.FreeFrame | mm/pmm.c:149-165 | Panics exactly for a frame out of range or already free, changing nothing; otherwise frees that frame. |
| Frames.FrameAllocator.FreeBounded | mm/pmm.c:116-146 | Free frames lie below the total, so there are at most that many. |
| Frames.FrameAllocator.CountersAgree | mm/pmm.c:167-175 | The two counters are the numbers of free and of used frames, and add up to the total. |
| FrameRuns.FreeReported | mm/pmm.c:96-104 | After the walk a frame is free exactly when some usable entry's rounded range covers it. |
| FrameRuns.OnlyTypeOne | mm/pmm.c:98-103 | Only entries of type 1 give frames: without one nothing is free. |
| FrameRuns.PmmInit | mm/pmm.c:68-113 | For any memory map: a frame is free if and only if a usable entry covers it and none of the three reserved ranges does. |
| FrameRuns.OrderIrrelevant | mm/pmm.c:96-104 | Order, repetition and overlap of memory map entries make no difference. |
| FrameRuns.ReservedFrames | mm/pmm.c:106-110 | No byte below the kernel's end lies in a free frame. |
| FrameRuns.RangeCompleteIff | mm/pmm.c:29-30 | A range is covered to its last byte if and only if its offset in the first frame plus its length fit the rounded count. |
| FrameRuns.MissedFrame | mm/pmm.c:29-30 | A range of one frame's length that starts in the middle of a frame misses its second half. |
| FrameRuns.HeapFramesFreeIff | mm/pmm.c:106-112 | Wherever the kernel ends, no frame that the heap meets is reserved, so it is free exactly when a usable entry covers it. |
| FrameRuns.HeapKeptOutIff | mm/pmm.c:106-112 | No frame of the heap is free after pmm_init if and only if no usable entry covers one. |
| FrameRuns.BitmapReservedIff | mm/pmm.c:112 | Every byte of the bitmap lies in a reserved frame if and only if the bitmap starts on a frame boundary. |
| FrameRuns.HeapNotReserved | mm/pmm.c:106-112 | A memory map and a kernel end for which the first frame of the heap is free after pmm_init. |
| FrameRuns.Conservation | mm/pmm.c:116-165 | Over any run free and held frames stay disjoint and their union and their number stay the same. |
| FrameRuns.NoDoubleHandout | mm/pmm.c:116-165 | No run hands out a frame that is held. |
| FrameRuns.NeverReserved | mm/pmm.c:106-146 | From boot on no run hands out a frame that pmm_init reserved or did not see reported; in particular never address 0. |
| FrameRuns.ReleaseUndoesAlloc | mm/pmm.c:135-164 | Allocating a frame and freeing it restores the bitmap bit for bit. |
| FrameRuns.Serve | mm/pmm.c:116-165 | One request of a client that frees only what it holds is answered by the event it asks for, or by a panic when no frame is free. |
| FrameRuns.ServeAll | mm/pmm.c:116-165 | Any sequence of such requests is answered event for event, as a run of the model, so free and held frames stay disjoint and together the same; it stops only at an allocation with no frame left. |
| PageModel.Indices | mm/paging.c:15-23 | The two shifted and masked indices are the page number divided by 1024 and its remainder. |
| PageModel.PresentIsOdd | mm/paging.c:78 | The present test looks at the lowest bit. |
| PageModel.MaskFrame | mm/paging.c:87 | Masking with 0xfffff000 gives the address of the frame the entry lies in. |
| PageModel.DirEntryIs | mm/paging.c:83 | A table's directory entry is its address plus the two flags, with no bit lost. |
| PageModel.LeafEntryIs | mm/paging.c:89 | A leaf entry is present, and its frame and flag parts are those of the address joined with those of the flags, for all flags. |
| PageModel.LeafFrameIff | mm/paging.c:89 | The entry points to the given frame if and only if the flags set no frame bit that the address lacks; flags below 0x1000 never do. |
| PageModel.FlagsMoveFrame | mm/paging.c:89 | An address and flags whose entry points to another frame. |
| PageTables.WriteLeaf | mm/paging.c:86-89 | A leaf store changes the translation of that page and its alias and of no other page, and keeps table ownership. |
| PageTables.AddTable | mm/paging.c:78-84 | Entering a cleared table in an empty slot maps and unmaps nothing, takes one free frame, and keeps tables pairwise distinct. |
| Paging.AddressSpace.constructor | mm/paging.c:27-50 | After paging_init exactly the low 4 MB and the kernel window are mapped, both to the low frames, writable and present. |
| Paging.AddressSpace.ClearFrame | mm/paging.c:81 | The frame is zero and no other word has changed. |
| Paging.AddressSpace.InstallTable | mm/paging.c:81-83 | The new table is empty, its slot points to it, every other slot and table is as before. |
| Paging.AddressSpace.NewTable | mm/paging.c:78-84 | The table goes to the lowest free frame and its slot alone changes; no page's translation does; or the call ends as out of frames or in a fault. |
| Paging.AddressSpace.WriteMapping | mm/paging.c:86-89 | The page and its alias translate to the new entry and every other page as before. |
| Paging.AddressSpace.PagingMap | mm/paging.c:71-90 | The tables refine a flat space of page entries, slots and free frames, the way the call ends included; free frames plus present slots stay constant. |
| Paging.AddressSpace.CallChanges | mm/paging.c:71-90 | A completed call changes the page and its alias to the new entry and no other page; one that does not complete changes none. |
| Paging.AddressSpace.MapAll | mm/paging.c:71-90 | Any sequence of calls is the flat run: how many complete, how the next one ends, that every page translates as the last completed call for it or its alias said, and that frames are conserved. |
| PageRuns.LastCallWins | mm/paging.c:71-90 | In the flat run every page has the entry of the last completed call for it or its alias. |
| PageRuns.RunConserves | mm/paging.c:78-84 | A run that completes turns free frames into tables, one for one. |
| PageRuns.LowStep | mm/paging.c:71-90 | A call that leaves the low 4 MB alone keeps them and the tables low, and fails only if it needs a table and no low frame is free. |
| PageRuns.LowRunCompletes | mm/paging.c:71-90 | A run of such calls completes when the tables it needs are at most the free frames below 4 MB. |
| PageRuns.LowRunCompletesIff | mm/paging.c:71-90 | And only then, as long as no page beyond the low 4 MB is mapped to its own frame. |
| PageRuns.LastIs | mm/paging.c:89 | What that last call stored: its flags, and its frame if and only if the flags set no frame bit that the address lacks. |
| Paging.AddressSpace.WindowsAgree | mm/paging.c:45-50 | In every state the tables of slots 0 and 768 are one table and translate identically. |
| Paging.AddressSpace.WindowAtC0000000 | mm/paging.c:45-50 | In every state each of the pages 0xC0000 to 0xC03FF translates as the page of the low 4 MB with the same number in its table. |
| Paging.AddressSpace.FreshMappings | mm/paging.c:27-50 | Right after paging_init exactly the pages 0 to 0x3FF and 0xC0000 to 0xC03FF are mapped, with flags 3, to the frames 0 to 0x3FF. |
| Paging.AddressSpace.FirstTableIff | mm/paging.c:78-81 | Right after paging_init a call that needs a table completes if and only if the lowest free frame lies in the low 4 MB, and faults otherwise. |
| Paging.NoLowFrames | mm/pmm.c:96-104 | A memory map with nothing usable below 4 MB, for which that call faults. |
| Paging.AddressSpace.FreshIsLow | mm/paging.c:27-50 | After paging_init the low 4 MB are mapped to themselves, the tables lie there, and no other free frame can be reached. |
| Paging.AddressSpace.FreshRunsIff | mm/paging.c:27-90 | A run of calls after paging_init completes if and only if the tables it needs are at most the free frames below 4 MB. |
| Paging.AddressSpace.LowCallsComplete | mm/paging.c:71-90 | While the low 4 MB keep their identity mapping and tables lie there, a call fails exactly when it needs a table and no frame is free. |
| Paging.AddressSpace.OtherAlloc | mm/pmm.c:116-146 | A frame handed to another client is no table, and tables and translation stay as they are. |
| Paging.AddressSpace.OtherFree | mm/pmm.c:149-165 | Giving back a frame that is no table keeps them too. |
| Paging.AddressSpace.OtherStore | mm/paging.c:78-89 | So does any store into such a frame. |
| TaskModel.SuspendedOrResumed | cpu/task.c:47-70 | One event moves a suspended task one place towards the head or away from it, or resumes it with exactly its image. |
| TaskModel.ContextPreserved | cpu/task.c:47-70 | Over any run a suspended task keeps its image until it runs with it, which is exactly when yields first exceed creates by its place in the ring. |
| TaskModel.YieldRoundTrip | cpu/switch.asm:12-33 | A task that yields finds ebx, esi, edi, ebp, its return address and its stack as it left them, however others interleave, and when that is. |
| TaskModel.FirstRun | cpu/task.c:32-45 | A new task first runs at its entry with the four registers zero and an empty stack. |
| TaskModel.RoundRobin | cpu/task.c:54-70 | Without creates, any number of yields rotates the ring by that number modulo its length. |
| TaskModel.FullTurn | cpu/task.c:54-70 | The tasks run in ring order over any number of turns, and whole turns end where they started. |
| TaskModel.EachOnce | cpu/task.c:54-70 | At two moments of a run the same task runs exactly when the yields between make up whole turns, so each runs once a turn. |
| TaskModel.WithinATurn | cpu/task.c:54-70 | Without creates every task has run again by the time of as many yields as there are other tasks. |
| TaskModel.NeverAdvanced | cpu/task.c:47-70 | A task stays suspended through a run with never more yields than creates. |
| TaskModel.ChainStarves | cpu/task.c:47-70 | Tasks that each create one before yielding keep all older tasks waiting for good. |
| TaskModel.NewestFirst | cpu/task.c:47-49 | Tasks created back to back by one task run newest first, before all older ones. |
| TaskMemory.YieldHolds | cpu/task.c:62-69 | The words a yield writes turn a memory holding the ring into one holding the rotated ring. |
| TaskMemory.CreateHolds | cpu/task.c:28-49 | The words a create writes turn it into one holding the ring with the new task behind the running one. |
| TaskMemory.WorkHolds | cpu/task.c:54-70 | A task that writes its own stack only leaves every other task's structure and stack as they are. |
| TaskMemory.HoldsFrame | cpu/task.c:54-70 | Writes outside all structures and stacks change no task. |
| Scheduler.Scheduler.SaveContext | cpu/switch.asm:14-24 | The four registers lie below the return address, their address is stored through the first argument, and the stack pointer is the second. |
| Scheduler.Scheduler.RestoreContext | cpu/switch.asm:27-33 | The five words at the new stack pointer become ebp, edi, esi, ebx and the instruction pointer. |
| Scheduler.Scheduler.ContextSwitch | cpu/switch.asm:12-33 | What the routine writes, and that the registers it loads are those of the other stack as it was before the call. |
| Scheduler.Scheduler.MarkStates | cpu/task.c:62-67 | The two state bytes are stored without touching the other bytes of their words, and the next task is current. |
| Scheduler.Scheduler.CallContextSwitch | cpu/task.c:69 | The call leaves the arguments, return address and registers below the caller's stack, its stack pointer in the caller's structure, and resumes the other task. |
| Scheduler.Scheduler.Switch | cpu/task.c:62-69 | The exact words a switch writes and the registers it loads. |
| Scheduler.Scheduler.YieldToNext | cpu/task.c:62-69 | With another task, yield does the model's step and keeps heap, ring and stacks sound in memory. |
| Scheduler.Scheduler.TaskYield | cpu/task.c:54-70 | Nothing happens before task_init or with one task; otherwise the model's yield step; one task running, pids distinct. |
| Scheduler.Scheduler.Work | cpu/task.c:54-70 | The running task may change its registers and pop and push on its own stack; memory then holds the model's next state. |
| Scheduler.Scheduler.Claim | cpu/task.c:28-33 | malloc on behalf of a task returns memory that belongs to no task and keeps every live payload word. |
| Scheduler.Scheduler.FillStack | cpu/task.c:34-43 | The new stack holds the initial image at its top, and no other word changes. |
| Scheduler.Scheduler.NumberTask | cpu/task.c:29-30 | The pid and the ready state are stored in the new structure without disturbing heap or tasks. |
| Scheduler.Scheduler.GiveStack | cpu/task.c:33-45 | The second allocation and the stores into it give a task with the initial image, not yet in the ring. |
| Scheduler.Scheduler.CopyNext | cpu/task.c:48 | The new structure links to the running task's successor. |
| Scheduler.Scheduler.Link | cpu/task.c:49 | One store into the running task's link makes the new task a member of the ring, right behind it. |
| Scheduler.Scheduler.TaskCreate | cpu/task.c:26-52 | Two allocations, with their panics; then the model's create step with a fresh pid, the initial image and a 4096-byte stack of its own, heap and ring sound. |
| Scheduler.Scheduler.FirstTask | cpu/task.c:15-23 | The stores of task_init make a ring of one running task with pid 0. |
| Scheduler.Scheduler.TaskInit | cpu/task.c:12-24 | The code already running becomes task 0, with its registers and its stack as they are. |
| Scheduler.Scheduler.RingSmall | cpu/task.c:10-29 | The heap cannot hold enough tasks for the pid counter to wrap. |
| SchedulerRuns.RunAll | cpu/task.c:26-70 | Any sequence of creates, yields and work that overflows no stack goes through the model's run of exactly those events in memory and registers, and stops early only at a create that the heap has no room for. |
| SchedulerRuns.RoomsStep | cpu/task.c:32-70 | How much stack each task has left is known beforehand from the requests alone. |
| SchedulerRuns.TurnAt | cpu/task.c:47-70 | When a task of the ring runs again is known from the requests alone. |
| SchedulerRuns.RunAround | cpu/switch.asm:12-33 | Over any such run memory keeps a suspended task's stack pointer and stack words until its turn, and at its turn the registers, return address and stack are those words. |
| SchedulerRuns.YieldReturns | cpu/switch.asm:12-33 | Whatever runs in between, a yield returns to its caller with ebx, esi, edi, ebp, the return address and every stack word as before. |
| SchedulerRuns.CreateStarts | cpu/task.c:26-52 | Whatever runs in between, a new task's first turn is at its entry with the four registers zero and its own stack empty. |
| System.StepFromIdle | drivers/timer.c:30-47 | The interrupt counts a tick, counts a second if one is due, parks main and resumes thread_b. |
| System.StepInB | kernel/kernel.c:25-32 | thread_b adds two per turn and yields to thread_a. |
| System.StepInA | kernel/kernel.c:16-23 | thread_a adds one per turn and yields to main. |
| System.StepInHandler | drivers/timer.c:46-47 | Main returns from the yield and from the interrupt to where it was. |
| System.CpuKeeps | kernel/kernel.c:16-32 | Every step can be taken, keeps the invariant and is one step closer to main's loop. |
| System.RunKeeps | drivers/timer.c:30-47 | The invariant holds after any interleaving of timer interrupts and processor steps. |
| System.BootInv | kernel/kernel.c:54-61 | It holds when interrupts are first enabled, thread_a having been created before thread_b. |
| Kernel.CreatesSucceed | kernel/kernel.c:54-56 | No run of a few dozen requests on an almost empty heap can find it full. |
| Kernel.StartTasks | kernel/kernel.c:54-61 | task_init and the two task_create calls on an empty heap cannot panic, and lead to the boot state that the invariant starts from. |
| Kernel.Machine.TimerHandler | drivers/timer.c:30-47 | In memory and registers the handler does the system's timer step. |
| Kernel.Machine.ThreadA | kernel/kernel.c:16-23 | One turn of thread_a: one more, and a yield. |
| Kernel.Machine.ThreadB | kernel/kernel.c:25-32 | One turn of thread_b: two more, and a yield. |
| Kernel.Machine.Cpu | kernel/kernel.c:16-32 | Every processor step is the system's. |
| Kernel.Machine.RunAll | drivers/timer.c:30-47 | Any interleaving of timer signals and processor steps is the system's run, signals with interrupts off not being taken. |
| Kernel.BootAndRun | kernel/kernel.c:54-67 | From an empty heap, through task creation and any run: the counters as in the whole-system theorem, on the real scheduler. |
| System.WholeSystem | drivers/timer.c:30-47 | Whenever main runs outside the handler: thread_a_count = ticks and thread_b_count = 2*ticks modulo 2^32; seconds = ticks / hz until ticks wraps; main's stack is as at boot. |
| System.SecondsDivide | drivers/timer.c:32-38 | Counting a second at every multiple of hz is dividing by hz, until the counter wraps. |
| System.MainReturns | kernel/kernel.c:16-32 | From every reachable state main is back in its loop within six steps. |
| Libc.Strlen | lib/libc.c:27-37 | The number of characters before the first NUL. |
| Libc.Strcmp | lib/libc.c:39-52 | The loop over the buffer computes the comparison of the two strings. |
| Libc.CompareZeroIff | lib/libc.c:39-52 | Zero if and only if the strings, of any bytes, are equal or agree through the first tab of the second. |
| Libc.CompareAtDifference | lib/libc.c:39-52 | The result is the difference of the signed characters at the first position where the strings differ, when no tab in the second comes first; so its sign is the order of the strings. |
| Libc.TabHidesTheRest | lib/libc.c:42 | Two different strings that compare as equal. |
| Libc.RenderReadBackIff | lib/libc.c:66-106 | Reading itoa's text as signed decimal gives the number back if and only if it is not -2^31, and there is no leading zero. |
| Libc.RenderLength | lib/libc.c:66-106 | The text has 1 to 11 characters. |
| Libc.PutDigits | lib/libc.c:86-90 | The loop stores the digits lowest first, at most ten of them. |
| Libc.CopyBack | lib/libc.c:99-104 | The loop copies them in reverse and touches nothing else. |
| Libc.Itoa | lib/libc.c:66-106 | The buffer holds the text and a NUL, within twelve bytes, and is unchanged beyond. |
| Libc.HexReadBack | lib/libc.c:111-126 | Reading back the hexadecimal digits of a number that fits gives the number. |
| Libc.WordReadBack | lib/libc.c:111-126 | All 32 bits come back from exactly eight digits. |
| Libc.ItoaHex | lib/libc.c:111-126 | The buffer holds 0x, the eight digits and a NUL. |
| Console.Console.VgaWriteChar | drivers/vga.c:9-13 | The index is on the screen and only that cell changes. |
| Console.Console.VgaClear | drivers/vga.c:15-22 | Every cell is blank. |
| Console.Console.VgaScroll | drivers/vga.c:35-56 | Copying in place moves each row up in columns 0 to 78, blanks the last row, and leaves the last column of the others. |
| Console.Console.NextLine | shell/shell.c:22-33 | The cursor goes to the start of the next row, scrolling at the bottom; it stays on the screen. |
| Console.Console.PrintText | shell/shell.c:35-50 | Text is printed with wrapping, every character landing on the screen. |
| Console.Console.PrintLine | shell/shell.c:52-56 | Text and a new line. |
| Console.Console.ClearAll | shell/shell.c:76-81 | A blank screen with the cursor at the top. |
| Console.Console.ShellPutChar | shell/shell.c:431-440 | The character is echoed and the cursor never rests past the end of a row. |
| Console.Console.ShellBackspace | shell/shell.c:442-449 | The cell before the cursor is blanked, unless the cursor is at the start of a row. |
| ScreenModel.NewlineClean | shell/shell.c:22-33 | Everything from the cursor on stays blank across a new line, scrolling included. |
| ScreenModel.PrintClean | shell/shell.c:35-50 | And across printing any text, however long. |
| ScreenModel.PerformClean | shell/shell.c:64-331 | And across a command's whole output, which leaves the cursor at column 0 if it ends a line. |
| Terminal.ScrolledAt | drivers/vga.c:41-49 | A scroll puts each cell of columns 0 to 78 on the row above. |
| Terminal.LineMovesUp | shell/shell.c:22-33 | Over a new line, scrolling or not, the line just written and every finished line still visible stand one place further from the cursor. |
| Terminal.NewlineOnScreen | shell/shell.c:22-33 | A screen that shows the end of a terminal of unbounded length goes on showing it after a new line. |
| Terminal.PrintOnScreen | shell/shell.c:35-50 | And after printing any text. |
| Terminal.PerformOnScreen | shell/shell.c:64-331 | And after the output of any command. |
| Terminal.PutCharOnScreen | shell/shell.c:431-440 | And after the echo of a key. |
| Terminal.BackspaceOnScreen | shell/shell.c:442-449 | And after an erasure, which takes away the last character of the line being written. |
| Terminal.LinesStand | shell/shell.c:22-56 | After any number of lines of at most 79 characters the last 24 stand in order on the rows above the cursor, in their colour and with blanks behind them. |
| Terminal.PrintWraps | shell/shell.c:35-50 | Text of any length: character i stands i places behind the cursor, 80 to a line, and none is lost. |
| ScreenModel.PromptShows | shell/shell.c:58-61 | The prompt at the start of a row puts the cursor at column 7 on a row that shows nothing else. |
| ScreenModel.PutCharShows | shell/shell.c:431-440 | While the line stays within 72 characters typing keeps the row equal to prompt and line. |
| ScreenModel.BackspaceShows | shell/shell.c:442-449 | So does erasing. |
| ScreenModel.PutCharBehind | shell/shell.c:431-440 | Once the line has outgrown the row, typing never makes the row show prompt and line again. |
| ScreenModel.BackspaceBehind | shell/shell.c:442-449 | Nor does erasing. |
| ScreenModel.EchoLost | shell/shell.c:436-449 | At 73 characters the cursor is on the next row and erasing no longer changes the screen. |
| Commands.TokeniseIs | shell/shell.c:335-361 | A line is spaces only, or spaces, a non-empty word without spaces, and the argument text after one space: nothing is lost. |
| Commands.ScriptEndsLine | shell/shell.c:64-331 | Every command's output ends by going to a new line or clearing the screen. |
| Transcripts.TokeniseOf | shell/shell.c:335-361 | Behind any number of spaces a word alone is a command without arguments, and a word, a space and any text is that command with that text. |
| Transcripts.CommandWords | shell/shell.c:363-410 | Which word selects which of the twelve commands, and that no other word does. |
| Transcripts.UnknownIff | shell/shell.c:363-415 | A word is unknown exactly when it is none of the twelve. |
| Transcripts.EchoWrites | shell/shell.c:92-102 | `echo` writes its argument, however long, as a line of its own, and an empty line without one. |
| Transcripts.ClearWrites | shell/shell.c:76-81 | `clear` leaves an empty terminal. |
| Transcripts.MemWrites | shell/shell.c:83-90 | `mem` writes one line, from which the bytes in use can be read back. |
| Transcripts.UptimeWrites | shell/shell.c:104-110 | `uptime` writes one line, from which the seconds can be read back. |
| Transcripts.ThreadsWrite | shell/shell.c:301-312 | `threadcount` writes two lines, from which the two counters can be read back in their order. |
| Transcripts.PmmWrites | shell/shell.c:167-187 | `pmm` writes four lines, from which the frames in all, the used ones, the free ones and the free megabytes can be read back. |
| Transcripts.UnknownWrites | shell/shell.c:411-415 | An unknown word is repeated in an error line of its own colour. |
| Transcripts.OutputShows | shell/shell.c:22-56 | Output that is lines of at most 79 characters, started on a clean screen at column 0, ends with the last 24 of them on the rows above the cursor. |
| Transcripts.EchoShows | shell/shell.c:92-102 | So on the screen the row above the cursor holds the argument of `echo`. |
| Transcripts.MemShows | shell/shell.c:83-90 | The row above the cursor holds a line with the bytes in use. |
| Transcripts.UptimeShows | shell/shell.c:104-110 | The row above the cursor holds a line with the seconds. |
| Transcripts.ThreadsShow | shell/shell.c:301-312 | The two rows above the cursor hold lines with the two counters. |
| Transcripts.PmmShows | shell/shell.c:167-187 | The four rows above the cursor hold lines with the four figures. |
| Transcripts.UnknownShows | shell/shell.c:411-415 | The row above the cursor names the unknown word. |
| Transcripts.CommandShows | shell/shell.c:451-456 | For a whole command line submitted on a clean screen: the prompt stands at the cursor in its colour, and the last 24 output lines in order above it. |
| Shell.Tokens | shell/shell.c:335-361 | The in-place split leaves the word and the arguments as two C strings in the buffer. |
| Shell.Start | shell/shell.c:335-339 | The loop stops at the first character that is not a space. |
| Shell.WordEnd | shell/shell.c:350-354 | The loop stops at the end of the word. |
| Shell.Is | shell/shell.c:363 | Comparing with a command name decides equality of the strings. |
| Shell.Select | shell/shell.c:363-415 | The chain of comparisons picks the command of that name, or the unknown one. |
| Shell.ParseAndRun | shell/shell.c:333-416 | A line produces its command's output; exactly the page-fault command does not come back. |
| Shell.ProcessedShows | shell/shell.c:451-456 | After every command the prompt stands alone on its row with the cursor at column 7. |
| Shell.ProcessedOnScreen | shell/shell.c:451-456 | Over a whole command line, new line, output and prompt, the screen goes on showing the end of the terminal. |
| Shell.ShellProcess | shell/shell.c:451-456 | New line, output, prompt; halts exactly on the page-fault command. |
| Shell.ShellInit | shell/shell.c:422-429 | At boot the screen shows the prompt with an empty line behind it. |
| Keyboard.TypedPrintable | drivers/keyboard.c:127-149 | What a key types is an ASCII character and never NUL. |
| Keyboard.CapitalIsShifted | drivers/keyboard.c:137-144 | The capital computed from a letter's code is the letter's entry in the shift table. |
| Keyboard.BackspaceUndoes | drivers/keyboard.c:98-109 | Backspace undoes the key before it, if that typed a character. |
| Typing.DigitRow | drivers/keyboard.c:13-14 | Codes 0x02 to 0x0D type 1234567890-= plain, and the signs above them with shift. |
| Typing.TopRow | drivers/keyboard.c:17-18 | Codes 0x10 to 0x1B are the row from q to the brackets. |
| Typing.HomeRow | drivers/keyboard.c:21-22 | Codes 0x1E to 0x29 are the row from a to the backquote. |
| Typing.BottomRow | drivers/keyboard.c:24-26 | Codes 0x2B to 0x35 are the backslash and the row from z to the slash. |
| Typing.TabAndSpace | drivers/keyboard.c:16-29 | The tab and the space type themselves, with shift and without. |
| Typing.OtherCodes | drivers/keyboard.c:27-62 | No other code types anything. |
| Typing.LetterCase | drivers/keyboard.c:137-144 | On a letter shift and caps lock cancel each other, and exactly one of them gives the capital. |
| Typing.CapsIsForLetters | drivers/keyboard.c:135-149 | Caps lock changes no other key. |
| Typing.ControlCodes | drivers/keyboard.c:78-119 | Which codes press and release shift, toggle caps lock, erase and submit. |
| Typing.StrokeTypes | drivers/keyboard.c:127-149 | The key found for a character types that character, with shift where it needs it. |
| Typing.AllPrintable | drivers/keyboard.c:9-62 | All 95 printable ASCII characters have a key. |
| Typing.TypeText | drivers/keyboard.c:73-153 | The strokes of any text put exactly that text behind the line, and submit nothing. |
| Typing.TypeAndEnter | drivers/keyboard.c:73-153 | The strokes of any text and enter submit exactly that text. |
| Keyboard.Keyboard.TypeChar | drivers/keyboard.c:151-152 | The character is appended to the line, in the buffer and on the screen. |
| Keyboard.Keyboard.EraseChar | drivers/keyboard.c:99-109 | The last character, if any, leaves the line, the buffer and the screen. |
| Keyboard.Keyboard.Submit | drivers/keyboard.c:112-119 | The shell gets exactly the line, NUL-terminated; the screen becomes what shell_process makes of it, and the next line starts empty behind a new prompt. |
| Keyboard.Keyboard.SetModifiers | drivers/keyboard.c:78-96 | Shift and caps lock follow the abstract editor; other codes fall through. |
| Keyboard.Keyboard.EditLine | drivers/keyboard.c:98-152 | Backspace, enter and the keys that type do one step of the abstract editor and of the terminal. |
| Keyboard.Keyboard.HandleKey | drivers/keyboard.c:121-152 | Other keys append what they type under the shift and caps state, or do nothing. |
| Keyboard.Keyboard.Handle | drivers/keyboard.c:73-153 | One scan code does one step of the abstract editor and one step of the terminal whose end the screen shows; the echo shows prompt and line exactly while the line has stayed short. |
| Keyboard.Keyboard.HandleAll | drivers/keyboard.c:73-153 | For any sequence of scan codes the lines submitted and the line left are those of the abstract editor, the screen shows the end of the terminal that keys and commands wrote on, the row shows prompt and line exactly when the line has stayed within 72 characters since the prompt, and it halts exactly when a line is the page-fault command. |

## Left out

- Boot sectors, GDT, IDT, PIC and PIT programming, port I/O, `cli`/`sti`/`hlt` and the control registers: a scan code,
  a timer interrupt and register values are inputs; a panic or the deliberate page fault is a final outcome.
- The browser demo under `demo/`.
- Memory is a sequence of 32-bit words; the state byte of a task is stored with `WithByte`, and clearing a page is done
  word by word instead of byte by byte.
- Heap.Heap.Free: a pointer whose header was merged away earlier and whose stale flag reads zero is excluded, because
  the C code gives `free` no meaning there; null, live pointers and every nonzero flag are covered.
- Heap and physical frames share the machine's memory and the code does not keep them apart
  (`FrameRuns.HeapKeptOutIff` says when it does); the paging model gives physical memory an array of its own, and the
  frame bitmap another.
- Paging.AddressSpace.PagingMap: a call whose table access faults or goes to another frame stops there as `PageFault`
  or `Misdirected`; what the stray store would do is not modelled, nor is remapping the pages that the running code and
  stack use.
- Translation is modelled, access rights and page sizes other than 4 KB are not; the flags are stored and read back.
- Scheduler.Scheduler.YieldToNext: the running task is required to have seven words of stack left, since the code does
  not check for stack overflow; task_yield's own C frame counts as part of the task's stack.
- Scheduler.Scheduler.TaskYield: the same seven words, when there is another task to switch to.
- `task_list` is written once and never read.
- Kernel.BootAndRun: what kernel_main does between creating the tasks and its idle loop is one step of work on its
  stack; the boot stack lies outside the heap.
- System.WholeSystem: the interrupt frame is one word holding where main resumes, and main keeps its stack between
  interrupts; keyboard interrupts are in `Keyboard`, not in this run. The frequency is positive, as the divisor in
  timer_init requires.
- Shell.ParseAndRun: what a command prints about the rest of the kernel comes from `Env`; in particular `heaptest`'s own
  allocations, and a panic of theirs, are in `HeapTest` and not in the shell.
- Keyboard.Keyboard.Handle: a line is at most 255 characters, the room of the buffer, which the code does not check.
- Keyboard.Keyboard.HandleKey: the same bound on the line.
- Keyboard.Keyboard.TypeChar: the same bound on the line.
- Libc.Itoa: negating -2^31 leaves it as it is, as two's complement does; C leaves it undefined.
- `memcpy`, `strcpy`, `strcat`, `vga_print` and mm/memmap.c: loops without interaction; the memory map is an arbitrary
  input to `FrameRuns.PmmInit`.
- What `help`, `memmap`, `heaptest`, `paging` and `rawmem` print is in `Commands.Script` and nothing further is stated about
  their texts; a line that has scrolled has no promise about its last column, which `vga_scroll` does not move.
- A screen cell is a character with a colour, not the two bytes that encode them.
