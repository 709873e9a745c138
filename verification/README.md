# NIMBU OS: a verified model of the kernel's core

This project models the state-keeping parts of the NIMBU OS kernel in Dafny and proves what they
keep, call by call and over whole runs. It follows the C code. The Markdown guides describe a
different heap (splitting and merging) and a rotating scheduler; where they disagree, the code is
what is modelled.

| files | part of the kernel |
|---|---|
| `Words.dfy` | bytes, 32-bit words, little-endian access, bitwise OR, in bounded integers |
| `Heap.dfy`, `HeapBlocks.dfy`, `HeapDriver.dfy`, `HeapRuns.dfy`, `HeapSpace.dfy` | the kernel heap, with headers stored in the heap bytes |
| `Pmm.dfy`, `PmmRuns.dfy` | the frame bitmap |
| `Vmm.dfy`, `VmmRuns.dfy`, `VmmBoot.dfy`, `VmmDriver.dfy` | two-level paging, with directory and tables in the words of memory, as in section 4.3 of volume 3A of the Intel SDM |
| `Vga.dfy`, `Scrollback.dfy` | the text console |
| `Kbd.dfy`, `KbdRuns.dfy` | the keyboard ring, also with interrupts inside `kbd_getchar` |
| `Shell.dfy`, `ShellRuns.dfy` | line editor and tokenizer |
| `Process.dfy`, `ProcessRuns.dfy` | process table and process creation |
| `Scheduler.dfy`, `SchedulerRuns.dfy` | timer tick and context switch |

Each component has the same shape. A class holds the C module's static data and its methods follow
the C functions statement by statement; every method is proved equal to a function on values (the
state before gives the state after and the result). The lemmas about those functions carry the
results: an independent description of the same behaviour (a list of blocks, a set of frames, one
flat page map, an unbounded scrollback, a queue, a phase of the scheduler) and invariants over all
runs. Runs are sequences of states joined by steps; a step relation says nothing about a state in
which the C code would leave its memory, and the invariants show that no such state is reached.

Assumptions that the proofs need and that the code does not establish:

- Heap: `2 * size + 12 < 2^32` (boot uses 8 MB). `GuardIsExact` shows that the bound is needed.
- Paging: the frames of the page directory, of the four static tables and of the frame bitmap (from
  2 MB on, `src/kernel/mm/pmm.c:32`) are never handed out by the frame allocator. `BootIsSafeExactly`
  shows that this is what it takes: with all of them reserved every run translates like the flat map
  and spares the bitmap, and with any of them within reach some run does not. `PagingIsSafeExactly` is
  the same for any other memory that has to survive. Free frames hold zeros (`FramingExact` says
  exactly when this matters). Directory, static tables and bitmap do not overlap.
- Paging: page tables are stored into through their physical addresses, with paging on. Such a store
  arrives exactly if the tables map that address to itself (`RunReaches`), which after `vmm_init`
  holds exactly below 16 MB (`BootReaches`, `NewTableReached`). The model stores as if it did.
- Keyboard: the interrupt handler runs to completion; only the reader is interrupted.
- Scheduler: `context_switch` does not update the current-process pointer and no other code in
  the kernel does. The run lemmas add the step `current := next` after each switch. Without it a
  tick breaks the promise of one running process exactly if it switches to another slot
  (`TickKeepsOneRunningExactly`), and from `proc_init` two slots are running from the second tick
  on (`BareTicksExactly`).

What the code does against its own comments or headers, each stated as a lemma:

- A process that exits while it is current is ready, or running, again after the next tick (`ExitThenTick`),
  and a blocked one does not wait for `proc_unblock` (`BlockThenTick`).
- `scheduler_tick` does not use the context that `context_switch` returns; `RunRestoresSaved` is about
  the value returned.
- Scheduling is not round-robin: timer ticks alternate between the two lowest runnable slots
  (`TicksAlternate`), so that all runnable slots are served exactly if there are no more than two
  (`AllServedExactly`). Slot 1 is dispatched before any process exists (`TicksFromInit`); only created
  processes are dispatched exactly if the second lowest runnable slot is one of them
  (`OnlyCreatedServedExactly`).
- The first `proc_create` and the first table-creating `vmm_map` after boot can fail with memory
  left, because the first frame has address 0 (`FirstCreateFails`, `FirstTableFails`).
- The heap region reaches over the frame bitmap (`HeapMeetsBitmap`) and over the stack area
  (`HeapMeetsStack`).
- A character with the top bit set loses its colour (`CellAttribute`).
- Backspace is echoed as three more cells, since the console writes `'\b'` like any character
  (`EchoIsText`).
- Releasing one shift key ends shift while the other is down (`OneShiftUp`); the flag agrees with the
  keys at all times exactly if that never happens (`ShiftIsRightExactly`).
- `proc_unblock` does not give back the state before `proc_block`: the process was running and
  comes back ready (`UnblockAfterBlock`).
- If the frame of the page directory, of a static table or of the bitmap can be handed out, and
  `pmm_init` does nothing against it, mapping one page can map or unmap others or overwrite the bitmap
  (`UnreservedTablesLeak`, `DirectoryOverwritten`, `FrameOverwritten`, `BitmapBecomesTable`).

## Model

| member | source | states |
|---|---|---|
| HeapDriver.KernelHeap.constructor | src/kernel/mm/heap.c:32-38 | heap_init: the heap is empty, whatever the bytes of the region are, and that state is a valid tiling |
| HeapDriver.KernelHeap.Search | src/kernel/mm/heap.c:54-73 | the loop of kmalloc ends, and finds the first free block that is large enough, a bad magic word, or the end; on a tiled heap it looks at no more than one header per 32 bytes in use |
| HeapDriver.KernelHeap.Malloc | src/kernel/mm/heap.c:43-88 | kmalloc on bytes: the new header bytes, `used` and the pointer are those of `Kmalloc`; nothing else changes; a tiled heap stays tiled |
| HeapDriver.KernelHeap.Free | src/kernel/mm/heap.c:93-107 | kfree on bytes for any readable pointer: NULL, a bad magic word and success, with only the used byte of the header changed; a tiled heap stays tiled when the pointer is NULL or a payload |
| Heap.WalkIsFirstFit | src/kernel/mm/heap.c:54-73 | on a tiled heap the byte-level search is first fit over the list of blocks |
| HeapBlocks.ParseIsTiling | src/kernel/mm/heap.c:20-24 | the heap bytes determine the list of blocks: a tiling is what the headers parse to |
| HeapBlocks.KmallocRefines | src/kernel/mm/heap.c:43-88 | kmalloc on bytes is first-fit allocation on blocks, keeps the tiling and writes only the chosen header |
| HeapBlocks.KfreeRefines | src/kernel/mm/heap.c:93-107 | kfree of a payload pointer succeeds, marks exactly that block free, and writes only its header |
| HeapBlocks.KmallocExact | src/kernel/mm/heap.c:54-87 | NULL exactly when no free block fits and a new one has no room; otherwise the lowest-addressed fitting block, or a new block at the end |
| HeapBlocks.GuardIsExact | src/kernel/mm/heap.c:76-78 | the out-of-memory test is right for all fill levels and requests if and only if twice the heap size plus a header is below 2^32 |
| HeapBlocks.KmallocRefuses | src/kernel/mm/heap.c:44-46 | a request of 0 bytes, or of more than the heap size, returns NULL and changes nothing |
| HeapBlocks.KmallocAppends | src/kernel/mm/heap.c:48-87 | the nine bytes of a new header: EF BE AD DE, the size (the request plus 12, at least 32) and 1; the pointer is 12 bytes on; no other byte changes |
| HeapBlocks.KmallocReuses | src/kernel/mm/heap.c:65-69 | reuse sets the used byte of the first free block that is large enough, and changes nothing else |
| HeapBlocks.DamageStopsKmalloc | src/kernel/mm/heap.c:61-63 | behind a header without the magic word nothing is found: kmalloc returns NULL and changes nothing, unless an earlier block serves |
| HeapBlocks.KfreeExact | src/kernel/mm/heap.c:93-107 | for every pointer: NULL is accepted, without EF BE AD DE twelve bytes before it -1 is returned, and otherwise the byte four before it becomes 0 and no other changes |
| HeapRuns.RunInvariant | src/kernel/mm/heap.c:43-107 | in every run of kmalloc, kfree of any pointer ever returned and client writes anywhere in live blocks, [0, used) is an exact tiling of blocks of at least 32 bytes, live exactly where a client holds a pointer, each with room for the request |
| HeapRuns.RunNeverCorrupt | src/kernel/mm/heap.c:61-63 | in every run the corruption branch of kmalloc is not taken |
| HeapRuns.RunOnBlocks | src/kernel/mm/heap.c:43-107 | every run of the heap bytes is a run of allocation and release on the parsed list of blocks |
| HeapRuns.RunSeparation | src/kernel/mm/heap.c:54-107 | in every run what is held lies in the used heap, apart from every header and from all else that is held |
| HeapRuns.RunKeepsPayload | src/kernel/mm/heap.c:54-107 | data integrity: a held byte keeps its value until its holder writes it or frees it, whatever the other operations |
| HeapRuns.RunStaleFree | src/kernel/mm/heap.c:93-107 | in every run, kfree of a pointer that is not held any more changes nothing |
| HeapSpace.RunKeepsBoundaries | src/kernel/mm/heap.c:54-87 | over a run block boundaries and sizes never change and `used` never shrinks |
| HeapSpace.RunCountBound | src/kernel/mm/heap.c:65-87 | in every run the blocks of any one size are no more than the peak number of pointers held at once |
| HeapSpace.RunSpaceBound | src/kernel/mm/heap.c:65-87 | in every run `used` is at most that peak times the sum of the distinct block sizes ever created |
| Pmm.FrameAllocator.constructor | src/kernel/mm/pmm.c:24-43 | pmm_init: all bits clear, all frames free, the counter 0 |
| Pmm.FrameAllocator.SetBit | src/kernel/mm/pmm.c:48-52 | exactly the given bit becomes 1 |
| Pmm.FrameAllocator.ClearBit | src/kernel/mm/pmm.c:57-61 | exactly the given bit becomes 0 |
| Pmm.FrameAllocator.FindFreePage | src/kernel/mm/pmm.c:75-82 | the least free frame, or the sentinel when there is none |
| Pmm.FrameAllocator.Allocate | src/kernel/mm/pmm.c:87-97 | pmm_alloc acts on the bitmap as `Alloc` on the set of frames; counter and padding bits stay right |
| Pmm.FrameAllocator.Release | src/kernel/mm/pmm.c:102-120 | pmm_free acts on the bitmap as `Free` on the set of frames; counter and padding bits stay right |
| Pmm.FrameAllocator.FreePages | src/kernel/mm/pmm.c:125-141 | the free count is the total less the allocated set, and is 0 exactly when no frame is free |
| Pmm.CountBound | src/kernel/mm/pmm.c:125-141 | at most `total` frames are allocated, and that many exactly when none is free |
| PmmRuns.AllocExact | src/kernel/mm/pmm.c:75-97 | the least free frame is granted, its bytes end below 2^32, it is never the sentinel, and 0 means no frame or frame 0 |
| PmmRuns.FreeExact | src/kernel/mm/pmm.c:102-120 | pmm_free succeeds exactly on the address of an allocated frame, and then frees that frame only |
| PmmRuns.FreeUndoesAlloc | src/kernel/mm/pmm.c:87-120 | freeing what was just allocated restores the set of frames |
| PmmRuns.RunNoReissue | src/kernel/mm/pmm.c:87-120 | in every run no frame is handed out twice without a successful free of it in between |
| Pmm.BitPlaces | src/kernel/mm/pmm.c:48-70 | frame 8q + r has bit r of byte q of the bitmap |
| VmmDriver.PageTables.constructor | src/kernel/mm/vmm.c:27-60 | vmm_init fills the directory and the four static tables, and writes no other word of memory |
| VmmDriver.PageTables.MapPage | src/kernel/mm/vmm.c:78-115 | vmm_map on the words of memory, the directory among them, and the frame bitmap is `Map`; a well-formed directory stays well formed |
| VmmDriver.PageTables.UnmapPage | src/kernel/mm/vmm.c:120-140 | vmm_unmap is `Unmap`; a well-formed directory stays well formed |
| VmmDriver.PageTables.Translate | src/kernel/mm/vmm.c:145-160 | vmm_get_phys is `GetPhys`, the base of the entry that translates the address, or 0 |
| VmmRuns.BootTranslation | src/kernel/mm/vmm.c:43-60 | after vmm_init the first 16 MB and their counterparts 3 GB higher translate to their own page base, every other address to 0 |
| VmmRuns.BootWords | src/kernel/mm/vmm.c:43-60 | the numbers vmm_init writes: 4096k + 3 in table word k, the address of its table plus 3 in directory entries 0 to 3 and 768 to 771, 0 in all others |
| VmmRuns.BootDirectoryOk | src/kernel/mm/vmm.c:18-60 | the boot directory meets the invariant if and only if the frames of the directory and of the static tables are out of the allocator's reach |
| VmmBoot.BootIsSafeExactly | src/kernel/mm/vmm.c:18-140 | after vmm_init, in all runs of mapping, unmapping, frame taking and stores of other code the translation is that of the flat map and paging writes no word of the frame bitmap, if and only if the frames of directory, static tables and bitmap are reserved |
| VmmBoot.PagingIsSafeExactly | src/kernel/mm/vmm.c:18-140 | the same for any set of frames outside directory and static tables in place of the bitmap's |
| VmmBoot.BitmapAddress | src/kernel/mm/pmm.c:31-32 | after vmm_init the addresses at which the bitmap is placed lead to the frames from 512 on |
| VmmBoot.BitmapBecomesTable | src/kernel/mm/vmm.c:96-109 | with 128 MB and everything below 2 MB taken, the next table is the bitmap, and the page's entry overwrites one of its words |
| VmmBoot.FrameOverwritten | src/kernel/mm/vmm.c:96-109 | any other frame handed out as a table is overwritten with the page's entry, and its old words translate other pages |
| VmmBoot.CallKeepsFrame | src/kernel/mm/vmm.c:78-140 | vmm_map and vmm_unmap write no reserved frame that is neither the directory nor a table, and it does not become one |
| VmmBoot.BootReaches | src/kernel/mm/vmm.c:43-60 | after vmm_init the virtual address equal to a frame's physical address leads to that frame exactly below 16 MB |
| VmmBoot.NewTableReached | src/kernel/mm/vmm.c:96-109 | vmm_map's store into the first table it creates arrives there exactly if the frame is below 16 MB |
| VmmBoot.RunReaches | src/kernel/mm/vmm.c:103-109 | in every run such an address leads to its frame exactly if the flat map says so |
| VmmRuns.UnreservedTablesLeak | src/kernel/mm/vmm.c:96-109 | if a static table's frame is handed out, mapping one page also maps a neighbouring page |
| VmmRuns.DirectoryOverwritten | src/kernel/mm/vmm.c:96-109 | if the directory's frame is handed out, the entry of the mapped page is written into the directory itself |
| VmmBoot.FirstTableFails | src/kernel/mm/vmm.c:96-103 | while frame 0 is free a call that needs a table fails although there are frames, and the same call then succeeds exactly if another frame is left |
| VmmRuns.MapFailsExactly | src/kernel/mm/vmm.c:78-103 | vmm_map fails exactly on unaligned arguments, or when a table is needed and pmm_alloc returns 0 |
| VmmRuns.MapEffect | src/kernel/mm/vmm.c:78-115 | a successful vmm_map changes the translation of its page and its alias only; a failing one changes none; the invariant is kept |
| VmmRuns.MapWrites | src/kernel/mm/vmm.c:93-109 | the words of a successful vmm_map: the page's entry is the address with the flags, a newly linked directory entry is the new table's address plus 3, and a present one is kept |
| VmmRuns.EntryValue | src/kernel/mm/vmm.c:109 | an entry's low twelve bits are those of the flags, and flags below 4096 are added to the address |
| VmmRuns.AddressParts | src/kernel/mm/vmm.c:84-86 | an address is 10 bits of directory index, 10 of table index and 12 of offset |
| VmmRuns.SamePageExact | src/kernel/mm/vmm.c:84-86 | two addresses are on the same page, or on the two aliases of one, exactly if they have the same page number once 3 GB is taken off the high alias |
| VmmRuns.FramingExact | src/kernel/mm/vmm.c:96-109 | without the zeroed-frames assumption: other pages are left alone if and only if the new table's frame holds no present entry elsewhere |
| VmmRuns.MapThenGetPhys | src/kernel/mm/vmm.c:109-159 | when vmm_get_phys returns the mapped address, for all flags: if and only if PRESENT is set and the flags add no upper address bit (without PRESENT, only for address 0) |
| VmmRuns.UnmapEffect | src/kernel/mm/vmm.c:120-140 | vmm_unmap succeeds exactly on a mapped page, and unmaps that page and its alias only |
| VmmRuns.UnmapWrites | src/kernel/mm/vmm.c:134 | a successful vmm_unmap sets the page's entry to 0 and changes no other word |
| VmmRuns.UnmapUndoesMap | src/kernel/mm/vmm.c:78-140 | mapping an unmapped page and unmapping it restores every translation |
| VmmRuns.RunRefinesFlat | src/kernel/mm/vmm.c:27-160 | in every run of mapping, unmapping, frame taking and stores of other code outside directory and tables, the tables translate like one flat map from page numbers to entries, updated by the successful calls |
| VmmRuns.RunKeepsAliases | src/kernel/mm/vmm.c:49-60 | in every run an address below 16 MB and the one 3 GB higher translate alike |
| VmmRuns.RunKeepsDirectory | src/kernel/mm/vmm.c:93-106 | in every run a present directory entry is never rewritten |
| VmmRuns.RunTablesApart | src/kernel/mm/vmm.c:93-106 | in every run two present directory entries have the same table exactly if they are aliases |
| VmmRuns.RunTableBound | src/kernel/mm/vmm.c:96-103 | in every run the tables created on demand are allocated frames, as many as there are present directory entries outside the boot mapping, at most 1016 |
| Vga.Console.ClearScreen | src/kernel/drivers/vga.c:110-121 | all 2000 cells blank and the cursor at the origin |
| Vga.Console.ScrollUp | src/kernel/drivers/vga.c:126-143 | in place: every row moves up by one and the last row is blank |
| Vga.Console.PutChar | src/kernel/drivers/vga.c:47-73 | vga_putchar is `Put`; every index stays in the buffer and the cursor in 80x25 |
| Vga.Console.PutString | src/kernel/drivers/vga.c:78-85 | vga_putstr puts the characters before the NUL, in order; a null pointer does nothing |
| Vga.Console.MoveCursor | src/kernel/drivers/vga.c:90-97 | vga_move_cursor is `Move` |
| Vga.MoveIsNearest | src/kernel/drivers/vga.c:90-97 | the cursor goes to the position on the screen nearest to the one asked for, and no cell changes |
| Vga.ClearIsBlank | src/kernel/drivers/vga.c:110-121 | after vga_clear all 80 * 25 cells hold character 32 with attribute 15, and the cursor is at the top left |
| Vga.ScrollIsShift | src/kernel/drivers/vga.c:126-143 | after vga_scroll_up each cell shows what was 80 cells on, and those of the last row hold character 32 with attribute 15 |
| Vga.PutExact | src/kernel/drivers/vga.c:47-73 | for every character: 10 moves to the next row, any other is stored at 80y + x and moves on by one cell, after column 79 to the next row, and below row 24 the screen scrolls |
| Vga.CellAttribute | src/kernel/drivers/vga.c:58 | the character byte is always right; the attribute is the colour if and only if the character is plain or the colour is 0xFF |
| Scrollback.RunRefines | src/kernel/drivers/vga.c:47-143 | after any operations the buffer is the last 25 rows of an unbounded history in which scrolling only appends a blank row |
| Scrollback.RunKeepsAbove | src/kernel/drivers/vga.c:126-143 | rows that have left the screen never change again |
| Scrollback.TypedText | src/kernel/drivers/vga.c:47-85 | text printed on a cleared screen: each printable character is at its own position of the history, nothing is overwritten, all else is blank |
| Kbd.Keyboard.constructor | src/kernel/drivers/kbd.c:86-90 | an empty ring with no modifier held |
| Kbd.Keyboard.Interrupt | src/kernel/drivers/kbd.c:41-77 | the handler is `Handle`; a typed character, the one that `KeyCode` reads off the key, is accepted unless 255 are waiting, and accepted characters are delivered ones followed by waiting ones |
| Kbd.DecodeIsKeyCode | src/kernel/drivers/kbd.c:28-38 | table and shift rule together give what is on the keys, written as characters: letters in lower case or with shift in upper case, all else without regard to shift, nothing for the other keys |
| Kbd.Keyboard.GetChar | src/kernel/drivers/kbd.c:104-113 | kbd_getchar is `Get`; it delivers the character it returns, and 0 is never a character |
| Kbd.Keyboard.CharAvailable | src/kernel/drivers/kbd.c:118-120 | true exactly when a character is waiting |
| Kbd.HandleIsEnqueue | src/kernel/drivers/kbd.c:61-76 | an interrupt appends its character to the queue unless 255 are waiting, and does nothing else to it |
| Kbd.GetIsDequeue | src/kernel/drivers/kbd.c:104-113 | kbd_getchar takes the oldest waiting character, or reports 0 when there is none |
| KbdRuns.RunIsFifo | src/kernel/drivers/kbd.c:61-113 | with interrupts between the steps of kbd_getchar, delivered characters are a prefix of the accepted ones, at most 255 behind |
| KbdRuns.RunDropsExactly | src/kernel/drivers/kbd.c:71-75 | in every interleaving a typed key is dropped exactly when 255 are pending |
| KbdRuns.RunZeroMeansEmpty | src/kernel/drivers/kbd.c:104-113 | in every interleaving 0 is returned exactly when nothing was pending at the test; a delivered character is the oldest pending one and not 0 |
| KbdRuns.RunLosesNothing | src/kernel/drivers/kbd.c:61-113 | if the reader keeps up, every typed character is accepted in order |
| KbdRuns.StepsAreGet | src/kernel/drivers/kbd.c:104-113 | the three steps without an interrupt in between are kbd_getchar |
| KbdRuns.InterruptedGet | src/kernel/drivers/kbd.c:61-113 | kbd_getchar is atomic: with interrupts between its test, its read and its advance it does what the uninterrupted call does after all of them |
| KbdRuns.ModifiersExact | src/kernel/drivers/kbd.c:46-59 | shift (and control) is held exactly when some press of its keys has not been followed by a release of any of them |
| KbdRuns.OneShiftUp | src/kernel/drivers/kbd.c:46-59 | both shift keys down and the left one up: shift is off although the right key is still down |
| KbdRuns.ShiftIsRightExactly | src/kernel/drivers/kbd.c:46-59 | after every prefix of a key history the flag says that a shift key is down, if and only if neither shift key is released while the other one is down |
| Shell.ReadLine | src/kernel/shell/shell.c:137-167 | returns a line exactly if the characters that its polls yield begin with one, at the poll that completes it; it takes exactly the keys of that line, leaves their edited text NUL-terminated in the buffer, and echoes it on the console |
| ShellRuns.KeyRoles | src/kernel/shell/shell.c:148-162 | what each key does to text and screen: 10 and 13 end the line, 8 erases and prints 8, 32, 8 if there is something to erase, all else is added and printed |
| ShellRuns.FullLine | src/kernel/shell/shell.c:140-166 | plain keys without Enter are a whole line exactly if they fill the buffer but for the NUL |
| ShellRuns.EnteredLine | src/kernel/shell/shell.c:148-151 | plain keys with Enter are a whole line exactly if they leave more room, and its text is the keys |
| Shell.ParseArgs | src/kernel/shell/shell.c:99-132 | succeeds exactly when the line has at most 15 runs of non-blank characters; argc and argv are the number and the starts of the runs, up to 16; all buffer indices in range |
| Shell.StartsExact | src/kernel/shell/shell.c:105-122 | the starts are exactly the positions of a non-blank after a blank or at the beginning |
| Shell.StartsIncrease | src/kernel/shell/shell.c:105-122 | the starts come in increasing order |
| ShellRuns.EraseCancels | src/kernel/shell/shell.c:152-162 | a key followed by backspace leaves no trace in the line |
| ShellRuns.EraseOnEmpty | src/kernel/shell/shell.c:152-158 | backspace on an empty line does nothing |
| ShellRuns.PlainKeysKept | src/kernel/shell/shell.c:159-162 | keys other than backspace are kept in order |
| ShellRuns.EchoIsText | src/kernel/shell/shell.c:152-162 | what is echoed is the edited text if and only if nothing was erased; each erasure prints three cells and removes none |
| ShellRuns.SplitUnique | src/kernel/shell/shell.c:137-167 | successive calls split the key stream in exactly one way, nothing lost or repeated |
| ShellRuns.SplitExists | src/kernel/shell/shell.c:137-167 | every key stream splits into whole lines and a line still being typed |
| ShellRuns.Run | src/kernel/shell/shell.c:42-57 | the loop of shell_run splits the characters that all polls yield into lines and a rest; it passes on the edited texts of those lines, without the empty ones, in order |
| ShellRuns.Command | src/kernel/shell/shell.c:46-55 | one round of shell_run shows the prompt in green, the echo in white and a newline, and returns the edited text of the line |
| ShellRuns.PromptText | src/kernel/shell/shell.c:46 | the prompt is nimbu@localhost:~$ and a space |
| Process.ProcessManager.Initialize | src/kernel/proc/process.c:27-42 | proc_init is `Init`: it sets number, state and context of every slot and makes slot 0 current and running |
| ProcessRuns.InitExact | src/kernel/proc/process.c:27-42 | after proc_init every slot has number 0, no context and is ready, slot 0 is running and current, and 0 is the parent of what is created next |
| Process.ProcessManager.CreateNew | src/kernel/proc/process.c:47-91 | proc_create on table, frame bitmap and heap bytes is `CreateProcess`, on every failing path too, and leaves all three fit for the next call |
| Process.ProcessManager.ExitProcess | src/kernel/proc/process.c:96-109 | proc_exit is `Exit` |
| Process.ProcessManager.BlockCurrent | src/kernel/proc/process.c:131-140 | proc_block is `BlockOn` |
| Process.ProcessManager.UnblockProcess | src/kernel/proc/process.c:145-158 | proc_unblock is `Unblock` |
| ProcessRuns.ContextReads | src/kernel/proc/process.c:78-86 | the saved context reads back entry point, selectors, stack top and flags |
| ProcessRuns.TwoFramesExact | src/kernel/proc/process.c:60-66 | two pmm_alloc calls in a row both give an address other than 0 exactly if frame 0 is taken and two frames are free |
| ProcessRuns.CreateFailsExactly | src/kernel/proc/process.c:47-91 | proc_create succeeds exactly if a slot and two frames are left and frame 0 is taken, and then returns the next number |
| ProcessRuns.CreatedExactly | src/kernel/proc/process.c:47-91 | what a successful proc_create leaves, in numbers: the slot's fields with the priority given, the second of the two least free frames as page directory, nine context words with the entry point given, and everything else as before |
| ProcessRuns.FailedExactly | src/kernel/proc/process.c:47-66 | what a failing proc_create leaves: nothing changed when the table is full; otherwise a claimed slot with its old stack, page directory and context, the old heap, and the granted frames taken |
| ProcessRuns.RunOfCreations | src/kernel/proc/process.c:47-91 | in every run of creations the used heap is 88 bytes per process and at most 22440; numbers match slots; stacks, contexts and distinct non-zero page directories are in place |
| ProcessRuns.RunNumbers | src/kernel/proc/process.c:47-91 | in every run each creation's outcome is decided by counter and frames alone, and each success returns the counter and advances it by one |
| ProcessRuns.RunNumbersIncrease | src/kernel/proc/process.c:47-91 | in every run a later successful creation returns a larger number than an earlier one, so no number is used twice |
| ProcessRuns.RunKeepsCreated | src/kernel/proc/process.c:47-91 | in every run of creations the process of each successful call keeps the priority, entry point, page directory, stack and context of that call |
| ProcessRuns.RunKeepsAreasApart | src/kernel/proc/process.c:68-72 | in every run on the kernel's layout the used heap, the bitmap and all stacks are pairwise disjoint |
| ProcessRuns.HeapMeetsBitmap | src/kernel/kernel.c:108 | the heap in use meets the bitmap if and only if more than 1 MB of it is used |
| ProcessRuns.HeapMeetsStack | src/kernel/kernel.c:108 | the heap region covers the stacks, and the heap in use meets the stack of a slot if and only if it reaches past the start of that stack |
| ProcessRuns.FirstCreateFails | src/kernel/proc/process.c:60-66 | on a fresh frame allocator the first creation fails and loses two frames, the second succeeds |
| Scheduler.Timer.ContextSwitch | src/kernel/proc/scheduler.c:78-109 | context_switch picks the first ready slot or slot 0, saves the context, sets both states, and returns the context to restore |
| SchedulerRuns.SwitchExact | src/kernel/proc/scheduler.c:94-103 | slot by slot: the process switched from gets the interrupted context, the one switched to runs with a slice of 10 and one more unit of run time, and nothing else changes |
| SchedulerRuns.PickExact | src/kernel/proc/scheduler.c:82-92 | the slot picked is the lowest ready one, or slot 0 if none is ready |
| SchedulerRuns.TickExact | src/kernel/proc/scheduler.c:60-69 | a tick switches exactly if the slice is at its end or the process has stopped running, and otherwise only charges the slice |
| SchedulerRuns.TableCallsExact | src/kernel/proc/process.c:96-158 | when proc_exit, proc_block and proc_unblock fail, and the one slot that each of them changes otherwise |
| SchedulerRuns.RunKeepsContext | src/kernel/proc/scheduler.c:97-98 | under any events the context saved when a process was last switched from stays in its slot, unless a process is created there |
| SchedulerRuns.RunRestoresSaved | src/kernel/proc/scheduler.c:97-108 | the next switch to that process returns exactly that context |
| Scheduler.Timer.TimerTick | src/kernel/proc/scheduler.c:52-73 | scheduler_tick is `Tick`, and counts |
| SchedulerRuns.RunKeepsOneRunning | src/kernel/proc/scheduler.c:52-109 | from proc_init on, under any events, at most one process is running, the current one, and exactly one after each switch; nobody else is ever blocked |
| SchedulerRuns.RunKeepsGone | src/kernel/proc/scheduler.c:82-103 | a created process that is a zombie and not current stays a zombie and is never dispatched |
| SchedulerRuns.ExitThenTick | src/kernel/proc/scheduler.c:95-99 | after proc_exit and a tick the process is a zombie if and only if it was not the current one; the current one is ready, or current and running |
| SchedulerRuns.BlockThenTick | src/kernel/proc/scheduler.c:95-99 | a process blocked by proc_block is ready or running again after the next tick |
| SchedulerRuns.UnblockAfterBlock | src/kernel/proc/process.c:131-158 | after proc_block, proc_unblock succeeds once and leaves the process ready; the table is as before exactly if the process was ready and waiting for nothing |
| SchedulerRuns.TicksAlternate | src/kernel/proc/scheduler.c:52-109 | under ticks alone switches come every ten ticks after the first slice and alternate strictly between the two lowest runnable slots |
| SchedulerRuns.ServedExactly | src/kernel/proc/scheduler.c:52-109 | under ticks alone exactly the two lowest runnable slots are ever dispatched |
| SchedulerRuns.AllServedExactly | src/kernel/proc/scheduler.c:7 | every runnable slot is dispatched in the end if and only if no more than two slots are runnable |
| SchedulerRuns.OnlyCreatedServedExactly | src/kernel/proc/scheduler.c:78-109 | only created processes are ever dispatched if and only if the second lowest runnable slot is one of them |
| SchedulerRuns.TicksAccount | src/kernel/proc/scheduler.c:101-103 | the run times of all slots grow by exactly the number of switches |
| SchedulerRuns.TicksFromInit | src/kernel/proc/scheduler.c:52-109 | from proc_init, n ticks make ceil(n/10) switches, the run times add up to that, and the dispatches are 1, 0, 1, 0, ... |
| SchedulerRuns.TickKeepsOneRunningExactly | src/kernel/proc/scheduler.c:52-109 | without the dispatch step a tick keeps at most one slot running, the current one, exactly if no switch is due or the switch picks the current slot |
| SchedulerRuns.BareTicksExactly | src/kernel/proc/scheduler.c:52-109 | from proc_init without the dispatch step, n ticks leave at most one slot running if and only if n is below 2 |
| SchedulerRuns.NoDispatchTwoRunning | src/kernel/proc/scheduler.c:105-106 | without the dispatch step two slots are running after the second tick |

## Left out

- Shell.ReadLine: the keyboard interrupts during the call, and with them the number of polls, are a finite parameter; when the polls yield no whole line the call is reported as still waiting, where the C loop would go on polling.
- Shell.ReadLine: a buffer length of 0, for which the loop bound wraps to 2^32 - 1, is excluded.
- Shell.ParseArgs: command lines of 256 or more characters are excluded; the shell reads at most 255. The text that the call copies to its local buffer is never read and is not specified.
- HeapDriver.KernelHeap.Malloc: on heap bytes that are not a tiling the call is specified as long as the walk stays inside the region and advances, including the corruption branch; heaps whose walk leaves the region or stands still are excluded.
- HeapDriver.KernelHeap.Free: pointers outside the heap region are excluded, since the C code would read foreign memory.
- VmmDriver.PageTables.MapPage: the test for a directory index of 1024 or more can never hold for a 32-bit address and is not modelled.
- VmmRuns.RunRefinesFlat: runs contain vmm_map, vmm_unmap, frames taken by others and their stores; giving frames back with pmm_free is not part of these runs, because a returned frame is not cleared.
- VmmRuns.RunRefinesFlat: stores of other code into the directory, into page tables or into free frames are not part of the runs, and neither are faults of the kernel's own accesses to page tables or bitmap at virtual addresses that are not mapped.
- VmmBoot.BootIsSafeExactly: frames of the bitmap are words of memory that the allocator may store into at any time; that their bits are those of the set of frames is proved for the bitmap as an array of its own (`Pmm.FrameAllocator`).
- Process.ProcessManager.CreateNew: the ten words of the saved context that the C code does not set keep their old bytes, and none is specified.
- SchedulerRuns.TicksFromInit: the run-time counters are 32-bit in the model; the sum is stated for fewer than 2^32 ticks.
- SchedulerRuns.RunKeepsGone: it excludes processes that exit while current, for which ExitThenTick shows that the claim is false.
- heap_get_stats, vga_get_cursor, proc_get, scheduler_get_ticks, scheduler_get_stats: getters that would only add easy members.
- Hardware access: port I/O, control registers, TLB invalidation, the hardware cursor and interrupt acknowledgement have no state in the model; the scancode is a parameter.
- gdt.c, idt.c, serial.c, boot.asm and linker.ld: table filling, device polling and build plumbing.
- ShellRuns.Run: shell_execute is left out; the command lines passed to it are collected instead. What the commands print is not specified.
- Kernel start-up messages and shell commands: user interface.
- proc_halt_all: it never returns.
- ready_queue, running_process, wait_queue and user_stack: declared but never used for a decision.
- Splitting and merging of heap blocks, krealloc, round-robin rotation and per-process page directories: described in the guides but not in the code.
