# ConiferOS in Dafny

A model of the memory, process and file core of ConiferOS, a small 32-bit x86 kernel, with
proofs about it. Physical memory is one array of 2^32 bytes (`Memory.Ram`). The block
heap's entry table, the page directories and tables, the process stack, the argument
block, ELF headers and the path parser's nodes all lie in it as bytes, so that statements
about one of them have to hold while the others are written. Each operation is a method
with the source's loops and branches, proved equal to a function from memory to memory;
the theorems are about those functions. 32-bit wrap-around, signed division, C's bit
operations and every return code are written out.

| file | content |
|---|---|
| `Bits`, `Memory` | machine words, bit operations, memory |
| `HeapTable`, `Heap`, `HeapSafety`, `HeapFrames` | the block heap: its table, its operations, safety over runs, what an allocation leaves alone |
| `Paging`, `PageTables` | two-level page tables as a flat map, and the identity tables of a new address space |
| `UserHeap`, `UserHeapExact` | `malloc` and `free` of user processes: heap, page tables and slots together, and exactly which requests keep them together |
| `Loader`, `ElfFormat`, `Arguments`, `ProcessLoad` | ELF and flat executables, argument passing, loading a process |
| `ProcessRuns` | a loaded process and its `malloc` and `free` calls, over whole runs |
| `Processes` | any number of processes on one heap, over every interleaving of loads and calls |
| `TaskCopy` | strings and pointers copied out of a task's address space |
| `DiskStreams`, `Fat16` | byte streams over sectors, cluster-chain reads |
| `Paths`, `PathParser`, `PathOps` | the path grammar, the parsed list in the heap, the operations |
| `Scheduling`, `TaskList` | the round robin and the doubly linked list behind it |
| `Keyboard`, `Gdt` | the keyboard ring, segment descriptors |

## Where the code does less than it says

The code is kept as written. Where a promise fails, the lemmas named here show failing
inputs and state, for all inputs, exactly when the promise is met.

- The first-fit scan returns the start of the free run at the end of the table even when
  it is too short (`src/memory/heap/heap.c:108-111`): `HeapSafety.OverrunExample`,
  `HeapSafety.MallocOverruns`, `HeapSafety.MallocExact`.
- `kfree(NULL)` walks the bytes before the table (`src/memory/heap/heap.c:127-130`):
  `HeapSafety.NullFreeExample`, `HeapSafety.NullFreeExact`.
- A user's `malloc` can break the invariant of heap, slots and page tables in three ways, all
  with the last block free. A request for no block is `malloc(0)` or, because rounding up
  wraps, any size above 0xFFFFF000; the system call takes an `int`
  (`src/isr80h/heap.c:8`), so `malloc(-1)` is one of them, and its `memset` clears the
  heap's own table. A request that does not fit, such as 101 MiB, is served from the end of
  the heap: the table ends in an unfinished allocation, and pages behind the heap are cleared
  and mapped writable. One so large that its end passes 4 GiB is given back, but the clearing
  wraps to address 0 and may have reached the heap's table. `UserHeapExact.UserMallocExact`
  is the exact condition for every size, `UserHeapExact.RunExact` for whole runs; the parts
  are `UserHeap.HugeSizeWipes`, `UserHeap.HugeSizeExact`, `UserHeap.ZeroSizeExact`,
  `UserHeap.NoBlocksExact`, `UserHeapExact.UnfitExample`, `UserHeapExact.UnfitExact`.
- A user's `free` puts read-only identity entries where `malloc` found something else. The
  page of the arguments, 0x2000, is a page of the kernel heap, so a `malloc` of more than
  16 MiB takes the arguments out of the process's sight, which the comment at
  `src/task/process.c:454-456` wonders about: `ProcessRuns.BigMallocLosesArguments`,
  `ProcessRuns.BigMallocNotUndone`, `ProcessRuns.ArgumentsOverRuns`,
  `UserHeap.FreeUndoesMalloc`.
- `execve` lets through arguments of 32 characters (`src/isr80h/process.c:36`), which leave
  no room for their NUL in a cell of 32, and more than the five arguments the block has room
  for (`src/isr80h/process.c:18`). Pointer 5 is then stored over argument 0, pointer 13 over
  argument 1, and so on: `Arguments.ArgsLoaded`, `ProcessLoad.ArgumentsArrive`.
- An ELF segment whose address and file position differ modulo the page size is mapped to
  the wrong bytes: `Loader.UnalignedSegmentExample`, `Loader.SegmentLoaded`,
  `ProcessLoad.SegmentArrives`.
- The comment at `src/fs/fat/fat16.c:385-387` promises the FAT entry; lines 399-402 return
  the status of the read: `Fat16.GetFatEntry`, `Fat16.LookupAsWritten`,
  `Fat16.StoredFileExact`.
- A read that starts inside a cluster and leaves it continues behind the cluster
  (`src/fs/fat/fat16.c:456-460`): `Fat16.UnsupportedMisreads`, `Fat16.ReadExact`,
  `Fat16.TableExact`.
- A path such as `0:/` is rejected only after its root was allocated:
  `PathParser.RejectedExample`, `PathParser.RejectedExact`.
- Removing an inner task leaves its successor's back pointer behind
  (`src/task/task.c:65`): `Scheduling.InnerRemovalExample`, `Scheduling.RemoveKeepsLinks`,
  `Scheduling.SuccessorStranded`, `TaskList.TaskQueue.Remove`.
- Typing into a full keyboard ring replaces the oldest character: `Keyboard.PushFull`,
  `Keyboard.FifoExact`. Backspace clears the tail index and no character:
  `Keyboard.BackspaceExample`, `Keyboard.BackspaceExact`.

Two comments simply differ from the code. `src/task/task.c:107-108` puts argc at [esp] and
argv at [esp+4], while `src/task/process.c:279-284` stores them the other way round, and
`ProcessLoad.ArgumentsArrive` states what is stored. `src/fs/pparser.c:8-11` says that a
valid path gives 0, and the code gives 1.

## Model

| member | source | states |
|---|---|---|
| HeapTable.EntryBits | src/memory/heap/heap.c:70-73 | the arithmetic tests for free and HAS_NEXT entries are the C mask expressions |
| HeapTable.AllocsDisjoint | src/memory/heap/heap.c:138-158 | in a well-formed table two live allocations share no block |
| HeapTable.Owner | src/memory/heap/heap.c:138-158 | every taken block belongs to a live allocation |
| HeapTable.TableFromAllocs | src/memory/heap/heap.c:138-173 | two well-formed tables of one size with the same live allocations are equal byte for byte |
| HeapTable.MarkedAllocs | src/memory/heap/heap.c:138-158 | marking a free window adds exactly one live allocation of that length and keeps the table well-formed |
| HeapTable.ClearedAllocs | src/memory/heap/heap.c:160-173 | clearing a live allocation removes exactly it and keeps the table well-formed |
| HeapTable.ClearMarked | src/memory/heap/heap.c:138-173 | clearing what was just marked restores the table byte for byte |
| HeapTable.TakenIsSumOfLengths | src/memory/heap/heap.c:138-173 | the number of taken blocks is the sum of the lengths of the live allocations |
| HeapTable.ScanStep | src/memory/heap/heap.c:89-106 | one turn of the scan keeps "nothing found yet, and this many free blocks just behind" or has found the least window |
| HeapTable.ScanTail | src/memory/heap/heap.c:108-111 | a scan that ends without a find returns the trailing free run, or -ENOMEM when there is none |
| Heap.BlocksRoundsUp | src/memory/heap/heap.c:59-67 | a size is rounded up to whole blocks, except that sizes above 0xFFFFF000 wrap to no block |
| Heap.HeapCreate | src/memory/heap/heap.c:33-53 | accepted exactly for aligned bounds whose distance matches the table, and then every entry is free |
| Heap.KernelHeapInit | src/memory/heap/kernel_heap.c:10-30 | the kernel's constants are accepted and give a heap whose table and data are apart |
| Heap.GetStartBlockIndex | src/memory/heap/heap.c:79-112 | the least start of enough free blocks if there is one; otherwise the start of the trailing free run, or -ENOMEM |
| Heap.MarkBlocksTaken | src/memory/heap/heap.c:138-158 | the entries become one allocation of the requested length, wherever they lie |
| Heap.MarkBlocksFree | src/memory/heap/heap.c:160-173 | entries are cleared from any index, even a negative one, up to the first without HAS_NEXT |
| Heap.HeapMallocBlocks | src/memory/heap/heap.c:175-191 | memory and address are those of the first-fit description |
| Heap.HeapMalloc | src/memory/heap/heap.c:193-198 | the request is for the size rounded up to blocks |
| Heap.HeapFree | src/memory/heap/heap.c:200-204 | the walk starts at the signed, truncated block index of the pointer |
| Heap.HeapZalloc | src/memory/heap/kernel_heap.c:42-50 | what malloc gives, with the requested bytes zero; NULL stays NULL |
| HeapSafety.MallocFits | src/memory/heap/heap.c:175-191 | when a window exists the result is the address of the least one and one live allocation is added |
| HeapSafety.MallocRefuses | src/memory/heap/heap.c:175-191 | with no window and a taken last block the answer is NULL and nothing changes |
| HeapSafety.MallocOverruns | src/memory/heap/heap.c:108-111 | every other request breaks the promise |
| HeapSafety.MallocExact | src/memory/heap/heap.c:175-191 | the outcome is NULL unchanged, or one new allocation of the size asked for, if and only if a window exists or the last block is taken |
| HeapSafety.OverrunExample | src/memory/heap/heap.c:79-112 | a two-block table with the last block free answers 1 to a request for two blocks |
| HeapSafety.FreedChain | src/memory/heap/heap.c:160-173 | the walk over an allocation clears its blocks and no other byte of memory |
| HeapSafety.FreeLive | src/memory/heap/heap.c:200-204 | freeing a live allocation removes exactly it and writes only the table |
| HeapSafety.NullFreeExact | src/memory/heap/heap.c:127-130 | kfree(NULL) leaves the table alone if and only if some byte in front of it stops the walk or block 0 is free |
| HeapSafety.NullFreeExample | src/memory/heap/heap.c:160-173 | a memory in which kfree(NULL) frees the kernel heap's taken block 0 |
| HeapSafety.FreeUndoesMalloc | src/memory/heap/heap.c:175-204 | malloc then free restores the whole memory |
| HeapSafety.FreesCommute | src/memory/heap/heap.c:200-204 | the frees of two live allocations commute |
| HeapSafety.RunOwns | src/memory/heap/heap.c:175-204 | over every allowed run the blocks handed out and not freed are exactly the live allocations, with their sizes |
| HeapSafety.OwnedInside | src/memory/heap/heap.c:175-204 | a block held by a caller is a page-aligned range inside the heap, at least as large as requested |
| HeapSafety.OwnedDisjoint | src/memory/heap/heap.c:175-204 | two blocks held by callers are disjoint ranges |
| HeapSafety.RunSafe | src/memory/heap/heap.c:33-204 | from heap creation, over every allowed run: well-formed table, every block held inside the heap, every two of them disjoint, taken blocks conserved, and the table restored once all is freed |
| HeapFrames.CreatedAllFree | src/memory/heap/heap.c:49-52 | a heap just created is well-formed and all its blocks are free |
| HeapFrames.ZallocFits | src/memory/heap/kernel_heap.c:42-50 | an allocation takes exactly its blocks from the free ones, zeroes them and keeps every byte in use |
| HeapFrames.ZallocOne | src/memory/heap/kernel_heap.c:42-50 | one block is found whenever any block is free |
| HeapFrames.ZallocNone | src/memory/heap/kernel_heap.c:42-50 | with no block free every request gives NULL and changes nothing |
| Paging.WritableBit | src/memory/paging/paging.c:104-123 | an entry is writable exactly when the C mask of its read/write bit is non-zero |
| Paging.AccessBits | src/memory/paging/paging.c:17-41 | an entry is present, and open to user code, exactly when the C masks of those bits are non-zero |
| Paging.SetPteIsUpdate | src/memory/paging/paging.c:72-90 | with distinct tables, setting an entry is an update of the flat map at one page |
| Paging.SetPteKeepsDir | src/memory/paging/paging.c:72-90 | it keeps the directory and the distinctness of the tables and writes only table bytes |
| Paging.TablesFrame | src/memory/paging/paging.c:156-168 | memories that agree on the directory and the tables give the same flat map |
| Paging.MapPagesPte | src/memory/paging/paging.c:104-123 | mapping a range changes exactly the requested pages, to consecutive frames with the given flags, also across the end of the address space |
| Paging.MapPagesKeeps | src/memory/paging/paging.c:104-123 | it keeps the tables distinct and writes only table bytes |
| Paging.GetIndexes | src/memory/paging/paging.c:59-70 | -EINVARG for an unaligned address, otherwise the two indexes of its page |
| Paging.PagingSet | src/memory/paging/paging.c:72-90 | -EINVARG and no change for an unaligned address, otherwise the entry of its page is set |
| Paging.PagingGetPte | src/memory/paging/paging.c:156-168 | the flat map's entry, or the error code as an unsigned word |
| Paging.PagingMapRange | src/memory/paging/paging.c:104-123 | -EINVARG and no change for an unaligned address, otherwise the pages are mapped in turn |
| Paging.PagingCreateMapping | src/memory/paging/paging.c:125-136 | refused for unaligned or reversed bounds, otherwise the pages between them are mapped |
| Paging.MappingExact | src/memory/paging/paging.c:125-136 | refused with -EINVARG and no change if and only if a bound is not page-aligned or the end lies before the start; otherwise every address virt + k leads to phys + k with the flags given, up to the end, and every other address keeps its entry |
| Paging.PagingGetPhysicalAddress | src/memory/paging/paging.c:170-175 | the translation of any address, aligned or not |
| PageTables.TablesBuilt | src/memory/paging/paging.c:23-36 | after n turns the first n tables are distinct blocks that were free, and map their pages to themselves |
| PageTables.InitIdentity | src/memory/paging/paging.c:17-41 | with 1026 free blocks every 32-bit address translates to itself with the given flags, the tables are blocks that were free, and every byte in use is kept |
| PageTables.IdentityTranslates | src/memory/paging/paging.c:170-175 | in identity tables every address translates to itself |
| PageTables.InitOpen | src/memory/paging/paging.c:35 | for tables that user code may read, every directory entry is present, user and writable, so that the tables decide |
| PageTables.FillTable | src/memory/paging/paging.c:29-31 | the entries of one table name consecutive pages, with the 32-bit wrap of the offset |
| PageTables.DirEntry | src/memory/paging/paging.c:35 | the directory entry is the table's address with the flags and the read/write bit |
| PageTables.InitEntry | src/memory/paging/paging.c:23-36 | one turn: a table allocated, filled and named in the directory |
| PageTables.InitPageTables | src/memory/paging/paging.c:17-41 | memory and descriptor are those InitIdentity speaks about |
| UserHeap.JointInitially | src/task/task.c:82-97 | the tables of a new task, with no slot taken, meet the joint invariant of heap, page tables and slots |
| UserHeap.MallocKeeps | src/task/process.c:433-469 | a malloc that fits, or that a heap with its last block taken refuses, keeps it: each occupied slot is one live allocation of exactly its size in blocks whose pages map to themselves writable, and the slots differ |
| UserHeap.FreeKeeps | src/task/process.c:484-511 | free of any pointer, known or not, keeps it |
| UserHeap.RunKeepsJoint | src/task/process.c:422-511 | so does every run of allowed calls |
| UserHeap.SlotsDisjoint | src/task/process.c:433-469 | under it the pages of two occupied slots are disjoint |
| UserHeap.MallocWithoutSlot | src/task/process.c:445-449 | with no free slot the answer is 0 and the heap's table, the slots and the page tables are as before |
| UserHeap.MallocRefused | src/task/process.c:439-443 | a refused request answers 0 and keeps heap, slots and tables when kfree(NULL) is harmless |
| UserHeap.RefusedExact | src/task/process.c:439-443 | a refused request keeps the heap's table if and only if some byte in front of it stops the walk of kfree(NULL) or block 0 is free |
| UserHeap.FreeNullExact | src/task/process.c:484-511 | free(NULL) while a slot is empty keeps it on the same condition |
| UserHeap.FreeUndoesMalloc | src/task/process.c:433-511 | malloc then free restores the heap's table and the slots, and the page tables if and only if the pages of the first window long enough were mapped to themselves before with exactly the flags present and user |
| UserHeap.FreeWithdraws | src/task/process.c:495-502 | every page of an occupied slot can be written, and none of them after free |
| UserHeap.ZeroSizeExact | src/task/process.c:433-469 | malloc(0) keeps the invariant if and only if the last block is taken or no slot is empty |
| UserHeap.HugeSizeWipes | src/memory/heap/kernel_heap.c:42-50 | a size above 0xFFFFF000, with the last block free, gets a pointer and every byte of the heap's table is cleared |
| UserHeap.HugeSizeExact | src/task/process.c:433-469 | malloc of such a size keeps the invariant if and only if the last block is taken |
| UserHeap.NoBlocksExact | src/task/process.c:433-469 | both together: the exact condition for every size that is rounded to no block |
| UserHeapExact.GivenUpTable | src/memory/heap/heap.c:108-204 | when a request that does not fit is given back, the table is as before, except for the entries at its start that the wrapped clearing reached |
| UserHeapExact.UnfitExact | src/task/process.c:433-469 | a request that does not fit while the last block is free keeps the invariant if and only if no slot is empty or its end wraps, and the cleared entries are those of no page table, no slot and no allocation that goes on |
| UserHeapExact.NothingLost | src/memory/heap/kernel_heap.c:42-50 | where the clearing does not wrap into the table, the second half of that condition holds |
| UserHeapExact.UserMallocExact | src/task/process.c:433-469 | malloc of any size keeps the invariant if and only if it fits or the last block is taken, or it asks for nothing and no slot is empty, or the condition of UnfitExact holds |
| UserHeapExact.UnfitExample | src/task/process.c:433-469 | with an empty slot and the kernel heap's last block free, malloc of 101 MiB answers a pointer, breaks the invariant and maps the page behind the heap writable |
| UserHeapExact.RunExact | src/task/process.c:422-511 | over a run of any calls the invariant holds throughout if and only if every malloc meets that condition when it is made |
| UserHeap.Process.FindSlot | src/task/process.c:473-482 | the first slot with the pointer, or none |
| UserHeap.Process.MallocSyscall | src/task/process.c:433-469 | memory, slots and answer are those of the description, on every path |
| UserHeap.Process.FreeSyscall | src/task/process.c:484-511 | memory and slots are those of the description, on every path |
| Loader.MapElfIsMapFirst | src/task/process.c:118-142 | the loop, which reads the headers while it writes page tables, maps exactly the segments found at the start, up to the first whose range wraps |
| Loader.MapFirstPte | src/task/process.c:118-142 | a page gets the entry of the last segment that covers it, and any other page keeps its own |
| Loader.SegmentLoaded | src/task/process.c:118-142 | a segment that no later one covers is seen in full at its address if and only if address and file position agree modulo the page size, and every entry on the way then grants reading to user code, and writing exactly when PF_W is set |
| Loader.UnalignedSegmentExample | src/task/process.c:127-139 | a segment 0x34 bytes into its file page, mapped at 0x400000, is not seen |
| Loader.LoadPhdr | src/loader/formats/elf_file.c:86-99 | the header fields that HeadersRead speaks about, from memory |
| ElfFormat.HeadersRead | src/loader/formats/elf.h:79-112 | in a memory that holds an ELF header and program headers written out in the order of their fields, the loader finds exactly the segments written, each with its offset, address, memory size and flags |
| Loader.SegmentProt | src/task/process.c:130-133 | present and user, and writable exactly for PF_W |
| Loader.MapTaskElf | src/task/process.c:118-142 | memory and return code are those of the description |
| Loader.MapTaskBinary | src/task/process.c:107-113 | a flat binary is mapped writable at the load address |
| Arguments.ArgsLoaded | src/task/process.c:287-297 | of up to 127 strings of up to 32 characters every pointer is right; string j is overwritten by pointer 5 + 8j if there is one, and any other string is in place if and only if it has at most 31 characters, is the last, or is followed by an empty one; no other page changes |
| Arguments.Strcpy | src/string/string.c:58-68 | the characters and the NUL, and no other byte |
| Arguments.Strncpy | src/string/string.c:109-121 | the first n characters of the string, or all of it, and the NUL even after n of them |
| Arguments.LoadArgBlock | src/task/process.c:287-297 | the block ArgsLoaded speaks about, from the kernel's argv |
| Arguments.PutArgvArgcInStack | src/task/process.c:273-285 | argc in the last word of the stack and the argv address in the word below it |
| ProcessLoad.TaskMemoryMapped | src/task/process.c:148-178 | mapping succeeds, and the stack's four pages and the argument page lead to their blocks, whatever executable avoids them |
| ProcessLoad.ArgumentsArrive | src/task/process.c:302-373 | for up to 127 arguments of up to 32 characters loading succeeds, and through the new tables the task finds argv at esp, argc at esp+4 and every string at its pointer if and only if each lasts as in ArgsLoaded; in place of an overwritten one it reads the bytes of the pointer |
| ProcessLoad.ImageLoaded | src/task/process.c:302-373 | heap and tables are in order after loading, every byte and every allocation that was in use is as it was, the new pages were free, and stack and arguments are in place and in view |
| ProcessLoad.SegmentArrives | src/task/process.c:302-373 | after loading, a segment that no later one covers is seen if and only if address and file position agree modulo the page size; the processor then lets the task read every byte of it, and write it if and only if PF_W is set, and it holds the bytes the file had |
| ProcessLoad.BinaryArrives | src/task/process.c:302-373 | after loading, every byte of a flat binary is seen at the load address and is the task's to write |
| ProcessLoad.EntryElsewhere | src/task/task.c:82-97 | every page but those of stack, arguments and executable maps to itself with exactly the flags present and user |
| ProcessLoad.TaskMemoryAccess | src/task/process.c:148-178 | the task can write every byte of its stack and its argument page, and elsewhere outside its executable it can read every byte and write none |
| ProcessLoad.NoStack | src/task/process.c:323-327 | with no four adjacent free blocks and the last block taken, loading answers -ENOMEM and changes nothing |
| ProcessLoad.NoBlock | src/task/process.c:339-345 | with just four free blocks, adjacent, the argument block finds none: -ENOMEM, and everything in use is as it was |
| ProcessLoad.KernelBoot | src/kernel.c:115-131 | the kernel's own tables map every address to itself and take no block beyond the first 1026 of those free at the top of its heap |
| ProcessLoad.FirstProcess | src/task/process.c:302-373 | the same for every executable on a kernel heap whose blocks from some number on are free, with 1032 of them left |
| ProcessLoad.MapMemory | src/task/process.c:148-178 | stack, argument block and executable in that order, stopping at the first error |
| ProcessLoad.MakeTask | src/task/task.c:82-97 | the task's block and its read-only identity tables |
| ProcessLoad.PrepareArgs | src/task/process.c:323-346 | stack and argument block, with the two NULL paths |
| ProcessLoad.LoadForSlot | src/task/process.c:302-373 | memory, return code and directory are those of ArgumentsArrive's description |
| ProcessRuns.LoadedJoint | src/task/process.c:302-373 | a process just loaded, with no slot taken, meets the joint invariant from which its calls start |
| ProcessRuns.TouchesReturned | src/task/process.c:433-469 | the pages of that window are the pages of the pointer returned |
| ProcessRuns.EntryExact | src/task/process.c:422-511 | over every run of malloc and free, a page that was mapped elsewhere keeps its entry if and only if no malloc, when made, finds an empty slot and its first long enough window of free blocks covering that page, and maps to itself ever after |
| ProcessRuns.RunWrites | src/task/process.c:422-511 | over every run the process can write every page of its slots, and any other page only if it could at the start |
| ProcessRuns.WritesOnlyOwn | src/task/process.c:302-511 | from loading on, over every run: outside stack, arguments and executable a byte can be written if and only if it lies in a block that malloc gave and free has not taken back |
| ProcessRuns.FreshUndone | src/task/process.c:433-511 | in a process just loaded, malloc then free restores heap table, slots and page tables, when the block's pages are none of stack, arguments and executable |
| ProcessRuns.GuardedPage | src/task/process.c:422-511 | over every run, a heap page that belongs to no slot and no table keeps its bytes and its entry and is never handed out |
| ProcessRuns.ArgumentsOverRuns | src/task/process.c:302-511 | from loading on, over every run, the way to the arguments stays if and only if no malloc takes page 0x2000 or 0x3FE in that sense, and until then the task sees its arguments as at the start |
| ProcessRuns.LoadReach | src/task/process.c:302-373 | loading takes no block beyond the first 1032 of those free at the top of the heap |
| ProcessRuns.BootLoadable | src/kernel.c:115-140 | after the kernel has built its tables on a heap with enough free blocks, the two statements that follow apply to any flat binary |
| ProcessRuns.BigMallocLosesArguments | src/task/process.c:433-469 | a process loaded below block 4096 of the kernel heap loses the way to its arguments with any malloc of 4097 blocks or more that fits above it: page 0x2000 is then the block's, and argv[0] reads NULL when it was cleared |
| ProcessRuns.BigMallocNotUndone | src/task/process.c:433-511 | and freeing that block does not restore its page tables |
| Processes.ForeignSlotsDisjoint | src/task/process.c:433-469 | the slots of two processes have no page in common |
| Processes.ForeignSlotGuarded | src/task/process.c:433-511 | a page of one process's slots is guarded against the calls of the other |
| Processes.CallKeepsApart | src/task/process.c:433-511 | a call of one process keeps the other's invariant and every entry of its page tables, and the two stay apart |
| Processes.LoadKeepsTogether | src/task/process.c:302-373 | loading one more process keeps the invariant of every process there is, and the new one is apart from each |
| Processes.RunKeepsTogether | src/task/process.c:302-511 | over every run of loads and calls, in any order, every process meets the joint invariant and every two are apart |
| Processes.SysEntryExact | src/task/process.c:422-511 | over such a run a page mapped elsewhere keeps its entry if and only if no malloc of that process itself takes it |
| Processes.ReservedPage | src/task/process.c:302-511 | over such a run a heap page in use that is no slot's and no table's keeps its bytes and is given to no process |
| Processes.ArgumentsAmongOthers | src/task/process.c:302-511 | a process loaded among others keeps the way to its arguments over such a run if and only if no malloc of its own takes page 0x2000 or 0x3FE, and until then sees its arguments as at the start |
| TaskCopy.WhileBorrowed | src/task/task.c:207-210 | while an entry is borrowed only that page's entry differs |
| TaskCopy.GivenBack | src/task/task.c:224-227 | once it is put back every entry is what it was |
| TaskCopy.AfterCopy | src/task/task.c:207-230 | after the copy the tables are as before and the kernel's buffer holds the string |
| TaskCopy.StrncpyInTask | src/task/task.c:215-221 | whatever address is read from, a string of at most max characters is written to the borrowed page and no other byte; it is the task's own if the source is apart from that page and the tables |
| TaskCopy.CopyStringFromUserTask | src/task/task.c:187-231 | for every user address: -EINVARG from a page on, -ENOMEM without a block, both without a change; otherwise every entry is as before and the buffer holds a string, the task's own if that lies in memory in use |
| TaskCopy.CopyPointers | src/isr80h/process.c:80-82 | the tables stay for every user address; each pointer arrives in its place and nothing else changes if the kernel's array is reached and apart from the task's |
| TaskCopy.CopyArgvPointers | src/isr80h/process.c:59-93 | return codes for any argc and any user address; the tables end as they were, aligned array or not; the pointers arrive if they can, -EIO or not |
| DiskStreams.ReadsJoin | src/disk/disk_stream.c:24-53 | a read of a bytes followed by one of b bytes leaves the position, the buffer and the status that one read of a+b leaves |
| DiskStreams.DiskStream.ReadBlock | src/disk/disk.c:75-81 | the 512 bytes of a sector, or -EIO for a disk that is not the attached one |
| DiskStreams.DiskStream.CopyOut | src/disk/disk_stream.c:36-39 | a part of the sector stored in the output and nothing else |
| DiskStreams.DiskStream.Read | src/disk/disk_stream.c:24-53 | the output is the disk's bytes from the position on and the position moves past them, for any total; a failed read changes nothing |
| Fat16.Volume.ClustersTile | src/fs/fat/fat16.c:359-367 | the clusters from number 2 on tile the data region from its first byte: byte x of the region is byte x modulo the cluster size of its cluster |
| Fat16.Volume.StartSectorPos | src/fs/fat/fat16.c:359-367 | the sector computed for a cluster is where those bytes lie |
| Fat16.ChainWalked | src/fs/fat/fat16.c:406-435 | the walk over a stored chain of clusters finds them one by one, and fails behind the last |
| Fat16.TableStored | src/fs/fat/fat16.c:388-403 | the stored lookup reads back a table written as little-endian 16-bit entries behind the reserved sectors |
| Fat16.GetFatEntry | src/fs/fat/fat16.c:388-403 | on a readable disk the answer is 0, so it is the stored entry if and only if that is 0 |
| Fat16.GetClusterInChain | src/fs/fat/fat16.c:406-435 | the k-th lookup from the start, or -EIO exactly when one of the first k is free, reserved, bad or the end |
| Fat16.ReadInternal | src/fs/fat/fat16.c:442-479 | the output is what the piecewise description reads; -EIO exactly when that fails |
| Fat16.SupportedReadsFile | src/fs/fat/fat16.c:442-479 | a successful read from a cluster boundary, or inside one cluster, is that part of the clusters laid end to end |
| Fat16.SuccessExact | src/fs/fat/fat16.c:442-479 | a read of n bytes succeeds if and only if the chain reaches the cluster of its start, and one more for every whole cluster before the last byte |
| Fat16.SupportedSucceeds | src/fs/fat/fat16.c:442-479 | on such a range: if and only if the chain reaches the cluster of the last byte |
| Fat16.UnsupportedMisreads | src/fs/fat/fat16.c:456-460 | for every other range some disk and table are misread |
| Fat16.ReadExact | src/fs/fat/fat16.c:442-479 | the read is right on every disk and table if and only if the range is of the first kind |
| Fat16.TableExact | src/fs/fat/fat16.c:442-479 | for one given table: right on every disk if and only if the chain is long enough and the range starts at a cluster boundary or each cluster it leaves is followed in the chain by the next cluster number |
| Fat16.LookupAsWritten | src/fs/fat/fat16.c:388-479 | with the lookup as written a read succeeds if and only if it starts in the first cluster and is at most a cluster long, and a supported one then gives the bytes of the file that the disk's own table describes |
| Fat16.StoredFileExact | src/fs/fat/fat16.c:388-479 | so the first n bytes of the stored file are read if and only if they fit one cluster |
| Paths.PartsAreComponents | src/fs/pparser.c:49-71 | the parts of a path are its slash-separated components up to the first empty one |
| Paths.FormExact | src/fs/pparser.c:12-16 | the form is valid if and only if the string starts with a drive from 0 to 9 as it is printed, colon and slash included |
| Paths.RoundTrip | src/fs/pparser.c:12-135 | every digit drive and list of proper parts that prints within 128 characters parses back |
| Paths.ParseExact | src/fs/pparser.c:12-135 | a string is accepted as a path if and only if it has at most 128 characters and is that path as printed, followed by nothing or by a slash that no part follows |
| Paths.RejectedForm | src/fs/pparser.c:12-135 | so it is rejected if and only if it is longer or no path prints into it |
| Paths.PartsProper | src/fs/pparser.c:49-71 | the parts are non-empty, hold no slash and fit the buffer |
| PathParser.PartAdded | src/fs/pparser.c:76-90 | one more part: two blocks that were free, and the list longer by one |
| PathParser.ParseBuilds | src/fs/pparser.c:108-135 | parsing an accepted path leaves in memory, in blocks that were free, the list of its parts with its drive |
| PathParser.PathFreed | src/fs/pparser.c:92-103 | freeing a parsed path restores the heap's table |
| PathParser.ParseThenFree | src/fs/pparser.c:92-135 | parse then free leaves the heap's table byte for byte as it was |
| PathParser.RejectedExact | src/fs/pparser.c:108-126 | a rejected path gives NULL, and loses no block if and only if it is refused before its root is made |
| PathParser.RejectedExample | src/fs/pparser.c:108-126 | the path 0:/ is rejected and takes a block |
| PathOps.GetPathPart | src/fs/pparser.c:49-71 | a buffer with the characters up to the slash, the buffer given back and NULL where there are none, and where the path goes on; every write stays in the buffer |
| PathOps.MakeNode | src/fs/pparser.c:82-84 | a block with the string's address and no successor |
| PathOps.ParsePathPart | src/fs/pparser.c:76-90 | a node with the part, linked behind the last one, or NULL |
| PathOps.PathValidForm | src/fs/pparser.c:12-16 | true exactly for the strings FormExact speaks about |
| PathOps.Strlen | src/string/string.c:11-20 | the length of the string |
| PathOps.Strnlen | src/string/string.c:22-31 | the length, or the bound if that is less |
| PathOps.CreateRoot | src/fs/pparser.c:35-41 | a root with the drive and no part |
| PathOps.ParseRest | src/fs/pparser.c:127-131 | the loop ends at the first empty part with all parts linked |
| PathOps.PparserParse | src/fs/pparser.c:108-135 | the memory and root of ParseBuilds, and NULL exactly for the paths the grammar rejects |
| PathOps.PparserFree | src/fs/pparser.c:92-103 | the loop visits every node of the list, and the heap's table ends as it was before parsing |
| Scheduling.RemovedOrder | src/task/task.c:51-71 | removal keeps every other task, in order |
| Scheduling.RemovedTurn | src/task/task.c:68-69 | removing the current task gives the turn to the one that would have had the next; removing another leaves the turn where it is |
| Scheduling.RemoveKeepsLinks | src/task/task.c:51-71 | removal keeps all back pointers right if and only if the task is at an end of the list |
| Scheduling.InnerRemovalExample | src/task/task.c:64-66 | the inner of three tasks leaves and the third task's back pointer is wrong |
| Scheduling.StaysLinked | src/task/task.c:42-158 | over every run whose removals are at the ends of the list, the list stays doubly linked |
| Scheduling.SuccessorStranded | src/task/task.c:64-66 | after a removal the successor can itself be removed properly if and only if the first was at an end |
| Scheduling.RunsAt | src/task/task.c:42-48 | within a round a task runs at the step it waits for and at no other |
| Scheduling.RoundRobin | src/task/task.c:42-48 | n steps give each of n tasks exactly one turn and come back to the start |
| Scheduling.NoStarvation | src/task/task.c:42-158 | over every run of additions, removals, steps and chosen tasks, a task that stays runs within its wait, one step per added task, and a round for each chosen task and each current task that leaves |
| TaskList.TaskQueue.GetNext | src/task/task.c:42-48 | the cyclic successor of the current task |
| TaskList.TaskQueue.Exec | src/task/task.c:156-158 | the given task becomes current and the list stays |
| TaskList.TaskQueue.Schedule | src/isr80h/process.c:98 | one step of the round robin |
| TaskList.TaskQueue.Append | src/task/task.c:115-140 | the task is last, linked both ways, and current if it is the only one |
| TaskList.TaskQueue.Unlink | src/task/task.c:54-66 | the forward chain, head and tail are those of the list without the task if and only if the task's back pointer was right |
| TaskList.TaskQueue.Remove | src/task/task.c:51-71 | in addition current moves to the cyclic successor of a current task that leaves, and the back pointers are those of the description |
| Keyboard.PushExact | src/keyboard/keyboard.c:46-58 | a character is queued if and only if fewer than 1024 are waiting |
| Keyboard.PushNothing | src/keyboard/keyboard.c:52-53 | a zero is dropped |
| Keyboard.PopTakesOldest | src/keyboard/keyboard.c:88-106 | a pop answers the oldest character, and 0 if and only if there is none |
| Keyboard.PushFull | src/keyboard/keyboard.c:36-58 | in a full ring the newest character replaces the oldest and comes out first |
| Keyboard.FirstInFirstOut | src/keyboard/keyboard.c:36-106 | over every run that never types into a full ring, what was waiting and typed is what came out, in order, followed by what is waiting |
| Keyboard.FifoExact | src/keyboard/keyboard.c:36-106 | a run has that property if and only if it never types into a full ring |
| Keyboard.BackspaceExact | src/keyboard/keyboard.c:68-86 | backspace drops the last character if and only if there was none and the ring had not moved |
| Keyboard.BackspaceExample | src/keyboard/keyboard.c:82-86 | a character typed into an empty ring is still popped after a backspace |
| Keyboard.KeyboardBuffer.Type | src/keyboard/keyboard.c:52-57 | a non-zero character is stored at the tail, which moves on; zero changes nothing |
| Keyboard.KeyboardBuffer.Take | src/keyboard/keyboard.c:96-105 | the character at the head, which is cleared and moves on; 0 and no change on an empty place |
| Keyboard.KeyboardBuffer.Erase | src/keyboard/keyboard.c:82-86 | the tail is 0 afterwards and no character is touched |
| Keyboard.KeyboardPush | src/keyboard/keyboard.c:46-58 | zero characters and a missing process change nothing; otherwise the ring takes the character |
| Keyboard.KeyboardPop | src/keyboard/keyboard.c:88-106 | 0 without a current task; otherwise what the ring gives |
| Gdt.RoundTrip | src/gdt/gdt.c:32-62 | decoding the eight bytes as the processor does gives back base, limit and type if and only if the limit fits 20 bits or ends on the last byte of a page; the default size bit is always 1, the long and available bits 0 |
| Gdt.Injective | src/gdt/gdt.c:32-62 | different descriptors have different bytes |
| Gdt.FirstTwelveOne | src/gdt/gdt.c:12-17 | true exactly when the low twelve bits are all ones |
| Gdt.LimitUnits | src/gdt/gdt.c:42-48 | bytes while 20 bits suffice, else pages, and the flags that say so |
| Gdt.LimitBytes | src/gdt/gdt.c:50-53 | the C shifts and masks give the low bytes of the limit, and its high nibble under the flags |
| Gdt.BaseBytes | src/gdt/gdt.c:55-59 | the C shifts and masks give the four bytes of the base |
| Gdt.EncodeSegment | src/gdt/gdt.c:32-62 | refused exactly when precision would be lost; otherwise the eight bytes and no others |
| Gdt.SegmentsToRaw | src/gdt/gdt.c:64-69 | succeeds if and only if every entry can be encoded; then every entry decodes to its descriptor, as a 32-bit segment, and bytes behind the table are untouched |

## Left out

- `free_page_tables`: its expression multiplies where a mask is meant, so it frees no table.
- `elf_process_pheaders` and the address ranges it fills in: the mapping code does not use them.
- The contents of ELF memory beyond `p_filesz`: pages are mapped there, nothing clears them.
- `load_process_stack_memory_with_args`: replaced by the argument block and not called.
- FAT directory lookup, names in 8.3 form, the file system layer, file descriptors, system-call dispatch, the shell, user libraries, the boot loader and all assembly.
- Hardware: ports, the disk controller, the screen, the interrupt controller. A disk is a function from positions to bytes that is attached or not; `paging_switch` is the choice of a directory in a translation.
- `struct process` and `struct task` as bytes: their blocks are allocated, their fields are kept beside memory. The executable is in memory already when `ProcessLoad` starts.
- Blocks lost on failure paths: `process_load_for_slot` after an error, and `tmp` in `copy_string_from_user_task` on success.
- NULL from `kzalloc` where the code does not look at it: `init_page_tables`, `pparser_get_path_part` and `parse_path_part` would write at address 0. The theorems ask for enough free blocks there.
- PageTables.InitIdentity: says nothing about a heap with fewer than 1026 free blocks, where tables would be built at address 0.
- ProcessLoad.LoadForSlot: asks for room for the task and its tables once stack and arguments are found, and does not include the clean-up after an error.
- ProcessLoad.PrepareArgs: the same room.
- ProcessLoad.MakeTask: asks for 1027 free blocks; with fewer the code goes on with a task that could not be made.
- ProcessRuns.ArgumentsOverRuns: a process's own writes between its calls are not part of a run.
- ProcessRuns.WritesOnlyOwn: the run holds the process's own calls; that calls and loads of other processes keep its entries is `Processes.CallKeepsApart` and `Processes.SysEntryExact`. Which pages of the executable can be written is `ProcessLoad.SegmentArrives` and `ProcessLoad.BinaryArrives`.
- Processes.RunKeepsTogether: a run has loads and calls only. Writes of the processes, the kernel's other allocations and the end of a process are not part of it, and the limit of twelve processes is not needed.
- Processes.ArgumentsAmongOthers: the same.
- UserHeapExact.UserMallocExact: asks for a harmless kfree(NULL), and for room between the heap's table and its data for the marks of the request, which the kernel's heap has for every size.
- TaskCopy.CopyStringFromUserTask: asks for a positive `max`, as all callers pass, and for a kernel buffer in use; which string arrives is said only for a source in memory in use.
- TaskCopy.CopyArgvPointers: asks for a word-aligned kernel array apart from the tables; `argc * 32` is taken without the overflow of `int`.
- TaskCopy.CopyPointers: the same.
- Arguments.Strcpy: asks for ranges that do not overlap.
- Arguments.Strncpy: asks for ranges that do not overlap.
- Arguments.LoadArgBlock: asks for at most 127 arguments of at most 32 characters, the number and the length that `execve` copies; the strings of more would leave the block's page.
- ProcessLoad.ArgumentsArrive: the same, and enough free blocks.
- DiskStreams.DiskStream.Read: positions are unbounded; overflow of `int` beyond 2 GiB is not described.
- Fat16.ReadInternal: takes the lookup as a function; `Fat16.LookupAsWritten` puts the literal lookup in.
- TaskList.TaskQueue.GetNext: asks for a task in the list, since the code follows a null pointer otherwise.
- TaskList.TaskQueue.Append: starts from a zeroed task; the failure path of `task_new`, which unlinks a task that was never linked, is not described.
- The message that the keyboard prints when its ring overflows.
- Gdt.EncodeSegment: a panic is a negative answer.
