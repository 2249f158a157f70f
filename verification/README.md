# A verified model of the bgox kernel

bgox is a small cooperative kernel for x86-64, written in C, with a Forth boot script. This project
models its core in Dafny and proves what that core is for:

- **Memory** (`sys/mem.c`, `sys/paging.c`): the page descriptor table with its countdowns, first-fit
  allocation, and four-level page tables stored in the frames themselves. Every run of allocations
  and releases conserves pages. Every run of mappings, process creations and forks keeps an
  alias-free page tree in which slot 511 is the kernel's in every process.
  User code that stores bytes wherever the page tables let it never reaches a page table.
- **Programs** (`sys/elf64.c`): `elf_run_bin` builds a root, maps a stack, loads segments through the
  new root's own translations, and stores a node for each segment. Which frame each page, each page
  table and each node gets is computed from the headers and the first free frame. With at most one
  loadable segment every byte reads back from the file or as zero. With more, the nodes behind the
  first lie over pages of the program, or over its page tables; exactly when which, and what every
  byte then reads as, is proved for any number of segments.
- **Processes** (`sys/process.c`, `sys/idt.c`, `sys/main.c`): the ready list, `schedule`, `fork`,
  `exec`, `exit`, `kill`, `waitpid`, `sleep` and the timer, as a step relation. One invariant holds
  in every run from boot; sleepers sleep for exactly as long as they asked; waiters are held and
  released, and whom a `wait` settles on is said in terms of who forked whom and who slept with `&`;
  every runnable task gets its turn, also while tasks come and go; and every switch saves the stack
  pointer in the task that leaves, so a task always resumes with its own.
- **Files and numbers** (`sys/tarfs.c`, `sys/utils.c`, `sys/kprintf.c`, `sys/strings.c`): the ustar
  index, opening files, reading them line by line, and the conversions between numbers and text.
- **Boot script** (`rootfs/boot/support.4th`): the buffered line reader.

## How it is built

Each part has two layers. Functions on values say what the code computes; lemmas prove the theorems
about them. Classes and methods (`Machine`, `Mapper`, `MultiMapper`, `ElfLoader`, `ReadyList`,
`Tarfs`, `TarReader`, `LineReader`, `Numbers`, `CStrings`) follow the C and Forth code in place, over
arrays, linked nodes and fields, and each is proved equal to its function or to a property stated
outright.

The central device of the memory part is an *owner map*: it names, for every table frame, the one
entry that leads to it. With it the tree invariant `TreeInv` is local, and that no two paths share a
table (`PageTree.PathUnique`) is a theorem instead of an assumption. `Grows` says what every
operation keeps: owned frames, used pages, present root entries, and the contents of all data.

`Option` and its `None` stand for running out of memory, for a page fault, and for a list walk that
leaves the list.

Six things the code promises, or seems to, do not hold, and have their exact conditions here:

- A child of the boot task that kills pid 0 takes the head off the list. That is the only unsafe
  call (`LifecycleRuns.KillSafeIff`, `LifecycleRuns.KillBootLeavesList`).
- Boot reserves as many pages for the descriptor table as the table fills completely. The table is safe from
  all later allocations exactly when it starts at a page and fills whole pages, or no page is left
  (`BootMemory.TableSafeIff`). Behind a table that starts at a page, the end marker is in the first page
  handed out (`BootMemory.EndMarkerHandedOut`).
- The index stores the size of a member as it is exactly up to 295600127 bytes (`Ustar.SizeStoredIff`).
- Line reading gets stuck on NUL bytes (`TarReader.CallIsExactIff`, `TarReader.ReadsToTheEndIff`), and
  the one cursor is shared by all files: left behind the end of a shorter file it makes calls read on
  behind that file (`TarReader.WholeFileIff`).
- The loader places each further node of its list a whole page too far. With two segments the second
  node lies over the second segment (`ProgramDamage.TwoSegmentsIntactIff`); with more, all nodes lie over
  pages exactly when they fit (`ProgramBytes.NodesClearIff`), and then all bytes are in place exactly when
  the file holds the nodes' own fields there (`ProgramBytes.ProgramIntactIff`). A node that does not fit
  may be stored over a page table (`ProgramDamage.TableOverwritten`). `ProgramDamage.ExampleCorrupted` and
  `ProgramDamage.ExamplePageLost` are calls that succeed and leave a wrong byte, and an unmapped page. All
  this speaks of memory from which no page was ever released. That is all there is: nothing calls
  `free`, and every operation keeps the free pages at the end of memory (`Suffix.RunKeepsSuffix`).
- Mapping a range over several leaf tables replaces the last table as a whole: no other page changes
  exactly when no store leaves the tables and the pages behind the request have nothing to lose there
  (`MultiTable.RequestMetIff`).

Three smaller deviations are modelled as they are. `itoap` returns 2 for zero instead of 1.
`delete_from_task_list` does not count the removed task down, so `task_count` is the length of the
list plus the tasks it removed. Sleeping for zero seconds means sleeping for 2^64 countdowns.

## Model

| member | source | states |
|---|---|---|
| Allocator.PagesFor | sys/mem.c:187-191 | the number of pages is the least that holds the size, also for exact multiples, where a comment in the source doubts it |
| Allocator.FirstFit | sys/mem.c:195-214 | the search finds the lowest descriptor that is free and large enough, and fails only if there is none |
| Allocator.CountIsHonest | sys/mem.c:56-76 | under the countdown invariant a descriptor's count never promises pages that are missing or in the other state |
| Allocator.CountSpan | sys/mem.c:134-146 | the pages that `free` walks over from a descriptor are inside the table, in one state, and count down to one |
| Allocator.KmallocTakesAFreeRun | sys/mem.c:183-216 | allocation succeeds exactly when some descriptor fits, marks only pages that were free, counts them down, and changes no other descriptor |
| Allocator.KmallocKeepsCountdown | sys/mem.c:195-213 | first fit keeps the countdown invariant |
| Allocator.ClaimKeepsCountdownIff | sys/mem.c:196-208 | claiming a fitting run keeps the invariant exactly when no free run is cut in its middle: the reason first fit, and not any fit, is sound |
| Allocator.ReleaseKeepsCountdown | sys/mem.c:134-146 | releasing from the first descriptor of a block keeps the countdown invariant |
| AllocatorRuns.StampMovesFreeCount | sys/mem.c:195-213 | claiming or releasing k pages moves the number of free pages by exactly k |
| AllocatorRuns.AllocMissesLiveBlock | sys/mem.c:183-216 | a new block is disjoint from every live block and leaves it intact |
| AllocatorRuns.AllocKeepsHeapInv | sys/mem.c:183-216 | allocation keeps the heap invariant: countdown, live blocks disjoint and in use, free + live + reserved = all pages |
| AllocatorRuns.FreeKeepsHeapInv | sys/mem.c:134-146 | releasing any live block keeps the heap invariant and every other live block |
| AllocatorRuns.RunKeepsHeapInv | sys/mem.c:134-216 | the heap invariant, and with it conservation of pages, holds after every run of allocations and releases |
| AllocatorRuns.BootEstablishesHeapInv | sys/mem.c:49-90 | the table built at boot satisfies the heap invariant for any memory size |
| AllocatorRuns.FreeUndoesAlloc | sys/mem.c:134-216 | releasing what was just allocated gives back the same free pages and the same live blocks |
| AllocatorRuns.KmallocTakesSuffixStart | sys/mem.c:195-213 | while the free pages are the end of memory, allocation takes their first pages, and fails only when too few are left |
| AllocatorRuns.AllocRunIsBump | sys/mem.c:183-254 | any run of allocations without release is exactly a bump allocator: same blocks, same failures |
| AllocatorRuns.BootIsSuffix | sys/mem.c:49-90 | boot leaves the free pages as the end of memory |
| BootMemory.ReservedBounds | sys/mem.c:76-77 | the pages reserved for the descriptor table are as many as its 24-byte descriptors fill completely, so the last one is not counted unless it is full |
| BootMemory.RunKeepsReserved | sys/mem.c:134-216 | no run of allocations and releases hands out or releases a page that boot reserved |
| BootMemory.DescriptorKept | sys/mem.c:49-90 | a descriptor that lies wholly below the end of the reserved pages is in no block that any run has handed out |
| BootMemory.FirstBlock | sys/mem.c:76-84 | the first allocation after boot gets the page right behind the kernel and the reserved pages |
| BootMemory.TableSafeIff | sys/mem.c:49-90 | no run ever hands out a byte of the table exactly when the table starts at a page and fills whole pages, or no page is left to hand out |
| BootMemory.EndMarkerHandedOut | sys/mem.c:75-75 | with a table that starts at a page, the descriptor that ends every scan is always in the first page handed out |
| BootMemory.RefCountsInEveryRun | sys/mem.c:56-84 | after every run a page counts one reference exactly when it is in use, except for the pages of the table, whose count boot writes into the end marker instead |
| Layout.DescriptorLayout | include/sys/paging.h:25-33 | the size of a descriptor follows from its fields and their alignment |
| Addresses.PathIsDigits | sys/paging.c:123-126 | the four shifts and masks are the base-512 digits of the page number |
| Addresses.DigitsInjective | sys/paging.c:123-126 | two page numbers take the same path exactly when they are equal |
| Addresses.DigitsStep | sys/paging.c:176-185 | within one leaf table the next pages differ in the last index only |
| PageTree.ReachOwned | sys/paging.c:133-173 | every table that a path reaches is owned by the last entry of that path, at its level |
| PageTree.PathUnique | sys/paging.c:133-173 | no two paths reach the same table, from the same or from different roots, except below an entry the roots share |
| PageTree.EntryReadsBack | include/sys/paging.h:19-20 | an entry built from a frame and any flags reads back as that frame and those flags, each in its own bit |
| PageTree.EnsureTableKeepsTree | sys/paging.c:24-67 | a table allocated on demand extends the tree, keeps the invariant, and is linked where it was asked for |
| PageTree.LinkReach | sys/paging.c:24-67 | linking a new table changes no path that existed; it only gives absent paths that new table |
| PageTree.EnsureWalk | sys/paging.c:24-67 | adding an empty table changes no translation of any root |
| PageTree.LeavesWalk | sys/paging.c:176-185 | writing leaves changes exactly the translations that go through that table at those indices, for all roots |
| PageTree.EnsurePathTheorem | sys/paging.c:133-173 | the whole descent with its up to three new tables keeps the tree and every translation, and ends at the leaf table of the path |
| PageTree.MapPathTheorem | sys/paging.c:117-186 | one mapping keeps the tree invariant, grows memory monotonically, and changes translations as stated for every root and page |
| Mapping.PageStep | sys/paging.c:176-185 | page i of the range has the path of the first page with the last index moved by i |
| Mapping.MapPathTranslates | sys/paging.c:117-186 | after the mapping, page i of the range translates to the i-th frame with the requested rights |
| Mapping.MapPathOthers | sys/paging.c:117-186 | every other page, under every root, translates as before, unless it shares the leaf table and lies in the range |
| Mapping.WalkerReadsLeaf | sys/paging.c:69-114 | the source's own walker returns the frame address of every present translation |
| Mapping.WalkerMissesTable | sys/paging.c:69-114 | it returns -1 exactly when a table on the way is missing, and never -1 for a page that its table does not hold |
| Mapping.MapTranslates | sys/paging.c:117-186 | for every address range inside one leaf table, each address translates to its physical page, read by the source's own walker |
| Mapping.MapLeavesOthers | sys/paging.c:117-186 | addresses outside the range keep their translation |
| Mapping.SharedSlotAgrees | sys/elf64.c:99-99 | roots with the same entry in a slot agree on every translation below it |
| Mapping.RightsBySlot | sys/paging.c:24-67 | a mapped page of a process is open to user code exactly when it lies outside slot 511; both directions, through all four levels |
| Spaces.AllocKeepsTree | sys/mem.c:183-216 | allocating pages disturbs no table; every frame handed out was free, is zero, and is used by no table or data page |
| Spaces.RootKeepsTree | sys/elf64.c:88-105 | a fresh root with the kernel's entry, or with a parent's entries, joins the tree |
| Spaces.StackKeepsTree | sys/mem.c:218-254 | the stack page is fresh, zero and mapped for the user at its own address; no other page of any root moves |
| Spaces.NewSpaceKeepsTree | sys/elf64.c:72-110 | creating a process keeps the tree, grows memory, and gives a root and a zeroed mapped stack |
| Spaces.NewSpaceWalks | sys/elf64.c:72-110 | but for its stack a new process sees the kernel's slot and nothing else, and no other root's pages move |
| Spaces.ForkSpaceKeepsTree | sys/process.c:299-324 | forking keeps the tree; the child's root holds every present entry of its parent, since page tables are shared and not copied; and the child gets a fresh zeroed stack, mapped for the user at its own address |
| Spaces.ForkSpaceWalks | sys/process.c:299-324 | but for that stack the child sees exactly what its parent saw, no other root's pages move, and the stack's frame was free |
| Spaces.ForkSharesStack | sys/process.c:318-324 | a parent that has a table for the slot of the stacks sees the child's stack as well |
| Spaces.KernelTreeAtBoot | sys/paging.c:235-259 | the invariant can be met: a kernel root with one kernel table in slot 511 |
| Spaces.OpKeepsSpace | sys/paging.c:117-186 | each map (through a process root or the kernel root), spawn, fork and allocation keeps the invariant |
| Spaces.RunKeepsSpace | sys/elf64.c:66-110 | so does every run of them |
| Spaces.KernelSlotSharedInEveryRun | sys/elf64.c:99-99 | after every run, every process has exactly the kernel's translations in slot 511 |
| Spaces.SharedSlotStaysShared | sys/process.c:318-323 | present root entries are never rewritten: roots that share one keep agreeing on its whole slot after every run |
| Spaces.RightsInEveryRun | sys/paging.c:24-67 | after every run, user code may read and write exactly the mapped pages outside slot 511 |
| Isolation.StoreKeepsTables | sys/paging.c:24-67 | a store by user code, at any address of any process, changes no page table and no translation |
| Isolation.OpKeepsIsolation | sys/mem.c:148-158 | fresh pages, new processes, forks, allocations and stores keep every page a process sees outside slot 511 in a data frame |
| Isolation.RunKeepsIsolation | sys/process.c:299-324 | so does every run of them |
| Isolation.StoresNeverReachTables | sys/paging.c:24-67 | no run of stores by any processes changes a page table or a translation |
| UserMemory.StoreAtTheorem | sys/utils.c:46-52 | a byte stored in a data page changes no table, no translation and no other frame |
| UserMemory.CopyAtTheorem | sys/utils.c:46-58 | so does a whole copy, and it cannot fault on mapped pages |
| UserMemory.CopyAtReads | sys/utils.c:46-58 | every copied byte reads back at its address; every other byte reads as before |
| UserMemory.MapFreshTheorem | sys/mem.c:153-156 | one turn of `region_alloc` gives its page a frame that nobody had, and moves no other page |
| UserMemory.RegionTheorem | sys/mem.c:148-158 | every page of the region gets a frame of its own; all other pages stay |
| Loader.FillKeepsTree | sys/elf64.c:190-194 | region, copy and padding keep the tree, never fault, and keep every translation outside the segment |
| Loader.FillTheorem | sys/elf64.c:190-194 | all copied and padded bytes are in place together |
| Loader.SegmentTheorem | sys/elf64.c:186-194 | after one loadable segment each of its bytes reads from the file, then zero, each of its pages has a frame of its own, and nothing older moved; a file size above the memory size is copied in full |
| AreaList.NextNodeIsNextFrame | sys/mem.c:167-167 | the pointer arithmetic for the next node lands exactly one page further |
| AreaList.NodeAppended | sys/mem.c:159-177 | a further node is stored and linked: the whole list is in memory, and nothing but the written words of nodes differs |
| ProgramImage.EarlierSegmentStays | sys/elf64.c:183-194 | loading a segment leaves the bytes of page-disjoint segments as they were |
| ProgramImage.OneMoreSegment | sys/elf64.c:186-194 | the segment part of one turn of the header loop keeps everything loaded before, nodes included |
| ProgramImage.OneMoreNode | sys/elf64.c:196-204 | storing a node in a frame that holds no table keeps the tree, every translation, and every byte outside the node |
| ProgramImage.LoadTheorem | sys/elf64.c:181-206 | on any heap, when every node after the first lands in a page of the program: the header loop never faults, and if memory suffices then every byte of every segment reads as the file says or as zero unless a node lies over it, all nodes are in memory, and nothing older or outside moved |
| ProgramRun.RunBinaryTheorem | sys/elf64.c:66-215 | on any heap, under the same condition: the same for the whole call, with the byte that is read under a node |
| ProgramRun.AtMostOneSegment | sys/elf64.c:66-215 | with at most one loadable segment every byte is in place after the call, whatever the state of memory before |
| Suffix.RunKeepsSuffix | sys/mem.c:183-254 | after every run of maps, spawns, forks and allocations the free pages are the end of memory |
| Footprint.EnsurePathExact | sys/paging.c:133-173 | on such memory a descent takes exactly the frames of its missing tables, in order, and moves no table |
| Footprint.MapFreshExact | sys/mem.c:153-156 | one turn of `region_alloc` gives the page the next frame, and its missing tables the frames behind; it fails only when too few are left |
| Footprint.RegionExact | sys/mem.c:148-158 | a region succeeds exactly when the frames of its pages and missing tables are left, and each page and table lies in the frame computed for it |
| Footprint.SegmentExact | sys/elf64.c:186-194 | the same for a loaded segment, which never faults |
| Footprint.NewSpaceExact | sys/elf64.c:72-110 | a new process takes exactly fourteen frames: the root is the first, the stack the eleventh, and it has no user tables but the stack's |
| Footprint.StackIsUserPage | sys/mem.c:220-250 | stacks lie in slot 481, each in the page that the number of its frame selects, so no two of them share a byte |
| Footprint.ForkSpaceExact | sys/process.c:299-324 | a fork succeeds exactly when fourteen frames are left and one for each table of the new stack that the parent does not have; the child's root is the eleventh and its stack the fourteenth |
| Layout.TaskLayout | include/sys/process.h:29-45 | the nine pages of a task structure follow from its fields, with the kernel stack inside |
| NodePlaces.LaidOutTheorem | sys/elf64.c:181-206 | when all nodes lie over pages, loading any number of segments succeeds exactly when memory suffices, and every page, table and node lies where it was computed to lie |
| NodePlaces.NodesInPagesIff | sys/elf64.c:181-206 | all nodes lie over pages of the program if each has a page behind the first segment, and no page before the last of these needs a leaf table that the first segment did not need; when memory suffices, only then |
| NodePlaces.LastNodeOverTable | sys/mem.c:159-177 | a node that does not fit because the page before needs a table is stored over the first such table, which the new root still uses |
| Layout.NodeLayout | include/sys/process.h:13-22 | the eight words of a node are the fields of the structure, in its order and at its offsets |
| ProgramBytes.NodesClearIff | sys/elf64.c:66-215 | the condition for the whole call, from the first free frame and the headers |
| ProgramBytes.RunBinaryFits | sys/elf64.c:66-215 | a call succeeds exactly when the frames computed from the headers are left, as long as all nodes before the last one fit |
| ProgramBytes.NodeOverPage | sys/mem.c:167-167 | when the nodes fit, node j lies over the j-th page behind the first segment and over no other |
| ProgramBytes.BytesAfterRun | sys/elf64.c:66-215 | after a call for any number of segments whose nodes fit: where root, stack and nodes lie, how much memory is left, and what every byte of every segment reads as |
| ProgramBytes.ProgramIntactIff | sys/elf64.c:66-215 | all segments are in place after such a call exactly when the file holds the nodes' own fields where nodes lie |
| ProgramBytes.StackAfterRun | sys/elf64.c:110-127 | a stack that no segment covers is still mapped and still zero after such a call |
| ProgramBytes.TwoFit | sys/elf64.c:181-206 | with two segments the nodes fit exactly when the second has a page |
| ProgramBytes.BlockFits | sys/elf64.c:181-206 | the nodes of any number of non-empty segments in the same 2 MiB fit, whatever the first free frame |
| ProgramDamage.TableOverwritten | sys/elf64.c:66-215 | a call whose last node does not fit because the page before needs a table: it succeeds, and words 1 to 7 of a page table of the new root are the node |
| ProgramDamage.TwoSegmentsIntactIff | sys/elf64.c:66-215 | with two segments, the second with or without pages, both are in place after the call exactly when the file holds the node's own fields there |
| ProgramDamage.ExampleCorrupted | sys/elf64.c:66-215 | a call with two headers of sixteen zero bytes succeeds on any memory with 21 free pages, and byte 10 of the second segment reads as 96 |
| ProgramDamage.ExamplePageLost | sys/elf64.c:66-215 | a call with a third header, for the page behind the second, succeeds on any memory with 22 free pages, and that page is not mapped afterwards |
| MultiTable.NextTableTree | sys/paging.c:24-36 | `alloc_pte` with its loop, whether or not a table was there: the tree stays sound, one entry leads to the new table, and no other word of a table changes |
| MultiTable.ManyTheorem | sys/paging.c:187-226 | the branch keeps the tree, maps as many consecutive pages as it writes entries, each to its physical page, leaves the rest of the last table absent whatever was mapped there, and moves no other page |
| MultiTable.RequestMetIff | sys/paging.c:187-226 | when memory suffices, the requested pages and no others change exactly when no store leaves the tables and the pages of the last table behind the request were already as that table makes them |
| MultiTable.RequestMissed | sys/paging.c:187-226 | every call for two tables of pages from index 0 maps three tables of pages |
| MultiTable.TranslationsLost | sys/paging.c:187-226 | every call for 1023 pages from index 1 takes away all translations of the table behind |
| Machine.Machine.constructor | sys/mem.c:49-90 | the three loops build the boot table, with the end marker behind it |
| Machine.Machine.StampBlock | sys/mem.c:203-208 | the inner loop stamps a block with its countdown and changes no other descriptor |
| Machine.Machine.ZeroBlock | sys/mem.c:201-201 | the frames of a block become zero and no other frame changes |
| Machine.Machine.Search | sys/mem.c:195-214 | the walk stops at the first descriptor that fits |
| Machine.Machine.Kmalloc | sys/mem.c:183-216 | the in-place allocator is the allocation function: descriptors, zeroed frames and address |
| Machine.Machine.FreeBlock | sys/mem.c:134-146 | the in-place release is the release function |
| Machine.ReleaseErases | sys/mem.c:134-216 | allocate, store anything in the block, release: the block is erased, its pages are free as before, and no other frame has changed |
| Mapper.AllocTable | sys/paging.c:24-67 | allocating and linking one table in place |
| Mapper.LeafTable | sys/paging.c:133-173 | the nested descent with its four ways down ends as the recursive specification says |
| Mapper.WriteLeafLoop | sys/paging.c:176-185 | the leaf loop writes exactly the entries of the range |
| Mapper.InitMap | sys/paging.c:117-186 | the in-place mapping is the mapping function about which the theorems speak |
| MultiMapper.TableLoop | sys/paging.c:202-213 | the loop over full tables |
| MultiMapper.InitMapMany | sys/paging.c:187-226 | the second branch in place is the function of `MultiTable.ManyTheorem`, whenever its stores stay inside its tables |
| Mapper.WalkTables | sys/paging.c:69-114 | the in-place walk returns the walker's value, all-ones where a table is missing |
| ElfLoader.MemCpy | sys/utils.c:46-52 | the byte loop through the current translations is the copy function |
| ElfLoader.MemZero | sys/utils.c:54-58 | the same for the zero fill |
| ElfLoader.RegionLoop | sys/mem.c:148-158 | the page loop, with its rounding down and up, allocates exactly the segment's pages |
| ElfLoader.LoadOne | sys/elf64.c:186-194 | the memory of one loadable segment |
| ElfLoader.LastNode | sys/mem.c:162-166 | the walk along the links in memory ends at the last node |
| ElfLoader.AddNode | sys/mem.c:159-177 | `vma_malloc` and the seven stores behind it, first and further nodes |
| ElfLoader.LoadTurn | sys/elf64.c:184-204 | one turn of the header loop: segment, then node |
| ElfLoader.LoadHeaders | sys/elf64.c:181-206 | the header loop, other kinds skipped, is the function of `ProgramImage.LoadTheorem` |
| ElfLoader.StackPage | sys/mem.c:218-254 | the stack allocator |
| ElfLoader.FillRoot | sys/elf64.c:88-99 | the root loop leaves a zero root with the kernel's last entry |
| ElfLoader.CopyEntries | sys/process.c:318-323 | the fork loop leaves the parent's entries in the child's root |
| ElfLoader.SetUpSpace | sys/elf64.c:72-110 | pages, root and stack of a new process, in the source's order |
| ElfLoader.ElfRunBin | sys/elf64.c:66-215 | the in-place loader is the function of `ProgramRun.RunBinaryTheorem` |
| ElfLoader.ForkRoot | sys/process.c:287-324 | the in-place address space of a child is the function of `Spaces.ForkSpaceKeepsTree` |
| Scheduler.FindPid | sys/process.c:143-150 | the first listed task with that pid, or proof that there is none |
| Scheduler.KillStop | sys/process.c:452-463 | the node at which `sys_kill` stops: the first with that pid that is the kernel's or the caller's own |
| Scheduler.WaitTarget | sys/process.c:476-504 | the first task from there on that has the pid asked for, or, for a `wait`, that is a child of the caller and not in the background; or proof that there is none |
| Lifecycle.ScanClosed | sys/process.c:167-186 | the scan stops right before the next runnable task, skips only blocked tasks, and clears exactly the flags of finished children between |
| Lifecycle.ScheduleKeepsTasks | sys/process.c:161-220 | `schedule` changes nothing in the list but waiting flags of finished children |
| Lifecycle.ScheduleEstablishesInv | sys/process.c:161-220 | `schedule` always selects a task that can run, with both pointers on the list and `previous` before `running` unless the head runs |
| Handover.ScheduleExact | sys/process.c:161-220 | which task `schedule` selects, that `previous` is the one it started from also when the scan wraps to the head, and the new waiting flag of every task |
| Handover.ScheduleHandsOver | sys/process.c:161-220 | the task at `previous` has the pid of the task that gave up the processor |
| Handover.StepHandsOver | sys/process.c:161-518 | after every call and interrupt the task at `previous` is the caller, if the call schedules and the caller is still listed, and who it was before otherwise |
| Handover.OwnStackInEveryRun | sys/process.c:223-250 | in every run the stack pointer saved for each listed task is the one with which that task itself last gave up the processor or was created |
| Lifecycle.KillKeepsInv | sys/process.c:443-466 | every kill but one keeps the invariant |
| Lifecycle.ExecKeepsInv | sys/idt.c:301-324 | `exec` keeps the invariant |
| Lifecycle.StepKeepsInv | sys/process.c:161-518 | every safe call and interrupt stays on the list and keeps the invariant: boot task first and runnable, distinct pids below the counter, parents older than children, running task not blocked |
| Lifecycle.BootInv | sys/main.c:86-132 | boot establishes the invariant with two tasks and two pids used, and the shell, a child of the boot task, runs first |
| LifecycleRuns.RunKeepsInv | sys/process.c:161-518 | in every run of safe steps no walk leaves the list and the invariant holds |
| LifecycleRuns.KillSafeIff | sys/process.c:443-466 | a kill keeps the list sound exactly when it is not pid 0 killed by a child of the boot task |
| LifecycleRuns.KillBootLeavesList | sys/process.c:446-451 | the first shell can do it with its first call, and the walk leaves the list |
| LifecycleRuns.StepCounts | sys/process.c:56-138 | each step moves the task count with the list, except for removals by `delete_from_task_list` |
| LifecycleRuns.RunCounts | sys/process.c:56-138 | over every run the task count drifts by exactly those removals |
| LifecycleRuns.CountFromBoot | sys/process.c:56-138 | from boot, task count = list length + uncounted removals |
| LifecycleRuns.ExecKeepsIdentity | sys/idt.c:301-324 | `exec` keeps the pid counter, the caller's pid and parent, and the order of everybody else; the new program is last and ready |
| CallEffects.CounterIsForks | sys/process.c:292-292 | over every run the pid counter moves by the number of forks |
| CallEffects.ForkedPidIsNew | sys/process.c:284-297 | a child's pid is listed nowhere and will be given to no later child in any run; it is last, ready, with its parent's pid and name |
| CallEffects.KillRemovesIff | sys/process.c:443-466 | a kill takes the pid off the list exactly when it is not a task named like the kernel, unless that is the caller's parent |
| CallEffects.ExitRemoves | sys/process.c:428-441 | an exiting task is off the list |
| CallEffects.ExitedForever | sys/process.c:428-441 | and never listed again in any run |
| CallEffects.KilledForever | sys/process.c:443-466 | the same for a killed task |
| CallEffects.WaitBlocks | sys/process.c:468-507 | waiting for a sleeping child blocks the caller at once, and another task runs |
| CallEffects.WaitHolds | sys/process.c:468-507 | in every run after that the caller is not selected while the child has countdowns left and both are listed |
| Waiting.WaitSettles | sys/process.c:476-507 | `wait` does something exactly when the caller has a listed child that is not in the background; it is held by the first of them if that child is asleep, and only yields if it is not |
| Waiting.WaitPidSettles | sys/process.c:468-507 | `waitpid` of a pid does the same for the task of that pid, and nothing when it is unlisted or the flag of the system is set |
| Waiting.StepMarks | sys/process.c:509-518 | only a sleep moves the flag of the system, only a sleep with `&` marks a task, and a child is created without a mark |
| Waiting.MarksInEveryRun | sys/process.c:509-518 | in every run the flag is that of the last sleep, and a listed task is marked exactly when it slept with `&` |
| Waiting.SleepThenWaitPid | sys/process.c:468-518 | a `waitpid` for a sleeper, with any events but sleeps between, holds the caller after a sleep without `&` and returns at once, changing nothing, after a sleep with `&` |
| Waiting.WaitSkipsBackground | sys/process.c:468-518 | from boot, after any run, `wait` does nothing exactly when all listed children of the caller have slept with `&`, and it never settles on one that has |
| Blocked.StepLeavesAlone | sys/process.c:161-518 | apart from the timer, a step touches another task only by removing it or clearing its flag |
| Blocked.StepOnSleeper | sys/process.c:38-54 | one step shortens a sleep exactly when it is a hundredth timer interrupt |
| Blocked.UnlistedForever | sys/process.c:284-297 | a pid that has left the list never comes back |
| Blocked.SleepsThrough | sys/process.c:509-518 | in any interleaving a sleeper with n countdowns left is not selected during fewer than n countdowns |
| Blocked.WakesOnTime | sys/process.c:38-54 | and the n-th countdown wakes it |
| Blocked.SleepStarts | sys/process.c:509-518 | `sys_sleep(n)` means n countdowns; zero and negative times wrap around 2^64 |
| Awake.AwakeInEveryRun | sys/process.c:38-54 | from boot, in every run, a task that is awake has no time left over: it woke because its countdowns were used up, or never slept |
| Blocked.CountdownsByTicks | sys/idt.c:159-171 | over every run the number of countdowns is the number of multiples of one hundred the tick counter passed |
| Blocked.StepOnWaiter | sys/process.c:140-157 | no step releases a waiter whose child is asleep |
| Blocked.WaiterHeldWhileChildSleeps | sys/process.c:468-507 | in any interleaving a waiter is neither released nor selected while its child has countdowns left |
| Fairness.ScheduleApproaches | sys/process.c:161-220 | every call of `schedule` brings a hopeful task strictly nearer |
| Fairness.SelectedWithinBound | sys/process.c:161-220 | it is selected within its bound, in any run that neither creates nor removes tasks |
| Fairness.SelectedOrKilled | sys/process.c:56-220 | in any run, with forks, exits, kills and execs, a runnable task behind the running one is selected or killed within as many calls of `schedule` as it is ahead of `previous` |
| Fairness.ExitGoesBack | sys/process.c:163-186 | its distance from the running task is no such bound: an exit hands over from `previous`, and an earlier task may be selected |
| Fairness.RoundRobin | sys/process.c:161-220 | a runnable task out of n is selected within n - 1 calls of `schedule` |
| Fairness.WaiterRunsAgain | sys/process.c:140-220 | a waiter whose child is gone is released and selected within 2n - 2 calls |
| Fairness.RoundRobinYields | sys/main.c:32-42 | when tasks only yield, every runnable task runs within n yields |
| ReadyList.Kernel.constructor | sys/process.c:12-14 | the initial pointers: no list |
| ReadyList.Kernel.Find | sys/process.c:143-150 | the pointer walk finds the node of the first task with that pid |
| ReadyList.Kernel.IsChildDone | sys/process.c:140-157 | the walk answers whether the child is unlisted or awake |
| ReadyList.Kernel.ScanFrom | sys/process.c:190-204 | the pointer loop, clearing flags in the nodes, is the scan function |
| ReadyList.Kernel.Schedule | sys/process.c:161-220 | the in-place scheduler is the scheduling function, in both branches |
| ReadyList.Kernel.AddToTaskList | sys/process.c:117-138 | a fresh node at the end of the linked list; the first one also becomes the running task |
| ReadyList.Kernel.DeleteCurrFromTaskList | sys/process.c:56-76 | the running node is unlinked and its pointer cleared |
| ReadyList.Kernel.DeleteFromTaskList | sys/process.c:78-115 | the three ways of unlinking a node, and what becomes of the other pointers |
| ReadyList.Kernel.DecSleepCount | sys/process.c:38-54 | every sleeper in the linked list counts down once |
| ReadyList.Kernel.TimerHandler | sys/idt.c:159-171 | countdown on every hundredth interrupt, then the tick |
| ReadyList.Kernel.SysFork | sys/process.c:284-297 | fork on the linked list, returning the child's pid |
| ReadyList.Kernel.SysExit | sys/process.c:428-441 | exit on the linked list |
| ReadyList.Kernel.Exec | sys/idt.c:301-324 | exec on the linked list |
| ReadyList.Kernel.SysKill | sys/process.c:443-466 | kill on the linked list, all four endings, whenever its walks stay on the list |
| ReadyList.Kernel.SysWaitPid | sys/process.c:468-507 | waitpid on the linked list, and the pid it returns |
| ReadyList.Kernel.SysSleep | sys/process.c:509-518 | sleep on the linked list, with the background flag of the system call |
| ReadyList.Kernel.Boot | sys/main.c:86-132 | the boot task, the shell and the first `schedule` on linked nodes give the boot state |
| ReadyList.Kernel.Happen | sys/process.c:161-518 | one event on the linked list is one step |
| ReadyList.Kernel.Live | sys/process.c:161-518 | any sequence of safe events takes the linked list through the run, with the invariant at its end |
| CStrings.StrLen | sys/strings.c:13-19 | the number of bytes before the NUL |
| CStrings.StrCmpIsEquality | sys/strings.c:33-37 | the comparison returns 1 exactly on equal strings |
| CStrings.StrCpy | sys/strings.c:5-11 | the copied string, terminated, and nothing behind it |
| CStrings.StrReverse | sys/strings.c:64-71 | the reversed string, terminated |
| Numbers.Atoi | sys/utils.c:13-27 | the loop's value with 32-bit wrap-around and signed characters |
| Numbers.AccumulateIsDecimal | sys/utils.c:22-25 | digit strings below 2^31 read as their decimal value |
| Numbers.OctTodec | sys/utils.c:28-36 | the loop's sum, with no overflow for any 64-bit argument |
| Numbers.DetourIsOctal | sys/utils.c:28-36 | reading octal digits in decimal and converting gives their octal value, for strings of any length |
| Numbers.OctalFieldValue | sys/tarfs.c:25-25 | `octTodec(atoi(field))` is the octal value of the field when its decimal reading fits an `int` |
| Numbers.NumeralRoundTrip | sys/utils.c:59-74 | numerals read back as their number, in every base up to 16 |
| Numbers.NumeralIsCanonical | sys/utils.c:69-72 | no leading zero |
| Numbers.WordDigits | sys/utils.c:59-74 | 64 digits are enough for every word |
| Numbers.Itoa | sys/utils.c:59-74 | the text written backwards from the end is the numeral; other bases give the empty string |
| Numbers.Itoap | sys/kprintf.c:114-149 | the text written forwards and reversed is the same numeral; the returned length is 2 for zero |
| Ustar.OctalFieldReads | include/sys/tarfs.h:12-30 | octal fields of any width hold every number that fits them |
| Ustar.OctalOrder | sys/utils.c:28-36 | numbers of octal digits keep their order when the digits are read as octal |
| Ustar.ReadingsAgreeOnOrder | sys/utils.c:28-36 | octal digit strings compare alike in base 8 and base 10 |
| Ustar.AccumulateWraps | sys/utils.c:22-25 | `atoi` reads a digit string modulo 2^32 |
| Ustar.OctSplit | sys/utils.c:28-36 | digits split at a power of ten: the octal readings split at the same power of eight |
| Ustar.SizeDecodes | sys/tarfs.c:25-25 | every size up to 295600127 is stored as it is, through `atoi`, `octTodec` and the `int` |
| Ustar.NegativeDecodes | sys/tarfs.c:25-25 | a reading that overflowed to a negative `int` is stored as a negative size |
| Ustar.SizeStoredIff | sys/tarfs.c:25-25 | a size of eleven octal digits is stored as it is exactly up to 295600127 |
| TarHeader.HeaderOffsets | include/sys/tarfs.h:12-30 | the offsets of the size and the type, and the block size of 512, follow from the widths of the seventeen fields |
| TarHeader.HeaderHolds | include/sys/tarfs.h:12-30 | a header written field by field holds the name, the octal size and the type where the index reads them |
| Tarfs.ReadHeader | sys/tarfs.c:25-31 | one header gives the member's name, size, type and address |
| Tarfs.SkipFrom | sys/tarfs.c:33-41 | the distance to the next header is one block plus the size rounded up to blocks |
| Tarfs.TempPtrIff | sys/tarfs.c:16-42 | the `int` offset holds the place of the next header exactly below 2 GiB |
| Tarfs.InitTarfs | sys/tarfs.c:13-47 | the index lists exactly the members of the archive, in order, and their number |
| Tarfs.Open | sys/tarfs.c:102-121 | opening returns the first entry of that name if it is a file, and nothing for a directory or an unknown name |
| Tarfs.OpenedContents | sys/tarfs.c:152-152 | the bytes one block past an entry's address are the member's data |
| ArchiveWriter.WriterMakesArchive | sys/tarfs.c:13-47 | what an archiver writes for any list of members is an archive in the sense of `Tarfs.InitTarfs` |
| ArchiveWriter.OpenWritten | sys/tarfs.c:13-121 | write, index, open: a name opens exactly if the first member of that name is a file, and gives that member's data |
| TarReader.Reader.ReadLine | sys/tarfs.c:148-166 | the buffer holds the line up to limit, newline or NUL; the cursor moves over it and its newline; with a cursor behind the end of the file, the line is read from the memory there |
| TarReader.CallIsExact | sys/tarfs.c:148-166 | on text, one call takes exactly the bytes it moves over, and at least one |
| TarReader.CallsReadTheFile | sys/tarfs.c:148-166 | any sequence of calls with positive limits reads a text file with nothing lost or repeated, and enough calls reach its end |
| TarReader.CallIsExactIff | sys/tarfs.c:155-165 | for arbitrary bytes, a call is exact precisely when it reads no NUL, or stops without a newline and does not start with a NUL |
| TarReader.ReadsToTheEndIff | sys/tarfs.c:148-166 | reading gets to the end whatever the limits precisely for files without NUL bytes |
| TarReader.WholeFileIff | sys/tarfs.c:123-166 | calls can deliver a non-empty text file whole exactly when the shared cursor starts at 0, as `close` leaves it, or stands behind the file where text happens to repeat it |
| LineReader.LinesStep | rootfs/boot/support.4th:374-383 | the non-empty lines of a text are its first stretch without newline, if not empty, and the non-empty lines of the rest |
| LineReader.Reader.SkipNewlines | rootfs/boot/support.4th:295-305 | skipping newlines loses no line |
| LineReader.Reader.ScanBuffer | rootfs/boot/support.4th:307-323 | the scan ends at the first newline of the buffer or at its end |
| LineReader.Reader.ReadFromBuffer | rootfs/boot/support.4th:345-349 | bytes move from the buffer to the line; none is lost, and no newline gets in |
| LineReader.Reader.RefillBuffer | rootfs/boot/support.4th:356-366 | refilling keeps what is still to be read; an empty read is the end of the file |
| LineReader.Reader.ReadLine | rootfs/boot/support.4th:374-383 | one call delivers the next line, or an empty one where a buffer starts with a newline; no line is lost or repeated, however the file is cut into buffers |
| LineReader.ReadAll | rootfs/boot/support.4th:783-794 | calling until the end of the file delivers exactly the non-empty lines of the file, in order, for every way the reads cut it |

## Left out

- ProgramImage.LoadTheorem: asks that every node after the first lands in a page of the program; a node over a page table is the subject of `NodePlaces.LastNodeOverTable`, and what a loader does that goes on with broken tables is not modelled.
- ProgramRun.RunBinaryTheorem: has the same condition; on memory from which no page was released `ProgramBytes.NodesClearIff` says when it holds.
- ElfLoader.LoadTurn: has the same condition.
- ElfLoader.LoadHeaders: has the same condition.
- ElfLoader.ElfRunBin: has the same condition, and asks for memory that suffices.
- ElfLoader.LoadOne: asks that the bytes to copy end in the last page of the segment's region, and for sizes below 2^31; the source only prints a message for a file size above the memory size, and faults when the bytes run past the region.
- ProgramBytes.BytesAfterRun: speaks of memory from which no page was released.
- Fairness.SelectedOrKilled: speaks of tasks behind the running one; a task before it waits for the whole list, to which forks may add without bound.
- MultiTable.RequestMetIff: speaks of the root that is given; roots that share the directory see the same changes.
- MultiMapper.InitMapMany: excludes requests for which the source stores outside the directory or the last table.
- BootMemory.TableSafeIff: speaks of blocks handed out, not of what their owners store; the model keeps descriptors and frames apart.
- Machine.Machine.Kmalloc: asks for a positive size and for memory that suffices; a size of zero or a full memory makes the source run off the descriptor table. `kmalloc` and `kmalloc_init` differ in address arithmetic only and share this method.
- Machine.Machine.FreeBlock: starts from the descriptor; the lookup of a descriptor by address and the reference counts (sys/mem.c:13-47) are not modelled.
- Spaces.KernelTreeAtBoot: shows that the invariant can be met; the tables that `init_paging` builds, in slots 0 and 511, are taken as they are after boot, and so is the direct map behind `VADDR` and `PADDR`.
- Spaces.RightsInEveryRun: says what the rights are; that stores within the rights are harmless is in `Isolation`.
- ReadyList.Kernel.SysKill: leaves out the kills that take a walk off the list; `LifecycleRuns.KillSafeIff` says which kills are sound.
- ReadyList.Kernel.SysExit: is called by a task other than the head; the head task is the idle loop, which only yields.
- TarReader.Reader.ReadLine: asks that memory goes on behind the file for as long as is read there.
- TarReader.CallsReadTheFile: asks for a file without NUL bytes; `TarReader.ReadsToTheEndIff` shows that this is necessary.
- Tarfs.InitTarfs: asks for an archive below 2 GiB, where `Tarfs.TempPtrIff` puts the limit, and for an index array large enough for the members; the source does not check its 1024 entries.
- Numbers.Itoap: asks for base 10 or 16; for any other base the source does not terminate.
- LineReader.Reader.RefillBuffer: read errors and failed Forth allocations, which throw, are not modelled.
- Handover.OwnStackInEveryRun: follows the saved stack pointers; the registers below them and the contents of kernel stacks are not modelled.
- System calls and interrupts are atomic steps.
- Memory is at most 2 GiB, which is what kernel addresses can reach.
- A ready node holds its task as a value, which is sound because no two nodes share a task; the link from a task to its page tables is not modelled.
- The copying of areas and stack contents in `sys_fork` (sys/process.c:328-404) and the page-fault handler (sys/idt.c:112-149) are not modelled.
- The pid and tick counters do not overflow.
- `read_file` (the loop of `readline` without the newline), `opendir`, `read_dir` and `list_dir` (walks over the index) are not modelled.
- Screen, keyboard, PCI, descriptor tables, libc, user programs and the rest of the boot scripts are not modelled.
