# A verified model of the idker kernel

The model covers the parts of the kernel whose state evolves over long runs: the two heap
allocators, the 4-level page tables, the tasks with their capabilities and the scheduler,
the construction of the boot heap, and the loading of ELF segments. Run
`dafny verify dfyconfig.toml` to check it.

Code that changes things in place is written as classes and methods that do the same, and
every such method is proved against a specification: a function on values, or a step of a
transition system. What the kernel promises is then proved about that function or system,
for every input and over every run. Every lemma switches Dafny's automatic induction off;
inductions are written out as recursive calls.

## How it is put together

**Memory management.** `PageTables` has the tables: a finite map from frames to 512
entries, the walk that the processor makes (`Translate`), and when the tables below an
entry form a tree (`Tree`), with the frames that belong to it (`Owned`). `Mapper` and
`SpaceMapper` map one page, as a four-level insert that takes frames for missing tables.
`FreeOrder` says in which order the tables below an entry are freed, `UpperHalves` what
spaces have in common. `AddressSpaces` is the transition system: spaces are created from a
live one, pages are mapped in either half, spaces are dropped. `UserPageTable` is the code of it. `Pages`,
`MappedPrefix` and `UserMemory` are the loops that map ranges; `Rewriting` the two passes
over the boot tables; `PageRanges` the listing of all mappings; `BootHeap` and `ElfLoader`
the two places where frames are filled, `ElfFormat` how the header of a program is written.

**Tasks.** `HandleTables` are the tables of capabilities and open files, `Capabilities`
the capabilities. `Tasks` is the transition system, one processor and each system call one
step; `TaskTree` its invariant, `Scheduling` what holds of its runs, `ZeroEntries` what goes
wrong in some of them, `Confinement` where capabilities can get to, `Descriptors` when
descriptors are gone, `SystemCalls` what each call does, told from what its caller holds.
`Kernel` is the code: contexts and the registry, changed in place.

**Allocators.** `LinkedHeap` and `FixedBlocks` are the two allocators as transition
systems, `LinkedListAllocator` and `FixedSizeBlock` their code, with list nodes that lie
in the free memory itself. `Bits` is the rounding of addresses by masks, `Regions` the
regions. `Sequences` and `Wrappers` are helpers.

## Where the code does less than its names say

Five properties do not hold of the code as it is. Each is stated with the exact condition
under which it does, and for all inputs.

- User tasks can map pages in the upper half, which is the kernel's and shared by all: an
  address is taken for one of user space if bit 63 is clear
  (idker/src/syscalls/userspace.rs:8-13), and from 2^47 to 2^48 addresses are extended to
  the upper half when they are made into pages (idker/src/syscalls/memory.rs:42-47).
  `UserMemory.AcceptedStaysLower` says which accepted ranges stay in the lower half,
  `UserMemory.FirstUpperPage` gives the first one that does not, and
  `AddressSpaces.UpperMapSeen` says when such a page is seen by the kernel and by all other
  tasks. Lower halves stay private in any case (`AddressSpaces.IsolatedForever`,
  `AddressSpaces.PrivateForever`).
- A segment that covers more than one page is loaded wrongly: the index into the file is
  not advanced from page to page (idker/src/context/elf.rs:79-104), so that every page
  gets the first one's bytes. `ElfLoader.ImageExactly` says for which segments this makes
  no difference.
- The pass that clears the lower half does not test for huge pages
  (idker/src/arch/x86_64/paging/mod.rs:77-86): it takes a huge page for a table and leaves
  it mapped. `Rewriting.PollutionFixedExactly` says that nothing stays mapped exactly when
  it meets no such page; `Rewriting.HugePageStaysMapped` is a concrete case.
- A task whose program starts at address 0 looks as if it had not been started, and can be
  started again (idker/src/context/syscall.rs:39, 52-53). `ZeroEntries.ExecExactly` says
  that `exec` leaves the queue right exactly when the entry is not 0, and
  `ZeroEntries.SwitchFails` is a run that ends in a panic of the scheduler. What is said of
  capabilities, of handles and of the time a queued task waits holds in such runs as well.
- A transfer that fails loses the capability, because it is taken from the giver before
  the target is looked at (idker/src/capability/syscall.rs:120-148).
  `Confinement.TransferMoves` gives the outcome of every transfer. It is never duplicated.

The comment on `OwnedStack` sizes, and the one on the first process id
(idker/src/context/task.rs:13, 36), say something else than the constants; the model
follows the constants.

## Model

| member | source | states |
|---|---|---|
| `Bits.HighBits` | idker/src/allocator/mod.rs:103-105 | masking with the bits from k upward takes off exactly the remainder by 2^k, bit by bit |
| `Bits.AlignUpIsLeast` | idker/src/allocator/mod.rs:103-105 | for every power of two, the masked sum is the least multiple that is not below the address, unless the sum overflows |
| `Bits.AlignUpIsCeiling` | idker/src/allocator/mod.rs:103-105 | it is the quotient rounded up, times the alignment, for every power of two |
| `LinkedHeap.SizeAlignIsGood` | idker/src/allocator/linked_list.rs:105-112 | the adjusted size and alignment hold the layout and a node, and an address aligned to the new alignment is aligned to the old |
| `LinkedHeap.SizeAlignIsLeast` | idker/src/allocator/linked_list.rs:105-112 | and they are no larger than needed: the alignment is the larger of the two, the size the next multiple of it or a node; there is none exactly when the size does not fit |
| `LinkedHeap.FoundIsFirst` | idker/src/allocator/linked_list.rs:57-76 | the region found is the first in list order that can hold the request; none is found if and only if every region is too small |
| `LinkedHeap.FitIsInside` | idker/src/allocator/linked_list.rs:81-99 | a fit starts at the least aligned address of the region, ends inside it, and leaves nothing or room for a node |
| `LinkedHeap.RegionFits` | idker/src/allocator/linked_list.rs:81-99 | a region is used, at its first aligned address, if and only if the block ends at its end or leaves a node behind it; otherwise it is too small |
| `LinkedHeap.AllocOutcome` | idker/src/allocator/linked_list.rs:116-131 | told from the free list alone: the first region with room gives its first aligned address, what is behind the block goes to the front, no other region changes; nothing changes if there is none |
| `LinkedHeap.FreedIsReused` | idker/src/allocator/linked_list.rs:115-139 | a block that is given back is the next one handed out for the same request, and the list is as it was |
| `LinkedHeap.AllocKeepsInv` | idker/src/allocator/linked_list.rs:116-131 | an allocation keeps free regions and used blocks pairwise apart, inside the heap, 8-aligned and a node long, and free, used and lost bytes adding up to the heap |
| `LinkedHeap.DeallocKeepsInv` | idker/src/allocator/linked_list.rs:133-138 | so does giving back a used block |
| `LinkedHeap.InitInv` | idker/src/allocator/linked_list.rs:37-39 | an aligned heap that holds a node meets the invariant at the start |
| `LinkedHeap.InvForever` | idker/src/allocator/linked_list.rs:115-139 | over every run of allocations and frees of used blocks, the invariant holds and the heap stays where it is |
| `LinkedHeap.BlockMeetsLayout` | idker/src/allocator/linked_list.rs:116-131 | a block is aligned as asked, large enough, inside the heap, and apart from every other block and every free region |
| `LinkedHeap.NothingLost` | idker/src/allocator/linked_list.rs:121-127 | over every run with alignments of at most a node's, no byte is lost to alignment |
| `LinkedListAllocator.Allocator.constructor` | idker/src/allocator/linked_list.rs:37-39 | the list has one node, for the whole heap |
| `LinkedListAllocator.Allocator.AddFreeRegion` | idker/src/allocator/linked_list.rs:42-51 | both checks hold, the region becomes the first of the list, and memory apart from it keeps its words |
| `LinkedListAllocator.Allocator.TakeRegion` | idker/src/allocator/linked_list.rs:57-76 | relinking the nodes in place takes exactly the first fitting region out of the list and keeps the others in order; used blocks keep their words |
| `LinkedListAllocator.Allocator.AllocBlock` | idker/src/allocator/linked_list.rs:116-131 | carries out the allocation step, with the list nodes in memory; used blocks keep their contents |
| `LinkedListAllocator.Allocator.DeallocBlock` | idker/src/allocator/linked_list.rs:133-138 | carries out the step that gives a used block back |
| `LinkedListAllocator.Allocator.WriteWord` | idker/src/allocator/linked_list.rs:7-10 | what the owner of a block writes into it never damages the list |
| `FixedBlocks.ListIndexFrom` | idker/src/allocator/fixed_size_block.rs:28-31 | the class is the first whose block size is not below the larger of size and alignment; none if all are smaller |
| `FixedBlocks.AllocOutcome` | idker/src/allocator/fixed_size_block.rs:76-96 | with the class told from the block sizes alone: the first block of its list is handed out, whatever the fallback heap would answer, and its bytes leave the counter; only from an empty list, or without a class, the answer is handed out, and 0 exactly for none |
| `FixedBlocks.FreeOutcome` | idker/src/allocator/fixed_size_block.rs:98-118 | a freed block of a class becomes the first of its list; the used bytes fall, and the free bytes grow, by exactly its block size; any other block goes back to the fallback heap |
| `FixedBlocks.FreedIsNext` | idker/src/allocator/fixed_size_block.rs:76-118 | over every run that stays in other classes, the block freed last is the next one handed out for its class |
| `FixedBlocks.PopKeepsInv` | idker/src/allocator/fixed_size_block.rs:80-84 | taking the first block of a list keeps blocks apart, classes right and the counter exact |
| `FixedBlocks.PushKeepsInv` | idker/src/allocator/fixed_size_block.rs:101-112 | so does putting a block back |
| `FixedBlocks.FallbackKeepsInv` | idker/src/allocator/fixed_size_block.rs:55-60 | so does any answer of the fallback heap within its contract |
| `FixedBlocks.CounterCovers` | idker/src/allocator/fixed_size_block.rs:82 | the counter does not underflow when a block is taken |
| `FixedBlocks.UsedCovers` | idker/src/allocator/fixed_size_block.rs:113-116 | what the fallback heap has given out covers every block given back to it |
| `FixedBlocks.PooledWithin` | idker/src/allocator/fixed_size_block.rs:66-68 | the counter is never more than the bytes granted for the blocks in the lists |
| `FixedBlocks.StepKeepsInv` | idker/src/allocator/fixed_size_block.rs:75-119 | every allocation and every free keeps the invariant |
| `FixedBlocks.InvForever` | idker/src/allocator/fixed_size_block.rs:62-119 | over every run: listed and used blocks are pairwise apart, every listed block serves its class, the counter is the sum over the lists, used and free bytes add up to the heap and neither is negative |
| `FixedBlocks.BlockMeetsLayout` | idker/src/allocator/fixed_size_block.rs:76-96 | a block handed out, from a list or by the fallback heap, is as large and as aligned as the layout asks |
| `FixedSizeBlock.FixedSizeBlockAllocator.constructor` | idker/src/allocator/fixed_size_block.rs:49-52 | the lists are empty and all of the heap is free |
| `FixedSizeBlock.FixedSizeBlockAllocator.BytesUsed` | idker/src/allocator/fixed_size_block.rs:66-68 | the subtraction does not underflow |
| `FixedSizeBlock.FixedSizeBlockAllocator.BytesFree` | idker/src/allocator/fixed_size_block.rs:70-72 | the free bytes of the fallback heap and those in the lists |
| `FixedSizeBlock.FixedSizeBlockAllocator.AllocBlock` | idker/src/allocator/fixed_size_block.rs:76-96 | carries out the allocation step, as `FixedBlocks.AllocOutcome` tells it, on lists linked through the free blocks; 0 is returned if and only if nothing changed; blocks in use keep their contents |
| `FixedSizeBlock.FixedSizeBlockAllocator.DeallocBlock` | idker/src/allocator/fixed_size_block.rs:98-118 | carries out the free step; both checks hold; the other blocks in use keep their contents |
| `FixedSizeBlock.FixedSizeBlockAllocator.WriteWord` | idker/src/allocator/fixed_size_block.rs:15-17 | what the owner of a block writes into it never damages a list, nor another block |
| `PageTables.OwnedFraming` | idker/src/context/page_table.rs:48-71 | the frames of a tree depend on nothing but those frames |
| `PageTables.TreeFraming` | idker/src/context/page_table.rs:48-71 | tables below an entry stay a tree while none of them is written |
| `PageTables.TranslateFraming` | idker/src/context/page_table.rs:22-33 | where a walk ends depends only on the tables below its entry, shared or not |
| `Mapper.MapToExtends` | idker/src/syscalls/memory.rs:79 | mapping a page makes every frame it takes a table below the entry, even if it fails half way, and changes no table elsewhere |
| `Mapper.MapToTranslates` | idker/src/syscalls/memory.rs:79-83 | the page then leads to its frame, and every other page to where it led before; only a huge page in the way picks up the flags of the tables |
| `Mapper.MapToWays` | idker/src/syscalls/memory.rs:64-79 | the entries on the way to every page: a new table has exactly the flags asked for, one that was there has its own and those, at the same frame, and entries off the way are as they were |
| `Mapper.MapToResult` | idker/src/syscalls/memory.rs:81-82 | a page is refused as mapped, or as covered by a huge page, if and only if it translates; otherwise memory must be used up for it to fail |
| `Mapper.MapToSucceeds` | idker/src/syscalls/memory.rs:79-83 | a page that does not translate can be mapped if there is a frame for every table on the way |
| `SpaceMapper.MapPageKeepsPart` | idker/src/syscalls/memory.rs:79 | the tables of the half stay a tree, apart from the frames still free |
| `SpaceMapper.MapPageWalks` | idker/src/syscalls/memory.rs:79 | the same for a whole level-4 table: only the walk of the mapped page changes, and the flags of a huge page in the way |
| `SpaceMapper.MapPageWays` | idker/src/syscalls/memory.rs:64-79 | the same for all four levels |
| `SpaceMapper.MapPageAllows` | idker/src/syscalls/memory.rs:64-79 | a mapped page is reached by three tables, all of which have the flags asked for |
| `SpaceMapper.MapPageTakesNothing` | idker/src/syscalls/memory.rs:64-84 | the tables on the way to other pages keep what they allow, and none comes to forbid execution |
| `SpaceMapper.MapPageResult` | idker/src/syscalls/memory.rs:79-83 | which result it gives, told from the walk before |
| `FreeOrder.FreedExactly` | idker/src/context/page_table.rs:50-71 | exactly the tables below an entry are freed, each once: no leaf frame and no huge page |
| `FreeOrder.ChildrenFirst` | idker/src/context/page_table.rs:56-70 | a table is freed only after every table it leads to |
| `AddressSpaces.DropFrees` | idker/src/context/page_table.rs:48-83 | dropping a space frees exactly its own tables of levels 4 to 1, each once, and no upper-half table |
| `AddressSpaces.DropChildrenFirst` | idker/src/context/page_table.rs:48-83 | children before parents, for a whole space |
| `AddressSpaces.CreateKeepsInv` | idker/src/context/page_table.rs:22-33 | making a space keeps lower halves private and leaves upper halves without tables of one space alone |
| `AddressSpaces.MapKeepsInv` | idker/src/syscalls/memory.rs:76-84 | so does mapping a page with fresh tables, in either half |
| `AddressSpaces.DropKeepsInv` | idker/src/context/page_table.rs:48-83 | so does dropping a space, and no table is forgotten |
| `AddressSpaces.StepKeepsInv` | idker/src/context/page_table.rs:22-83 | every step keeps the invariant, those included that map in an upper half |
| `AddressSpaces.StepKeepsOthers` | idker/src/context/page_table.rs:48-83 | a step leaves the tables of every space it does not name as they are, and those of the kernel, unless it maps in an upper half |
| `AddressSpaces.StepIsolates` | idker/src/context/page_table.rs:48-83 | a step on one space changes no lower-half translation in another, and no upper-half one, unless it maps there |
| `UpperHalves.MapKeepsUppers` | idker/src/syscalls/memory.rs:79 | mapping in an upper half keeps the upper halves of all spaces trees, which have whole level-3 tables in common or nothing |
| `AddressSpaces.StepKeepsUpperTrees` | idker/src/context/page_table.rs:22-83 | so does every step |
| `AddressSpaces.UpperStepWalks` | idker/src/syscalls/memory.rs:76-84 | what a step that maps in an upper half does to every walk in every space: the page is mapped wherever the level-4 entry leads to the same table, and no other walk ends elsewhere |
| `AddressSpaces.UpperMapSeen` | idker/src/syscalls/memory.rs:76-84 | such a page is seen by the kernel and by all other spaces if and only if the kernel has a level-3 table there; if it has none, the spaces no longer share one upper half |
| `AddressSpaces.UpperMapReaches` | idker/src/syscalls/memory.rs:76-84 | three free frames are enough for it to be mapped and seen |
| `AddressSpaces.SharesUpperHalf` | idker/src/context/page_table.rs:25-28 | as long as the upper entries are the kernel's, a live space translates an upper-half address as the kernel does |
| `AddressSpaces.UpperHalfForever` | idker/src/context/page_table.rs:22-83 | over every run that maps in lower halves only, every live space translates every upper-half address as the kernel did at the start |
| `AddressSpaces.IsolatedForever` | idker/src/context/page_table.rs:22-83 | a run that does not name a space changes none of its lower-half translations, wherever it maps, and none at all, if it maps in lower halves only |
| `AddressSpaces.PrivateForever` | idker/src/context/page_table.rs:22-83 | over every run, wherever it maps, no two spaces share a lower-half table |
| `AddressSpaces.NothingLeaks` | idker/src/context/page_table.rs:48-83 | when every space has been dropped, the only tables left are the kernel's and those made in upper halves |
| `AddressSpaces.BootInv` | idker/src/context/page_table.rs:12-20 | the kernel's tables at boot, shared as they may be, meet the invariant and are shared |
| `UserPageTable.Paging.NewFrom` | idker/src/context/page_table.rs:22-33 | the loop copies exactly entries 256 to 511 into a cleared table |
| `UserPageTable.Paging.UnmapWorker` | idker/src/context/page_table.rs:50-71 | frees the tables below an entry in that order, and reads none after it was freed |
| `UserPageTable.Paging.FreeTables` | idker/src/context/page_table.rs:73-82 | the same for the 256 lower entries, then the level-4 table |
| `UserPageTable.Paging.DropSpace` | idker/src/context/page_table.rs:48-83 | carries out the step that drops a space |
| `UserPageTable.Paging.MapUserPage` | idker/src/syscalls/memory.rs:76-84 | carries out the step that maps a page, with its result; `SpaceMapper.MapPageWays` tells the flags of the tables it stores |
| `UserPageTable.Paging.AllocateFrame` | idker/src/syscalls/memory.rs:75 | a frame taken for data leaves the pool and becomes no table |
| `Rewriting.BootTables.ClearEntry` | idker/src/arch/x86_64/paging/mod.rs:72-87 | the recursive walk that clears entries in place is the specified pass |
| `Rewriting.BootTables.FixPollution` | idker/src/arch/x86_64/paging/mod.rs:69-92 | the loop over the lower entries |
| `Rewriting.DeadIsAllDead` | idker/src/arch/x86_64/paging/mod.rs:72-87 | no page below an entry translates if and only if, told along its tables, no present entry leads anywhere but to tables |
| `Rewriting.ClearLeavesKills` | idker/src/arch/x86_64/paging/mod.rs:72-87 | without huge pages, nothing below the entries stays reachable |
| `Rewriting.HugeSurvives` | idker/src/arch/x86_64/paging/mod.rs:77-86 | a huge page that is taken for a table still translates afterwards |
| `Rewriting.PollutionFixed` | idker/src/arch/x86_64/paging/mod.rs:69-92 | if the pass meets no huge page that is not global, afterwards no lower-half address translates, however tables are shared |
| `Rewriting.PollutionFixedExactly` | idker/src/arch/x86_64/paging/mod.rs:69-92 | afterwards no lower-half address translates if and only if the pass met no huge page that is not global |
| `Rewriting.HugePageStaysMapped` | idker/src/arch/x86_64/paging/mod.rs:77-86 | a memory in which one stays mapped |
| `Rewriting.PollutionFixKeepsUpper` | idker/src/arch/x86_64/paging/mod.rs:89-91 | no upper-half address changes where it leads |
| `Rewriting.BootTables.GlobalizeEntry` | idker/src/arch/x86_64/paging/mod.rs:101-118 | the recursive walk that sets the global flag in place is the specified pass |
| `Rewriting.BootTables.GlobalizeKernel` | idker/src/arch/x86_64/paging/mod.rs:98-123 | the loop over the upper entries |
| `Rewriting.KernelspaceGlobalized` | idker/src/arch/x86_64/paging/mod.rs:98-123 | afterwards every present entry reached from the upper half is global, every page there has its flags and the global one, and no address of either half leads to another frame |
| `Rewriting.GlobalizeKeepsLower` | idker/src/arch/x86_64/paging/mod.rs:120-122 | no lower-half page becomes global, if the halves share no tables |
| `PageRanges.FoundFlags` | idker/src/arch/x86_64/paging/debug.rs:15-61 | the ranges found below an entry give each of its pages the flags of a walk for that page alone |
| `PageRanges.FlagsFound` | idker/src/arch/x86_64/paging/debug.rs:10-62 | the same for the whole table: the nested loops agree with the page-by-page walk |
| `PageRanges.ListedIsMapped` | idker/src/arch/x86_64/paging/debug.rs:10-62 | a page is listed if and only if the processor translates it; a 4 KiB page with the flags of its entry, a larger one with those that all entries on the way have |
| `PageRanges.CoalescedNormal` | idker/src/arch/x86_64/paging/debug.rs:67-73 | joining keeps ranges ascending and apart, and no two neighbours could be joined |
| `PageRanges.CoalescedLookup` | idker/src/arch/x86_64/paging/debug.rs:67-73 | joining changes the flags of no page |
| `PageRanges.NormalIsUnique` | idker/src/arch/x86_64/paging/debug.rs:67-73 | a joined list is determined by the flags it gives each page |
| `PageRanges.ListedPages` | idker/src/arch/x86_64/paging/debug.rs:9-74 | the list covers exactly the mapped pages, with their flags less three, ascending, without overlap, joined as far as possible |
| `PageRanges.ListedFlag` | idker/src/arch/x86_64/paging/debug.rs:9-74 | flag by flag: a page is listed if and only if it translates; never as accessed, dirty or huge; with every other flag of its walk, less those that a table on the way to a larger page lacks |
| `PageRanges.OnlyListing` | idker/src/arch/x86_64/paging/debug.rs:9-74 | and it is the only such list |
| `PageRanges.ExplorePageRanges` | idker/src/arch/x86_64/paging/debug.rs:9-74 | the loops compute that list |
| `PageRanges.ExploreEntry4` | idker/src/arch/x86_64/paging/debug.rs:20-60 | the loop over a level-3 table finds what the recursive specification finds |
| `PageRanges.ExploreTable2` | idker/src/arch/x86_64/paging/debug.rs:34-59 | so do the two inner loops |
| `Pages.PageOfPath` | idker/src/arch/x86_64/paging/debug.rs:19-56 | a page number is recovered from its four table indices |
| `Pages.PathOfPage` | idker/src/arch/x86_64/paging/debug.rs:19-56 | and the indices from the page number |
| `MappedPrefix.NextPage` | idker/src/syscalls/memory.rs:74-85 | after a prefix of a range has been mapped, the next page is mapped as well, or was mapped before, or memory is used up; every other translation is kept; the tables on the way to the mapped pages allow what the pages do, and those to others no less than before |
| `UserMemory.ParsedRange` | idker/src/syscalls/memory.rs:37-50 | a range is accepted if and only if both ends are page-aligned and below 2^48, and then its pages are those of its addresses |
| `UserMemory.AcceptedStaysLower` | idker/src/syscalls/userspace.rs:8-13 | an accepted range stays in the lower half if and only if it ends at 2^47 or below |
| `UserMemory.FirstUpperPage` | idker/src/syscalls/memory.rs:37-50 | the range of one page at 2^47 is accepted, and is the first page of the upper half |
| `UserMemory.PermissionsAre` | idker/src/syscalls/memory.rs:11-35 | what each bit gives: without read there is no mapping; a page is writable exactly with the second bit, not executable exactly without the third, present and for users, and has no other flag |
| `UserMemory.LowerCall` | idker/src/syscalls/memory.rs:52-137 | a call whose range stays in the lower half makes no step that maps in an upper half |
| `UserMemory.MapNext` | idker/src/syscalls/memory.rs:76-84 | the body of both loops |
| `UserMemory.MapFresh` | idker/src/syscalls/memory.rs:75-84 | a page gets a frame of its own, which was free and becomes no table, or the reason why not; every other translation is kept |
| `UserMemory.MapVirtRange` | idker/src/syscalls/memory.rs:71-87 | success maps every page to its own free frame, which is no table; failure leaves exactly a prefix mapped, with the reason; nothing else changes; the tables on the way allow what the pages do |
| `UserMemory.MapVirt` | idker/src/syscalls/memory.rs:52-88 | the whole call, with every refusal in order |
| `UserMemory.MapPhysRange` | idker/src/syscalls/memory.rs:121-136 | success maps page i to frame i for all i; failure leaves exactly a prefix mapped |
| `UserMemory.MapPhys` | idker/src/syscalls/memory.rs:90-137 | the whole call; the frames lie in the range that the capability was checked for |
| `UserMemory.MountUserStack` | idker/src/context/task.rs:121-153 | the addresses from 0x4000_0000 on lead to the frames that hold the stack, in order, for reading and writing, by tables that allow both; unless memory runs out |
| `UserMemory.CreatedMapsNothing` | idker/src/context/page_table.rs:22-33 | a new space maps nothing in its lower half, and has no tables there |
| `BootHeap.UsableOnce` | idker/src/arch/x86_64/paging/frame_allocator.rs:25-35 | the frames are exactly those of the usable regions, each once |
| `BootHeap.BootMemory.MapHeap` | idker/src/allocator/mod.rs:60-88 | the loop ends; the pages from the start of the heap are mapped, one after the other, to distinct frames of the iterator, none of which is a table; it stops only without frames or at a page mapped before |
| `BootHeap.BootMemory.InitHeap` | idker/src/allocator/mod.rs:57-101 | the allocator is given exactly the addresses that were mapped, from 0xFFFF_C000_0000_0000 on: each leads to its frame, writable, global and not executable, and no other page of the upper half is mapped |
| `BootHeap.PrefixIsHeap` | idker/src/allocator/mod.rs:60-99 | the pages mapped by the loop are those of the addresses of the heap, byte by byte, and no others |
| `BootHeap.HeapFramesAreUsable` | idker/src/allocator/mod.rs:65-88 | with disjoint aligned regions, the heap's frames are pairwise distinct, lie in usable regions, and are no tables |
| `ElfLoader.HeadersInFile` | idker/src/context/elf.rs:26-47 | every program header of an accepted file lies in the file |
| `ElfFormat.HeaderRoundTrip` | idker/src/context/elf.rs:38-54 | a program header written out in the format of the System V ABI, chapter 5, is read with the same fields, wherever the table is in the file |
| `ElfFormat.FileAccepted` | idker/src/context/elf.rs:15-36 | place and number of the headers are read as written; a file is accepted if and only if it is longer than its header, has the magic number, and the table ends before the file |
| `ElfFormat.DataRead` | idker/src/context/elf.rs:49-54 | the bytes of a program are those from its offset on, and slicing panics exactly when the file has too few |
| `ElfLoader.SegmentFlagsAre` | idker/src/context/elf.rs:73-77 | a segment can be written or executed exactly as its header says |
| `ElfLoader.LoadableExactly` | idker/src/context/elf.rs:64-76 | the checks pass if and only if the segment may be read and its start and end are valid addresses without the sign bit |
| `ElfLoader.CopyPage` | idker/src/context/elf.rs:88-102 | zeroing and copying in place gives that window, inside the frame and the data, and changes no byte of another frame |
| `ElfLoader.MountSegment` | idker/src/context/elf.rs:64-104 | every page of the segment, which must have been unmapped, gets a free frame of its own and a window of the data; bytes of no other frame change; which checks panic |
| `ElfLoader.MountableAre` | idker/src/context/elf.rs:60-62 | the headers that are mounted are exactly those that are loadable and have a size in memory |
| `ElfLoader.MountInto` | idker/src/context/elf.rs:56-106 | all loadable segments of the file are in memory, no two share a page or a frame, and every other page is as it was; a check panics only for a bad header, and mapping fails only if two headers share a page, one has a page that was mapped before, or memory runs out |
| `ElfLoader.StillMounted` | idker/src/context/elf.rs:63-105 | a segment mounted later takes nothing from an earlier one |
| `ElfLoader.MappedIsInUse` | idker/src/context/elf.rs:63-86 | while segments are mounted, the pages that are mapped are exactly those mapped before and those of the segments |
| `ElfLoader.FirstPageIsRight` | idker/src/context/elf.rs:79-102 | on the first page every address has the file's byte, or 0 after the file's bytes |
| `ElfLoader.ImageExactly` | idker/src/context/elf.rs:79-104 | segments of a shape are loaded right, whatever the file holds, if and only if they cover one page, hold no file bytes, or reach into a second page only with zeros and by less than a page |
| `ElfLoader.MountedByte` | idker/src/context/elf.rs:56-106 | in a mounted segment of such a shape, every address translates to the physical byte that the file or the zero fill has for it, by tables that allow what the segment does |
| `HandleTables.GetIsLookup` | idker/src/capability/syscall.rs:31-35 | the linear search is a lookup in a finite map |
| `HandleTables.InsertIsUpdate` | idker/src/capability/syscall.rs:23-29 | a new handle was unused, and only it changes |
| `HandleTables.DeleteIsRemoval` | idker/src/capability/syscall.rs:43-48 | deleting removes the handle, and only it |
| `HandleTables.ReplaceIsUpdate` | idker/src/capability/syscall.rs:37-41 | changing an item in place changes the map there only |
| `HandleTables.DeletedForever` | idker/src/capability/syscall.rs:22-49 | a handle that was deleted never resolves again, whatever is done to the table |
| `Descriptors.CloseCloses` | idker/src/file/syscall.rs:85-94 | closing an open descriptor puts it past its use |
| `Descriptors.BootFiles` | idker/src/file/syscall.rs:28-36 | the tables of descriptors are valid at the start |
| `Descriptors.ClosedForever` | idker/src/file/syscall.rs:20-25 | over every run of the system, a descriptor of a task that is past its use never resolves again |
| `Kernel.TaskContext.InsertCapability` | idker/src/capability/syscall.rs:23-29 | the handle comes from the counter, which moves on even if the table cannot grow |
| `Kernel.TaskContext.DeleteCapability` | idker/src/capability/syscall.rs:43-48 | takes the capability out, or says that there is none |
| `Kernel.TaskContext.CloneCapability` | idker/src/capability/syscall.rs:51-64 | only with the permission to duplicate |
| `Kernel.TaskContext.RestrictCapability` | idker/src/capability/syscall.rs:85-104 | only physical ranges, and only to a non-empty part |
| `Kernel.TaskRegistry.Boot` | idker/src/main.rs:82-100 | tasks 1 and 2 are made as the transition system starts |
| `Kernel.TaskRegistry.Add` | idker/src/context/registry.rs:19-30 | registers a task and appends it to its parent's list |
| `Kernel.TaskRegistry.Remove` | idker/src/context/registry.rs:36-49 | the search in the parent's list removes exactly the task |
| `Kernel.TaskRegistry.CreateChild` | idker/src/context/task.rs:87-102 | a new task has the next id, an empty table, and its parent |
| `Kernel.TaskRegistry.SwitchToNextTask` | idker/src/context/mod.rs:54-107 | the lookups succeed; the queue and the current task change as in the transition system; false exactly when the current task goes on; a dying task is removed after the switch |
| `Kernel.TaskRegistry.Exit` | idker/src/syscalls/mod.rs:81-89 | the current task dies and another one runs |
| `Kernel.TaskRegistry.SpawnTask` | idker/src/context/syscall.rs:15-28 | a child with a fresh id, not queued; only with the capability |
| `Kernel.TaskRegistry.ExecTask` | idker/src/context/syscall.rs:30-57 | only a child without a program is started; every refusal in order |
| `Kernel.TaskRegistry.ProcessShareTransfer` | idker/src/capability/syscall.rs:113-153 | carries out the share or the transfer; every refusal in order |
| `Kernel.TaskRegistry.GiveToChild` | idker/src/capability/syscall.rs:137-152 | only a child of the current task is given anything |
| `Kernel.TaskRegistry.CapabilityClone` | idker/src/capability/syscall.rs:51-64 | carries out the step on the table of the current task |
| `Kernel.TaskRegistry.CapabilityRestrict` | idker/src/capability/syscall.rs:85-104 | carries out the step |
| `Kernel.TaskRegistry.CapabilityDrop` | idker/src/capability/syscall.rs:106-111 | carries out the step |
| `Kernel.TaskRegistry.CheckMapPhys` | idker/src/syscalls/memory.rs:102-111 | the search succeeds if and only if some capability covers the range |
| `Kernel.TaskRegistry.OpenFile` | idker/src/file/syscall.rs:54-56 | a new descriptor from the counter |
| `Kernel.TaskRegistry.CloseFile` | idker/src/file/syscall.rs:85-94 | takes exactly that descriptor out |
| `SystemCalls.FileOutcome` | idker/src/file/syscall.rs:54-94 | opening adds a descriptor that was not in use, closing takes away that one, and nothing else changes |
| `TaskTree.RemoveKeepsFamily` | idker/src/context/registry.rs:36-49 | removing a task keeps every list of children equal to the registered tasks that name the parent |
| `TaskTree.AddKeepsFamily` | idker/src/context/registry.rs:19-30 | so does adding one |
| `TaskTree.NextIsRegistered` | idker/src/context/mod.rs:66-74 | the unwraps of the switch never fail; it stays exactly when nothing else can run |
| `TaskTree.SwitchKeepsInv` | idker/src/context/mod.rs:54-107 | a switch keeps the invariant, also from a dying task |
| `TaskTree.SpawnKeepsInv` | idker/src/context/syscall.rs:15-28 | so does spawning |
| `SystemCalls.MayExactly` | idker/src/context/syscall.rs:19-21 | the searches of spawn, map_virt and map_phys succeed if and only if a handle of the caller stands for such a capability |
| `SystemCalls.SpawnOutcome` | idker/src/context/syscall.rs:15-28 | spawning gives the next id if and only if the caller holds the capability for it; otherwise it is refused and nothing changes |
| `SystemCalls.SpawnedChild` | idker/src/context/syscall.rs:23-27 | the child is the one new task: it has no capabilities, files, children or program, is not queued, and is last in its parent's list; no other task changes |
| `SystemCalls.NeverGranted` | idker/src/capability/syscall.rs:51-153 | over every run, a kind of capability that was not granted at the start is held by no one |
| `SystemCalls.NobodySpawns` | idker/src/context/syscall.rs:15-28 | over every run from a state in which nobody was granted the capability to spawn, no task is registered |
| `SystemCalls.OnlyTwoTasks` | idker/src/main.rs:82-100 | over every run from the start, with an init process that has no capabilities, tasks 1 and 2 are the only ones |
| `SystemCalls.StepRegisters` | idker/src/context/registry.rs:19-30 | a step registers at most the task with the next id, and none without the capability |
| `SystemCalls.GoneTask` | idker/src/context/registry.rs:36-49 | over every run, a task that is gone is never registered again |
| `TaskTree.ExecKeepsInv` | idker/src/context/syscall.rs:30-57 | starting a program whose entry is not 0 keeps the invariant |
| `SystemCalls.ExecOutcome` | idker/src/context/syscall.rs:30-57 | each refusal with its exact condition; it succeeds if and only if the target is in the caller's list of children, has no program, the descriptor is open and the file is a program; then only the entry and the queue change |
| `SystemCalls.ExecOnlyOnce` | idker/src/context/syscall.rs:39-41 | a program with an entry other than 0 is not started a second time |
| `ZeroEntries.ZeroEntryTwice` | idker/src/context/syscall.rs:39-53 | after a program whose entry is 0, the same task can be started again, and is in the queue twice |
| `ZeroEntries.ExecExactly` | idker/src/context/syscall.rs:30-57 | starting a program leaves the queue right, whatever else is started later, if and only if its entry is not 0 |
| `ZeroEntries.SwitchFails` | idker/src/context/mod.rs:66-74 | a run from the start with one such program, after which the task at the head of the queue is gone and the lookup in the switch fails |
| `TaskTree.ExitKeepsInv` | idker/src/syscalls/mod.rs:81-89 | so does exiting |
| `SystemCalls.ExitOutcome` | idker/src/syscalls/mod.rs:81-89 | exactly the task that exits is gone, also from its parent's list; the other tasks keep all they have |
| `SystemCalls.ExitSwitches` | idker/src/syscalls/mod.rs:81-89 | the head of the queue runs next, or task 1 |
| `TaskTree.StepKeepsInv` | idker/src/syscalls/mod.rs:80-140 | every step keeps the invariant: children's lists exact, parents older, the queue free of repetition, of task 1 and of the current task, and every task that has a program current or queued |
| `Scheduling.StepMovesQueue` | idker/src/context/mod.rs:62-70 | a call of the scheduler moves each waiting task up by one; other steps leave it where it is |
| `Scheduling.ThenRuns` | idker/src/context/mod.rs:54-86 | in every run, a task at position k runs after k + 1 calls of the scheduler |
| `Scheduling.StillQueued` | idker/src/context/mod.rs:54-86 | in every run, it moves up by one position for each call before |
| `Scheduling.StillWaiting` | idker/src/context/mod.rs:54-86 | it has not run before, if no program had entry 0 |
| `Scheduling.NoTaskIsLost` | idker/src/context/mod.rs:54-86 | over every run without such programs, a started task stays current or queued until it exits |
| `Scheduling.SwitchStays` | idker/src/context/mod.rs:66-72 | the scheduler goes nowhere if and only if no other task waits |
| `SystemCalls.YieldOutcome` | idker/src/context/mod.rs:54-86 | the task at the head of the queue runs and the caller goes to its end, unless it is task 1; with an empty queue nothing changes |
| `Confinement.StepStaysConfined` | idker/src/capability/syscall.rs:51-153 | every step, in any state, keeps capabilities within what was granted, on paths from parents to children, and linear ones with one holder |
| `Confinement.StepStaysBounded` | idker/src/syscalls/memory.rs:101-111 | what a step may map was granted |
| `Confinement.ConfinedForever` | idker/src/capability/syscall.rs:51-153 | over every run: who holds what was granted, cut down at most, descends from the first holder; a capability without duplicate and share permission has one holder; what was mapped had been granted |
| `Confinement.FramesAreGranted` | idker/src/syscalls/memory.rs:90-137 | in every reachable state, the frames of a range that passes the check lie in an initially granted range |
| `Confinement.TransferMoves` | idker/src/capability/syscall.rs:113-153 | a transfer takes the capability from the giver even if it fails, gives it to the target under a new handle if it succeeds, and changes nothing else |
| `SystemCalls.TransferRefusals` | idker/src/capability/syscall.rs:113-153 | each refusal of a transfer with its exact condition |
| `SystemCalls.ShareOutcome` | idker/src/capability/syscall.rs:113-153 | sharing succeeds if and only if the target is a child, the capability has the share permission and the table can grow; the holder keeps it, the child has it under an unused handle, and nothing else changes |
| `SystemCalls.CloneOutcome` | idker/src/capability/syscall.rs:51-64 | cloning succeeds if and only if the capability has the duplicate permission and the table can grow; the copy has an unused handle, and nothing else changes |
| `SystemCalls.RestrictOutcome` | idker/src/capability/syscall.rs:85-104 | restricting succeeds if and only if the part is not empty and inside a physical range that is held; the range is then exactly that part, and nothing else changes |
| `SystemCalls.DropOutcome` | idker/src/capability/syscall.rs:106-111 | the handle is gone, and nothing else changes |
| `SystemCalls.MapPhysOutcome` | idker/src/syscalls/memory.rs:102-111 | a range is mapped if and only if a physical range that the caller holds spans it |
| `Confinement.HandleGoneForever` | idker/src/capability/syscall.rs:22-49 | over every run of the system, a handle of a task that was given out and is gone never resolves again |
| `Confinement.BootIsConfined` | idker/src/main.rs:82-100 | the start meets every invariant |

## Left out

- Locks, and whether calls can block each other: every system call is one step on one processor.
- The panics of integer arithmetic are those of a build with overflow checks; `Bits.AlignUp`, for one, gives no value where the sum overflows.
- Task ids, handles and descriptors come from counters without an upper bound; their overflow is not modelled.
- The x86_64 crate is not part of this repository: its `map_to` is written as a four-level insert, and addresses from 2^47 to 2^48 are extended by their top bit, as its addresses are. The fallback heap of the fixed-size allocator is given by its contract, and its answers are parameters.
- ListNode: the order of its two words, and that an absent next node is stored as 0, are fixed here.
- UserMemory.MountUserStack: the stack is given as the frames that hold it, at most 17 pages, and the lower half is unmapped before, as it is in a new space.
- PageRanges.ExplorePageRanges: pages are numbers; the gap between the halves, and the overflow of the end of the last page, are not modelled.
- Rewriting.PollutionFixedExactly: the half that says that something stays mapped assumes that every table below the lower half is used at one level only; `Rewriting.PollutionFixed` is the other half without that.
- Rewriting.PollutionFixKeepsUpper: assumes that the lower half shares no table with the upper half; what the pass clears in a shared table is cleared for both.
- Rewriting.GlobalizeKeepsLower: assumes the same.
- AddressSpaces.UpperStepWalks: assumes that the upper halves are trees without hidden entries, as the bootloader makes them (no recursive entry is configured, idker/src/main.rs:23-30); over other kernel tables a step that maps in an upper half is left out of the transition system, and `UserPageTable.Paging` starts from such trees.
- BootHeap.BootMemory.MapHeap: assumes that the boot tables of the upper half are a tree without hidden entries, as the bootloader makes them.
- BootHeap.BootMemory.InitHeap: assumes the same, and no more frames than the upper half has pages after the start of the heap, which is 64 TiB.
- A frame without a table in the modelled memory is taken for data; a walk through it ends.
- `HeapFrameAllocator`, which turns heap pages into frames: it relies on an offset that is not constant in a region.
- Confinement.BootIsConfined: the capabilities of the init process are a parameter; the source grants none.
- The permission to transfer is declared in the source, but no code asks for it; the model does not either.
- Kernel.TaskRegistry.ExecTask: what reading the file gives is a parameter, and the loading of its segments is `ElfLoader.MountInto`, on its own.
- The calls that only read: the own process id, the inspection of capabilities, and reading and seeking in files.
- File paths, file contents and cursors; the files of a task are a table of descriptors only.
- ElfLoader.MountInto: alignment of the header table, and all fields that loading does not use, are left out.
- Registers, stacks, interrupts, descriptor tables, TLB flushes, start of other processors, and devices.
