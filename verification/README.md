# IncroOS memory managers and boot loader: a verified model

This project models, in Dafny, the parts of IncroOS that decide where bytes live, and proves what
they keep over every run:

* the kernel heap (`kernel/memory/kmalloc.c`): first-fit allocation with splitting and two-way
  coalescing, in place in the words of `[0x180000, 0x200000)`;
* the page allocator (`kernel/memory/pmm.c`): a byte-packed bitmap and a counter;
* the virtual memory manager (`kernel/memory/vmm.c`) over the page allocator: the four-level tables of
  x86-64 (Intel SDM volume 3A, section 4.5), stored in the words of physical memory;
* the boot loader: the tables stage 2 builds, and the FAT32 file load of both stages (Microsoft FAT32
  File System Specification 1.03) in 16-bit segment:offset arithmetic;
* `uint64_to_string`.

Each imperative file of the source is a class or method that updates arrays and fields as the code
does, proved equal to a specification function; what the code is for is proved about those functions.

| file | contents |
|---|---|
| `MachineWords.dfy` | bytes and words |
| `BlockList.dfy` | the heap as a list of blocks: allocate, free, and the uniqueness of the canonical list |
| `HeapLaws.dfy` | accounting, placement, fragmentation, commuting frees, runs |
| `Heap.dfy` | the allocator on memory words |
| `PageSet.dfy`, `Pmm.dfy` | the page allocator as a set with laws over runs; the bitmap code |
| `MemoryMap.dfy` | the heap region against the page allocator |
| `Bits.dfy`, `Entries.dfy` | C's bitwise operators; page-table entries and addresses |
| `PageTables.dfy`, `VmLaws.dfy`, `Vmm.dfy`, `Translation.dfy` | the table tree, laws over runs, the code on words, the view of its callers |
| `PageWords.dfy` | every word of memory after a map or an unmap |
| `LargePages.dfy` | the memory manager's calls on pages that lie in 2 MB pages |
| `BootTables.dfy`, `KernelRuns.dfy` | the boot loader's tables; the kernel's initial state and every run from it |
| `Fat32.dfy`, `Loader.dfy` | FAT32 arithmetic and chains; the loader |
| `Decimal.dfy` | `uint64_to_string` |

## How the main results fit together

**Heap.** A heap state is the sequence of headers reached through `next`. Every operation keeps it
*canonical*: a gap-free, address-ordered tiling with no two free neighbours. `CanonicalIsUnique` shows
that a canonical list is determined by its live blocks alone. From this one fact follow, without looking
at any merge case again, that frees commute, that freeing everything restores the fresh heap, that `kfree`
right after `kmalloc` is an exact inverse, and that the heap has no memory of its history. Runs release
NULL and pointers of the list. `Heap.Allocator.Kfree` works on memory and survives one more case, a second
free of a block that was merged away in between, and shows that what it survived before it survives
afterwards.

**Virtual memory.** A table is named by the indices that lead to it; the ghost map `at` from names to
frames is injective, so each table has one frame, one level and one parent slot. A write to one entry is
visible only to pages whose indices extend that entry's name (`WalkElsewhere`); linking a zeroed table is
visible to none (`WalkLinked`). Over every legal run the tree refines a finite map from pages to frames
(`EveryRunRefines`), `vmm_get_physical` answers by that map (`EveryRunGetPhysical`), and reserved pages,
tables and client pages partition the taken pages exactly. Runs may map and unmap large pages too, as long
as the frame the code takes for a table is frame 0 or a client's. The partition is not part of what makes
a run legal; `StepConserves` proves it step by step. The start of the run is what the boot loader built
(`KernelStartIsConserved`). The methods of `Vmm.dfy` need no tree: for every address and every content of
memory they do what `RawMap` and `RawUnmap` say, which is `MapPage` and `UnmapFrom` in a tree
(`RawMapIsMap`, `RawUnmapIsUnmap`) and something else on large pages (`RawMapThroughLargePage`). That is
about decoded entries; `MapWritten` says of every word of memory what it is after a map (`MapWords`), so no
client's word changes and no table holds anything but its entries.

## Where the code does not do what it seems to

Each of these is proved, with the exact condition where the code does meet the expectation.

* `kmalloc` rounds sizes above 2^64 - 16 down to 0 and then succeeds with fewer than 40 bytes
  (`Placement`). Such a request breaks the 16-byte minimum of blocks exactly when the first free block is
  large enough to be split (`MallocKeepsMinimumIff`, `WrappingRequestGivesEmptyBlock`).
* `used_pages` counts the bitmap's pages twice where they overlap the kernel range, so
  `pmm_get_free_pages` is short by 32 on the kernel's own configuration and wraps when fewer pages are
  left (`InitCount`, `FreePagesReport`, `KernelInitUndercountsFree`).
* `pmm_free_page(0)` makes the next successful allocation look like a failure (`FreeingPageZeroLosesIt`).
* The heap is not reserved in the bitmap: the first page handed out after `pmm_init(4 GB)` is the heap's
  first header (`FirstPageInHeapIff`, `KernelFirstPageIsHeapStart`), so the first table linked erases the
  heap (`FirstTableErasesHeap`). With more than 8 GB that header lies on the bitmap itself
  (`HeapOnBitmapIff`).
* The virtual memory manager does not know large pages, and boot maps the first gigabyte with them. There
  `vmm_get_physical` reads page contents as table entries, and is right iff the word it reads happens to
  map the page to itself (`BootPagesMisread`; on otherwise zero memory it never is,
  `ClearedMemoryIsMisread`). In every state a legal run reaches, `vmm_map_page` returns true iff the address
  is at least 2 MB, because the first large page's frame 0 reads as NULL; when it does, it has stored the
  entry into the first frame of the large page, taken for a table. `vmm_unmap_page` clears that entry, of
  frame 0 in the first 2 MB. The processor goes on mapping the first gigabyte to itself
  (`BootMapSucceedsIff`, `BootUnmapClears`). No other page changes when that frame is no table; when it is
  one, exactly the pages below the entry are translated by what was stored (`StoreSeen`), so an unmap does
  no harm iff none of them was mapped (`UnmapHarmlessIff`). It can be a table: after 128 allocations the
  next one is linked at 2 MB, and unmapping an address of the second 2 MB then takes pages of the second
  gigabyte away (`LargePageCallsHarmAnother`).
* `vmm_is_mapped` denies a page mapped to frame 0 at offset 0 (`IsMappedIff`); flags with address bits
  change the mapped frame (`MapThenGetPhysical`).
* The FAT lookup keeps 16 bits, so it is exact only below cluster 16384 (`FatLookupExactIff`); the data
  address likewise (`DataSectorExactIff`); reserved top bits of an entry can end a file early
  (`StopTestIff`).
* Stage 2 loads the kernel to 0x500 and reads FAT sectors to 0x4000: the bytes it then copies
  on are intact iff those from 0x3B00 on, up to one sector, equal those of the last FAT sector read; so
  whenever they are at most 0x3B00 (`StageTwoOverwrite`), and not, for example, when it is one cluster of zeros
  (`StageTwoDamagesSample`). The comment at `boot/fat32/Boot1.asm:11-12` names another buffer; the model
  follows the code.

## Model

| member | source | states |
|---|---|---|
| BlockList.AlignSizeExact | kernel/memory/kmalloc.c:19-21 | the rounded size is the least multiple of 16 at or above the request exactly when n <= 2^64 - 16, and 0 beyond |
| BlockList.TilesAt | kernel/memory/kmalloc.c:44-50 | in a tiling, every block's address + 24 + size is the next block's address or the heap end; sizes and addresses stay multiples of 8 |
| BlockList.BlocksDisjoint | kernel/memory/kmalloc.c:41-92 | whole blocks of two positions never overlap and appear in address order, so the list is acyclic |
| BlockList.CanonicalIsUnique | kernel/memory/kmalloc.c:23-93 | two canonical lists over the same range with the same live blocks are equal |
| BlockList.FirstFit | kernel/memory/kmalloc.c:39-60 | the position returned fits and no earlier one does |
| BlockList.AllocKeepsCanonical | kernel/memory/kmalloc.c:41-57 | an allocation keeps the list canonical and adds exactly one live block, where none was |
| BlockList.FreeInTwoSteps | kernel/memory/kmalloc.c:79-92 | merging right and then left, as the code does, gives the released list |
| BlockList.FreeAtKeepsCanonical | kernel/memory/kmalloc.c:76-92 | releasing a live block keeps the list canonical and removes exactly that block from the live set |
| BlockList.FreeKeepsCanonical | kernel/memory/kmalloc.c:65-93 | the same for NULL and every block of the list, already free ones included, which change nothing |
| HeapLaws.Conservation | kernel/memory/kmalloc.c:95-111 | used + free + 24 * blocks is the size of the range |
| HeapLaws.AllocUsed | kernel/memory/kmalloc.c:54 | an allocation adds exactly the granted size to the live bytes |
| HeapLaws.FreeAtUsed | kernel/memory/kmalloc.c:77 | a release subtracts exactly the block's size, whatever merges |
| HeapLaws.Placement | kernel/memory/kmalloc.c:37-57 | a success is the lowest fitting block, inside the heap, with capacity in n..n+47 exactly when n does not wrap |
| HeapLaws.SplitIff | kernel/memory/kmalloc.c:43-56 | the block found is split iff 40 bytes are left over, and then keeps exactly the aligned size and the rest follows as a free block; else it is handed out whole; no other block changes |
| HeapLaws.FewFreeBlocks | kernel/memory/kmalloc.c:79-92 | without free neighbours there is at most one more free block than live ones |
| HeapLaws.FragmentationBound | kernel/memory/kmalloc.c:37-62 | for every aligned size a: nothing fits iff every free block is smaller than a, and then free bytes <= (live + 1) * (a - 8) |
| HeapLaws.MallocFailsIff | kernel/memory/kmalloc.c:32-62 | kmalloc returns NULL, and then changes nothing, iff the size is 0 or every free block is smaller than the aligned size |
| HeapLaws.FragmentationBoundIsTight | kernel/memory/kmalloc.c:23-62 | that bound is attained for every size and every number of live blocks that fit the heap |
| HeapLaws.FreeUndoesMalloc | kernel/memory/kmalloc.c:32-93 | kfree of what kmalloc just returned restores the whole state, total_allocated included, for every request |
| HeapLaws.FreeManyLive | kernel/memory/kmalloc.c:65-93 | after any row of frees of NULL and of blocks of the list, repeats included, the live blocks are those whose pointers were not freed |
| HeapLaws.FreesCommute | kernel/memory/kmalloc.c:65-93 | two such rows of the same pointers, in any order, give the same list |
| HeapLaws.FreeAllRestoresFresh | kernel/memory/kmalloc.c:23-28 | freeing all live pointers in any order restores the single free block |
| HeapLaws.StepKeepsInv | kernel/memory/kmalloc.c:32-93 | kmalloc of any size, and kfree of NULL or a block of the list, keep the tiling, coalescing and total_allocated = live bytes |
| HeapLaws.EveryRunIsCanonical | kernel/memory/kmalloc.c:32-111 | over every run of such operations the heap is canonical and the accounting is exact |
| HeapLaws.HistoryIndependence | kernel/memory/kmalloc.c:32-93 | runs that leave the same blocks live leave the same list and counter |
| HeapLaws.MallocKeepsMinimumIff | kernel/memory/kmalloc.c:37-52 | kmalloc(n) keeps blocks of at least 16 bytes iff n <= 2^64 - 16, or nothing is free, or the first free block is smaller than 40 |
| HeapLaws.EveryBlockAtLeast16Iff | kernel/memory/kmalloc.c:32-93 | a run keeps that minimum throughout iff each of its requests meets that condition |
| HeapLaws.EveryBlockAtLeast16 | kernel/memory/kmalloc.c:43 | so while no request wraps, no block of a reachable heap is smaller than 16 bytes |
| HeapLaws.WrappingRequestGivesEmptyBlock | kernel/memory/kmalloc.c:37-56 | kmalloc(2^64 - 1) succeeds on the fresh heap with capacity 0 |
| HeapLaws.FreshHeap | kernel/memory/kmalloc.c:12-28 | initialisation leaves one free block of 524264 bytes at 0x180000, up to 0x200000 |
| HeapLaws.FirstRequests | kernel/kernel.c:71-74 | on it, kmalloc(64) returns 0x180018 and leaves 64 bytes used and 524176 free; kmalloc(300000) succeeds |
| Heap.Allocator.KmallocInit | kernel/memory/kmalloc.c:23-30 | writes that block into three words, padding and all other words staying; the heap is valid iff the counter was 0 |
| Heap.Allocator.Kmalloc | kernel/memory/kmalloc.c:32-63 | new state and pointer are those of the specification; only sizes, links and flag bytes of headers change, and nothing on failure |
| Heap.Allocator.SplitBlock | kernel/memory/kmalloc.c:43-51 | the header writes of a split, and no other word |
| Heap.Allocator.Kfree | kernel/memory/kmalloc.c:65-93 | for every pointer kfree survives: new state is that of the specification; exactly the flag of the block and the sizes and links of joined headers may change, nothing if no block is released; what was survivable stays so |
| Heap.FreeableSurvivesKfree | kernel/memory/kmalloc.c:70-92 | NULL, a block of the list, and a block merged away that still reads free, are of these kinds after any kfree too |
| Heap.Allocator.FindPrevious | kernel/memory/kmalloc.c:84-87 | the walk ends at the block before, or at NULL for the first block |
| Heap.Allocator.KmallocGetUsed | kernel/memory/kmalloc.c:95-97 | the bytes of all live blocks |
| Heap.Allocator.KmallocGetFree | kernel/memory/kmalloc.c:99-111 | the bytes of all free blocks, completing used and headers to the heap size |
| Heap.PayloadsDisjoint | kernel/memory/kmalloc.c:56 | payloads share no word and lie inside the heap |
| Heap.PayloadUntouched | kernel/memory/kmalloc.c:43-92 | writing only headers of a tiling leaves every payload as it was |
| Heap.KmallocFrame | kernel/memory/kmalloc.c:41-57 | kmalloc moves, shrinks and overwrites no live block |
| Heap.KfreeFrame | kernel/memory/kmalloc.c:76-92 | kfree overwrites no payload and moves no other live block |
| Heap.ClientWritesAreHarmless | kernel/memory/kmalloc.c:6-10 | writes into payloads never damage the list |
| PageSet.AllocIsLeast | kernel/memory/pmm.c:65-75 | the page returned is the least free page and the only one added |
| PageSet.AllocReturnsZeroIff | kernel/memory/pmm.c:65-75 | 0 is returned iff every page is taken or page 0 is free |
| PageSet.FreeingPageZeroLosesIt | kernel/memory/pmm.c:77-88 | after freeing page 0 the next allocation takes it and returns the failure value |
| PageSet.FreeUndoesAlloc | kernel/memory/pmm.c:65-88 | freeing the page just allocated restores the state |
| PageSet.FreeClears | kernel/memory/pmm.c:77-88 | freeing any address clears its page and no other, does nothing for a clear page or one past the end, and a second time does nothing |
| PageSet.InitStaysInRangeIff | kernel/memory/pmm.c:43-60 | pmm_init sets no bit past the last page iff there are at least 384 pages |
| PageSet.BitmapPagesExact | kernel/memory/pmm.c:36-55 | the bitmap takes the least number of pages with a bit for every page |
| PageSet.InitCount | kernel/memory/pmm.c:34-60 | the counter exceeds the taken pages by min(bitmap pages, 64), or by the overshoot on smaller memory |
| PageSet.FreePagesReport | kernel/memory/pmm.c:94-96 | the reported free count is the true one less the excess, modulo 2^64; right iff the excess is 0 |
| PageSet.KernelInitUndercountsFree | kernel/kernel.c:44-45 | after pmm_init(4 GB) the report is 32 short |
| PageSet.EveryRunKeepsCount | kernel/memory/pmm.c:65-88 | the excess is constant over every run, so the counter never underflows |
| PageSet.ClientStepKeepsPartition | kernel/memory/pmm.c:65-88 | one operation keeps: taken = reserved + held, disjoint |
| PageSet.EveryLegalRunIsPartitioned | kernel/memory/pmm.c:34-88 | so does every run whose clients free only what they hold |
| PageSet.BitmapByteReserved | kernel/memory/pmm.c:36-60 | the page of every bitmap byte is one of the bitmap pages, which pmm_init sets |
| PageSet.SelfProtection | kernel/memory/pmm.c:34-88 | such runs never hand out page 0, a page below 384, a bitmap page or a held page; 0 means all pages are taken |
| Pmm.ByteUpdate | kernel/memory/pmm.c:22-32 | setting or clearing one bit of a byte changes that bit only |
| Pmm.PageAllocator.IsPageAllocated | kernel/memory/pmm.c:16-20 | true iff the page's bit is set |
| Pmm.PageAllocator.SetPageAllocated | kernel/memory/pmm.c:22-26 | sets that page's bit and no other |
| Pmm.PageAllocator.SetPageFree | kernel/memory/pmm.c:28-32 | clears that page's bit and no other |
| Pmm.PageAllocator.PmmInit | kernel/memory/pmm.c:34-63 | for every memory size: the exact bits afterwards and the specified state |
| Pmm.PageAllocator.PmmAllocPage | kernel/memory/pmm.c:65-75 | state and result are those of the set specification; bits past the last page stay |
| Pmm.PageAllocator.PmmFreePage | kernel/memory/pmm.c:77-88 | state is that of the set specification, which clears that one page; bits past the last page stay |
| Pmm.PageAllocator.PmmGetFreePages | kernel/memory/pmm.c:94-96 | for a counter that exceeds the taken pages by k: the free pages less k modulo 2^64, so the true count iff k is 0 |
| MemoryMap.FirstPageInHeapIff | kernel/memory/pmm.c:43-60 | the first page handed out lies in the heap iff memory goes past 0x180000 and the bitmap ends before 0x200000 |
| MemoryMap.KernelFirstPageIsHeapStart | kernel/kernel.c:44-45 | with 4 GB it is the heap's first page |
| MemoryMap.HeapOnBitmapIff | kernel/memory/pmm.c:55-60 | the heap's first header lies on the bitmap iff memory exceeds 8 GB by a page |
| MemoryMap.FirstTableErasesHeap | kernel/memory/vmm.c:24-36 | up to there, clearing the first table leaves no list of blocks in the heap's region |
| Entries.SamePageIff | kernel/memory/vmm.c:5-8 | two addresses have the same four indices iff they agree in bits 47..12 |
| Entries.AddressMask | kernel/memory/vmm.c:10 | the mask keeps bits 51..12 in place |
| Entries.DecodeAddress | kernel/memory/vmm.c:39-40 | what the code reads off an entry is its decoded present bit and frame |
| Entries.TableEntryDecodes | kernel/memory/vmm.c:48 | the stored table entry is present, not large, and points to the new frame |
| Entries.TableEntryValue | kernel/memory/vmm.c:48 | the word stored is the table's address plus 3: present, writable, nothing else |
| Entries.LeafEntryDecodes | kernel/memory/vmm.c:76 | the stored leaf entry is present with the address field of phys or flags |
| Entries.LeafEntryBits | kernel/memory/vmm.c:76 | every bit of the word stored: bit 0, the flags, and bits 51..12 of the address |
| Entries.LeafFrameIff | kernel/memory/vmm.c:76 | that field is phys's own iff flags adds no address bit |
| PageTables.SoftWalkIsWalk | kernel/memory/vmm.c:109-137 | the kernel's walk equals the processor's on every page that meets no large page |
| PageTables.WalkElsewhere | kernel/memory/vmm.c:48 | a change to one entry is visible only to pages below it |
| PageTables.WalkLinked | kernel/memory/vmm.c:30-48 | linking a zeroed table under an absent slot changes no translation |
| PageTables.LinkKeepsTree | kernel/memory/vmm.c:43-48 | linking a free frame keeps the tables separate |
| PageTables.GetOrCreateKeepsInv | kernel/memory/vmm.c:38-50 | get_or_create_table keeps the invariant and returns the table its slot names |
| PageTables.GetOrCreateKeepsWalks | kernel/memory/vmm.c:38-50 | it changes what no page translates to |
| PageTables.LeafWrite | kernel/memory/vmm.c:76 | storing a last-level entry changes one page only |
| PageTables.MapTranslation | kernel/memory/vmm.c:59-81 | success maps the page and keeps all others; failure keeps all |
| PageTables.MapLosesNoPage | kernel/memory/vmm.c:59-81 | the pages consumed are exactly the tables newly linked, on success and failure |
| PageTables.AtMostThree | kernel/memory/vmm.c:65-75 | at most three pages are consumed |
| PageTables.MapSucceedsIff | kernel/memory/vmm.c:65-75 | it succeeds iff as many pages are free as tables are missing |
| PageTables.MapAgainIsFree | kernel/memory/vmm.c:65-76 | under an existing last-level table a map consumes nothing and cannot fail |
| PageTables.UnmapTranslation | kernel/memory/vmm.c:83-107 | unmapping removes one page's translation, keeps the others, and touches no table or page |
| PageTables.RawMapIsMap | kernel/memory/vmm.c:59-81 | in a separate tree, away from large pages, the code's map is the tree's |
| PageTables.RawUnmapIsUnmap | kernel/memory/vmm.c:83-107 | and its unmap is the tree's |
| PageTables.RawMapThroughLargePage | kernel/memory/vmm.c:65-80 | through a 2 MB page the code takes its frame for a table: NULL for frame 0, else the entry is stored there |
| PageTables.RawUnmapThroughLargePage | kernel/memory/vmm.c:89-104 | an unmap there clears the same entry, frame 0 included |
| PageTables.MapWritesTables | kernel/memory/vmm.c:38-76 | a map writes no word outside the tables, those it links included |
| PageTables.UnmapWritesTables | kernel/memory/vmm.c:83-104 | nor does an unmap |
| PageWords.WordMapDecodes | kernel/memory/vmm.c:38-81 | the words a map leaves decode to what the total specification says |
| PageWords.MapWords | kernel/memory/vmm.c:24-81 | every word of memory after a map: the page's entry, the entries of the tables linked, 0 elsewhere in those, and all others as before |
| PageWords.UnmapWords | kernel/memory/vmm.c:83-104 | after an unmap: one word is 0 if the page's last-level table exists, and no other word changes |
| PageWords.MapWordsThroughLargePage | kernel/memory/vmm.c:65-80 | through a 2 MB page a map changes at most one word, of its first frame |
| PageWords.UnmapWordsThroughLargePage | kernel/memory/vmm.c:89-104 | and so does an unmap |
| VmLaws.StoreKeepsTree | kernel/memory/vmm.c:30-33 | writes outside the tables are invisible to every translation |
| VmLaws.StepConserves | kernel/memory/vmm.c:24-107 | each operation keeps separation and the partition reserved / tables / held; large pages may be mapped and unmapped where the frame hit is frame 0 or a client's |
| VmLaws.LargeStep | kernel/memory/vmm.c:59-107 | a map or unmap in a large page is one store into it, or nothing when mapping at frame 0 |
| VmLaws.StepKeepsBitmap | kernel/memory/vmm.c:24-107 | no table write and no client's store lands in a page that stores the bitmap |
| VmLaws.StepRefines | kernel/memory/vmm.c:59-107 | each operation acts on translations as a finite map update |
| VmLaws.Run | kernel/memory/vmm.c:24-107 | every run whose operations are legal ends in a state with the invariant and the partition, from a start that has them |
| VmLaws.EveryRunRefines | kernel/memory/vmm.c:38-137 | over every such run the tree refines the finite map for the processor, and the same pages lie in large pages |
| VmLaws.EveryRunKeepsExcess | kernel/memory/vmm.c:24-107 | over every such run used_pages exceeds the taken pages by as much as at the start |
| VmLaws.EveryRunSoftWalk | kernel/memory/vmm.c:109-137 | and for the walk of vmm_get_physical, on every page outside large pages |
| VmLaws.EveryRunKeepsBitmap | kernel/memory/vmm.c:24-107 | so after every such run memory has the words it had in those pages; the allocator's own bits are another array |
| VmLaws.LargePagesSurvive | kernel/memory/vmm.c:59-107 | no legal run changes a page that lies in a large page |
| LargePages.StoreIntoTable | kernel/memory/vmm.c:76 | an entry stored into any slot of any table: pages below the slot translate by it, no other page changes |
| LargePages.MapThroughLargePage | kernel/memory/vmm.c:59-81 | mapping inside a 2 MB page fails iff that page is at frame 0, else stores the entry into its first frame; the translation of every page afterwards |
| LargePages.UnmapThroughLargePage | kernel/memory/vmm.c:83-107 | unmapping there clears that entry; the translation of every page afterwards |
| LargePages.UnmapHarmlessIff | kernel/memory/vmm.c:83-107 | no translation changes iff no page below the slot has one, as when the frame is no table |
| LargePages.LastLevelStore | kernel/memory/vmm.c:76 | when the frame is a last-level table, one other page is mapped or unmapped and the tree stays a tree |
| Vmm.MemoryManager.constructor | kernel/memory/vmm.c:52-57 | a tree in CR3 gives a valid manager |
| Vmm.MemoryManager.AllocPageTable | kernel/memory/vmm.c:24-36 | takes the allocator's page and clears exactly the words of that frame |
| Vmm.MemoryManager.GetOrCreateTable | kernel/memory/vmm.c:38-50 | for every table address and content: the words, the allocator and the address returned are those of the specification |
| Vmm.MemoryManager.VmmMapPage | kernel/memory/vmm.c:59-81 | for every address and any tables in memory: words, allocator and result are those of the total specification; in a tree, away from large pages, also the tree's own map and invariant, and every word of memory is accounted for |
| Vmm.MemoryManager.VmmUnmapPage | kernel/memory/vmm.c:83-107 | for every address and any tables in memory: words are those of the total specification; in a tree, away from large pages, also the tree's own unmap and invariant, and one word at most becomes 0 |
| Vmm.MemoryManager.VmmGetPhysical | kernel/memory/vmm.c:109-137 | the walk's frame plus the offset, 0 when it ends early, for every address and any tables in memory |
| Vmm.MemoryManager.VmmIsMapped | kernel/memory/vmm.c:139-141 | whether that value is nonzero |
| Translation.IsMappedIff | kernel/memory/vmm.c:139-141 | mapped is reported iff there is a translation other than physical address 0 |
| Translation.MapThenGetPhysical | kernel/memory/vmm.c:59-137 | after a map the address read back, and when it is the one asked for |
| Translation.MapKeepsOthers | kernel/memory/vmm.c:59-137 | addresses differing in bits 47..12 keep their answer, and all do on failure |
| Translation.UnmapThenGetPhysical | kernel/memory/vmm.c:83-137 | an unmapped page answers 0, all others as before |
| Translation.EveryRunGetPhysical | kernel/memory/vmm.c:59-137 | after every legal run vmm_get_physical answers by the finite map, for each address outside large pages |
| BootTables.BuildTables | boot/fat32/Stage2_X86.asm:428-461 | the dwords of 0x1000..0x4FFF afterwards, and nothing else changed |
| BootTables.HugeEntryDecodes | boot/fat32/Stage2_X86.asm:454-460 | entry i is a present 2 MB page at 2 MB * i |
| BootTables.BuiltTablesDecode | boot/fat32/Stage2_X86.asm:434-461 | those dwords decode to the three tables |
| BootTables.BootIdentity | boot/fat32/Stage2_X86.asm:423-461 | addresses below 2^30 translate to themselves, other 48-bit addresses not at all |
| BootTables.BootPagesMisread | kernel/memory/vmm.c:123-136 | for a boot-mapped page the kernel's walk is right iff a word of that memory happens to say so |
| BootTables.ClearedMemoryIsMisread | kernel/memory/vmm.c:123-136 | on memory that is zero but for the boot tables, every boot-mapped page reads as not mapped |
| KernelRuns.MapOnBootPage | kernel/memory/vmm.c:65-80 | on a boot-mapped page, with the boot tables in place and any others: false and no store in the first 2 MB, else one store into the large page; which pages change, exactly |
| KernelRuns.BootMapSucceedsIff | kernel/memory/vmm.c:59-81 | in every state a legal run reaches, below 2^30 it returns true iff the address is at least 2 MB; the first gigabyte stays, and what else changes, exactly |
| KernelRuns.LargePageCallsHarmAnother | kernel/memory/vmm.c:65-107 | a legal run of allocations and one map, after which unmapping a boot-mapped page loses a page of the second gigabyte and mapping it moves that page |
| KernelRuns.UnmapOnBootPage | kernel/memory/vmm.c:83-107 | vmm_unmap_page there clears one word of the large page, frame 0 included; the first gigabyte stays, and what else changes, exactly |
| KernelRuns.BootUnmapClears | kernel/memory/vmm.c:83-107 | the same by address, in every state a legal run reaches |
| KernelRuns.EveryRunKeepsBoot | kernel/memory/vmm.c:59-107 | legal runs leave the boot tables in their frames and their large pages in place |
| KernelRuns.KernelStartIsConserved | kernel/kernel.c:44-63 | boot tables and pmm_init give the initial invariant and the identity map |
| KernelRuns.IdentitySurvivesEveryRun | kernel/memory/vmm.c:59-107 | no legal run from the kernel's start disturbs the identity map of the first gigabyte |
| KernelRuns.BitmapStaysUntouched | kernel/memory/pmm.c:34-60 | after any such run every bitmap page has the words memory had there (the bits pmm keeps are another array), is taken, and is neither a table nor a client's: no table or client writes it |
| Fat32.Le32Iff | boot/fat32/Boot1.asm:357 | four bytes read as v iff they are the bytes of v, least significant first |
| Fat32.FatLookupExactIff | boot/fat32/Boot1.asm:330-337 | the 16-bit FAT lookup is exact iff c < 16384 and the sector fits 16 bits |
| Fat32.FatLookupWraps | boot/fat32/Boot1.asm:330-337 | for every cluster number, the sector read: each sum keeps 16 bits |
| Fat32.DataSectorExactIff | boot/fat32/Boot1.asm:211-219 | the 16-bit data address is exact iff the product fits 16 bits and the address 32 |
| Fat32.DataSectorWraps | boot/fat32/Boot1.asm:211-219 | for every cluster number, the address used: the product keeps 16 bits, the sums 32 |
| Fat32.StopTestIff | boot/fat32/Boot1.asm:181-182 | the stop test agrees with the 28-bit one iff the top bits are clear or the chain ends anyway |
| Fat32.Chain16Iff | boot/fat32/Boot1.asm:176-182 | the chain followed, link by link: each entry is the next cluster and below 0x0FFFFFF8, the last is not |
| Fat32.ChainIsUnique | boot/fat32/Boot1.asm:176-182 | the first cluster determines the chain followed |
| Fat32.ImageAt | boot/fat32/Boot1.asm:209-226 | byte by byte, the image is the file's clusters in chain order, each from its own sectors |
| Fat32.ChainsAgree | boot/fat32/Boot1.asm:203-358 | on addressable clusters the loader follows the file's chain and reads its bytes |
| Loader.AdvanceExactIff | boot/fat32/Boot1.asm:304-308 | one step moves the linear address by exactly one sector iff there is no carry with ES >= 0xF000 |
| Loader.Machine.ReadSector | boot/fat32/Boot1.asm:253-316 | CX sectors land contiguously and ES:BX ends past them |
| Loader.Machine.GetNextCluster | boot/fat32/Boot1.asm:329-358 | returns the four bytes at the entry's offset of the FAT sector, least significant first, and changes only the FAT buffer |
| Loader.Machine.ReadCluster | boot/fat32/Boot1.asm:203-243 | one cluster, then one FAT sector, ES:BX past the cluster |
| Loader.Machine.LoadFile | boot/fat32/Boot1.asm:167-187 | memory after following the whole chain, in either stage's load area |
| Loader.LoadAllAt | boot/fat32/Boot1.asm:167-187 | every byte of memory after the load, for an image clear of the boot sector's fields and variables |
| Loader.LoadedIntact | boot/fat32/Boot1.asm:167-187 | an addressable file that misses the FAT buffer lies contiguously from the load address |
| Loader.StageOneIntact | boot/fat32/Boot1.asm:167-187 | so stage 1 loads every addressable file that ends below video memory intact |
| Loader.StageTwoOverwrite | boot/fat32/Stage2_X86.asm:147-158 | the n bytes copied on, of an image that ends at or below 0x7C00, are intact iff those from 0x3B00 on equal the last FAT sector's; so if n <= 0x3B00 |
| Loader.IntactIff | boot/fat32/Boot1.asm:341-352 | for any load address and any n: the first n bytes are intact iff none lies in the FAT buffer and differs from what was read there |
| Loader.StageTwoDamagesSample | boot/fat32/Stage2_X86.asm:143-163 | a well-formed one-cluster kernel whose byte 0x3B00 is changed |
| Decimal.Uint64ToString | kernel/kernel.c:7-26 | the buffer holds the numeral and a NUL and is otherwise unchanged |
| Decimal.ParseOfNumeral | kernel/kernel.c:7-26 | the numeral parses back to the value, without a leading zero |
| Decimal.NumeralOfParse | kernel/kernel.c:7-26 | converting back a parsed numeral restores it |
| Decimal.AtMostTwentyDigits | kernel/kernel.c:14-19 | 64-bit values have at most 20 digits, so temp[32] is never overrun |

## Left out

- VmLaws.Legal: runs do not contain a map or unmap in a large page whose first frame is a table or was set at boot, nor a store to such a frame (kernel code and statics, the bitmap); each such call is modelled by itself, on every state of a run (`MapThroughLargePage`, `UnmapThroughLargePage`), because afterwards tables may be shared.
- HeapLaws.Legal: runs release NULL and blocks of the list; what kfree does with any other pointer (it reads payload as a header) is not modelled, except a repeated free of a merged block (`Freeable`).
- Loader.Machine.ReadSector: a BIOS read that would cross a 64 KB boundary is taken as contiguous, and reads always succeed (the retry path and the halt are not modelled).
- Loader.Machine.LoadFile: the boot sector's code, fields and variables (0x7C00-0x7DFF), the stacks and stage 2's own code are not in the modelled memory. An image may not reach the first of these or video memory (`Clear`): a stage-2 image past 0x7C00 overwrites the fields the loader is reading, and is not modelled. The chain is a ghost argument, since on a cyclic chain the code does not terminate.
- Physical memory is one array of words for the tables and another of bytes for the bitmap; `BitmapStaysUntouched` shows that in a legal run no table write and no client's store reaches the pages the second one stands for.
- Memory past the modelled array reads as zero in the software walk, and stores there are lost.
- Table frames are reached at their physical addresses wherever they are; the boot identity map covers 1 GB only, so on the machine zeroing a table frame at or above 2^30 faults, and that fault is not modelled.
- Privilege and write permissions of entries, `invlpg`, CR3 access, the TLB, and `hlt`.
- Finding the file in the root directory, A20, CPUID, GDT, IDT and the mode switches.
- The copy of the kernel from 0x500 to 1 MB (`boot/fat32/Stage2_X86.asm:408-412`): a plain block move.
- `pmm_get_total_pages` and `pmm_get_used_pages`, which return a variable each.
- Screen and serial output, and `kMain` beyond the order of initialisation.
