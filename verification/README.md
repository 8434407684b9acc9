# Memory stack, serial line and number printing of the kernel

A Dafny model of the kernel's memory stack and of two smaller parts, with proofs of what they keep.
`dafny verify dfyconfig.toml` checks everything.

| module | what it models |
|---|---|
| Words | machine words, and physical memory as one object: 8-byte words keyed by their byte address |
| BootInfo, BootParser | the Multiboot2 boot information (section 3.6 of the Multiboot2 specification) and the walk over its tags |
| ReservedSpans, Frames | reserved spans, the search for pages that touch none, and the queue of free frames threaded through the frames themselves |
| Entries, PageNumbers, PageTree, Paging, PagingRuns | page-table entries (section 4.5 of the Intel SDM, volume 3A), the counter of virtual pages, the tables, the demand pager, and arbitrary runs of it |
| HeapModel, Allocator, AllocatorRuns | the kernel heap as a value, the code over the pager, and arbitrary runs of its callers |
| Kernel | the boot sequence and runs of the heap after it, composed of the parts above, with a boot that meets its conditions |
| Ring, Serial | the byte ring and the interrupt-driven writer |
| Numerals | numbers as text |

How it is set up:

- Code that changes state is a class with methods over one shared memory. The abstract state of each
  class (the queue `free`, the page lives `phase`, the frame uses `owner`, the heap `model`) is ghost,
  and `Valid()` ties it to the real words. Each method states its whole new abstract state.
- The free list is the segment from head to tail. It is not defined by a closing null, since a frame
  that is freed keeps whatever its first word held.
- `owner` is a map from the boot frames to one use each, so that "exactly one of free, table, page" is
  a matter of its type. `Pager.Contents` is the virtual memory of all present pages, as the hardware
  shows it; the heap is written against that view and never against physical addresses.
- Memory holds aligned words only: loads, stores and mapped words are at multiples of 8, so no two
  words overlap. `Ram.Store` and `Backed` ask for it.
- A run is a chain of states in which every two neighbours are one step apart. `OpStep` and `CallStep`
  say what each operation makes of a state, and which ones change nothing since the code's callers must
  not make them; `PagingRuns.Run` and `AllocatorRuns.Run` return the chain.
- Several bit changes of one page-table entry are one store. Each call into the pager is one atomic
  step. The function pointer handed to the tag walk is the datatype `Parser`. The status bit of the
  serial transmitter is a boolean parameter, read once per call.

- What a specification function computes is also stated in numbers, without the function's own terms:
  `AddSpanRecords`, `EligibleIff`, `PoolForIs`, `RequestIsServedIff`, `WalkInNumbers` and others. The
  words of all page-table entries are part of the pager's invariant, bit for bit.

What turned out not to hold of the code everywhere, with the exact condition and a failing input:

- The overlap test of the page search is inclusive, so a page at which the first span that it touches
  ends sends the search back to itself (`EverySearchEndsIff`, and `SearchEndsIff` for one start;
  `SearchNeverEnds`).
- A frame returned to an empty queue is lost and a frame in use is written (`ReturnRefinesQueueIff`,
  `ReturnToEmptyQueueFails`).
- A region without an eligible page appends the next eligible page, which sticks out of the region or
  lies behind it (`AppendedIsExactIff`, `PageBeyondRegion`); the free list after boot is then not safe
  (`HarvestIsBootSafeIff`, `StrayPageIsListed`).
- A tag of 2^31 bytes or more is padded as a negative number (`PaddedIff`, `HugeTagIsPaddedWrong`).
- Freeing a page that is not present hands over a null frame (`EntryNamesFrameIff`,
  `FreshPageNamesNull`).
- A fresh pool page is a null-terminated list only if its frame holds a zero where the last link goes
  (`LinkedIsListIff`, `StaleLinkIsNoList`).
- A heap allocation holds the requested bytes only if the 32-bit sum with the header overflows in
  neither reading (`GrantSufficesIff`, `HugeSizeGetsSmallBlock`, `LargeSizeGetsOnePage`).
- Freeing a big allocation goes on over pages that are not its own if and only if its size is below 2^31
  and the sum with the header is not (`BigFreedIff`, `FreeRunsBeyond`). From 2^31 bytes on it gives back
  no page at all (`FreeGivesNothingBack`). Otherwise one or two pages are never given back (`BigLeak`).
- A block freed with a size of 0 in its header, or with one that is negative as a signed number, reaches
  no free list (`ReturnBlock`, `ZeroSizeIsLost`).
- A comment in `src/c/serial.c` promises to cut data short rather than to leave holes. The branch that
  sends an old byte drops the new one and still reports success, so holes do occur
  (`KeptIsAcceptedIff`, `DropExample`). The model follows the code.

## Model

| member | source | states |
|---|---|---|
| ReservedSpans.AddSpanCovers | src/c/memory_manager.c:31-65 | a recorded span is covered afterwards if and only if the table has room, it merges, or it was covered already |
| ReservedSpans.AddSpanKeeps | src/c/memory_manager.c:47-61 | recording a span never uncovers what was covered |
| ReservedSpans.AddAllCovers | src/c/memory_manager.c:31-65 | no byte is lost: in any sequence that stays within the capacity every nonempty span ends up inside one recorded region |
| ReservedSpans.AddAllExplained | src/c/memory_manager.c:31-65 | no byte is invented: for any sequence, empty spans included, each recorded byte lies in an added span or in a gap of at most 4096 bytes between two nonempty ones with only empty ones between them |
| ReservedSpans.EmptySpanIgnored | src/c/memory_manager.c:32-33 | recording a span of size 0 leaves the spans as they were |
| ReservedSpans.AddSpanRecords | src/c/memory_manager.c:31-65 | which spans are ignored, extend the last region, become a seventh that is dropped, or one of their own, in numbers |
| ReservedSpans.AddSpanSeparated | src/c/memory_manager.c:47-61 | spans recorded in ascending order leave regions more than a page apart |
| ReservedSpans.EligibleIff | src/c/memory_manager.c:69-82 | exactly which pages pass the address test, in numbers |
| ReservedSpans.EligibleIsDisjoint | src/c/memory_manager.c:69-82 | a page that passes the address test shares no byte with anything a recorded region covers |
| ReservedSpans.JumpSkipsTouching | src/c/memory_manager.c:101-107 | one jump of the search skips only pages that touch the span it jumps over |
| ReservedSpans.SearchJumps | src/c/memory_manager.c:101-107 | where no boundary traps the search, each jump lowers the number of spans still ahead and keeps the least eligible page the same |
| ReservedSpans.EndsJump | src/c/memory_manager.c:101-107 | each jump of a search that ends goes to a later page and keeps the least eligible page the same |
| ReservedSpans.SearchEndsIff | src/c/memory_manager.c:94-110 | for regions more than a page apart, in any order, the search from a start returns if and only if an eligible page lies at or before every page-aligned region end ahead |
| ReservedSpans.EverySearchEndsIff | src/c/memory_manager.c:94-110 | for any spans, the search returns from every start if and only if no span ends at a page where it is the first one touched |
| ReservedSpans.SearchNeverEnds | src/c/memory_manager.c:69-110 | one page-aligned span of one page: no number of jumps ends the search |
| ReservedSpans.AlignUp | src/c/memory_manager.c:85-91 | the least page boundary at or above the address |
| ReservedSpans.SpanTable.Add | src/c/memory_manager.c:31-65 | the two arrays represent the spans after recording one more, which is also stated in numbers |
| ReservedSpans.SpanTable.OkAddress | src/c/memory_manager.c:69-82 | returns 0 exactly when no recorded span touches the page, else the end of the first that does |
| ReservedSpans.SpanTable.FindFreePage | src/c/memory_manager.c:94-110 | whenever the search ends at all, it returns the least nonzero page at or above the start that touches no recorded span |
| Frames.TakeRefinesQueue | src/c/memory_manager.c:180-195 | taking a frame removes the first element of the queue that head, tail, count and links represent |
| Frames.ReturnRefinesQueueIff | src/c/memory_manager.c:198-208 | returning a frame appends it to the queue if and only if it is not on it, and the queue is not empty or its stale head is that very frame |
| Frames.ReturnToEmptyQueueFails | src/c/memory_manager.c:198-208 | a concrete run in which a returned frame is lost and a word of a frame in use is overwritten |
| Frames.WritesElsewhereKeepQueue | src/c/memory_manager.c:24-28 | any writes that leave the links of listed frames alone preserve the queue |
| Frames.AppendedIsExactIff | src/c/memory_manager.c:113-161 | adding a region appends exactly its eligible pages if and only if it holds one |
| Frames.PageBeyondRegion | src/c/memory_manager.c:113-139 | a region that holds no whole page appends a page that starts in it and sticks out of it |
| Frames.ListNextEligible | src/c/memory_manager.c:139-157 | the list built so far, extended by the next page found, is exactly the eligible pages up to there |
| Frames.FrameAllocator.constructor | src/c/memory_manager.c:214-223 | an empty queue whose head is null |
| Frames.FrameAllocator.Alloc | src/c/memory_manager.c:180-195 | returns the head, which is the first frame of a queue that is not empty, and removes it; null changes nothing, and a stale head leaves no valid queue |
| Frames.FrameAllocator.Free | src/c/memory_manager.c:198-208 | the only word written is the link of the old tail; the fields represent the queue with the frame at its end exactly when it is a frame, is not listed, and the queue was not empty or its stale head is that frame |
| Frames.FrameAllocator.LinkFirst | src/c/memory_manager.c:117-133 | the first page of a region is linked behind the tail or becomes the head, and the list ends there |
| Frames.FrameAllocator.AddNext | src/c/memory_manager.c:139-160 | one turn of the loop: the next eligible page is linked if it lies in the region, else the list ends complete |
| Frames.FrameAllocator.LinkNext | src/c/memory_manager.c:153-159 | one more page is linked behind the last; the list stays exact |
| Frames.FrameAllocator.CloseList | src/c/memory_manager.c:147-152 | the list ends with a null link and is complete |
| Frames.FrameAllocator.AddAddressSpace | src/c/memory_manager.c:113-161 | whenever its searches end, the queue is the old one followed by the ascending, duplicate-free list of all eligible whole pages of the region; no word outside listed frames changes |
| BootInfo.Padd8 | src/c/multiboot_parser.c:33-37 | the least multiple of 8 at or above a size that is not negative |
| BootInfo.PaddedIff | src/c/multiboot_parser.c:33-37 | a 32-bit size is padded right if and only if it is below 2^31 or needs no padding |
| BootInfo.HugeTagIsPaddedWrong | src/c/multiboot_parser.c:33-37 | a size of 2^31 + 4 comes out as 2^31 + 16 |
| BootInfo.ElfEntriesReadBack | src/c/multiboot_parser.c:95-116 | every 64-byte section header that was laid out is recovered with its address and size |
| BootInfo.MapEntriesReadBack | src/c/multiboot_parser.c:63-93 | every 24-byte memory-map entry that was laid out is recovered |
| BootInfo.TagReadBack | src/c/multiboot_parser.c:24-37 | one tag is read back whole, and the next tag starts right behind its padding |
| BootInfo.WalkReadsBack | src/c/multiboot_parser.c:118-146 | for every list of tags the walk stops at exactly their starts in order and recovers all sections and regions |
| BootInfo.OtherTagsGiveNothing | src/c/multiboot_parser.c:63-104 | sections come only from tags of type 9 with 64-byte headers, regions only from tags of type 6 with 24-byte entries of version 0 |
| BootParser.ParseElf | src/c/multiboot_parser.c:95-116 | records the sections of the tag in memory, in order |
| BootParser.ParseSection | src/c/multiboot_parser.c:106-115 | one header records exactly its address and size, and the reader stands behind it |
| BootParser.ParseMemMap | src/c/multiboot_parser.c:63-93 | the queue holds exactly the pages that the usable entries read so far take |
| BootParser.ParseEntry | src/c/multiboot_parser.c:76-92 | one entry is harvested if and only if it is usable, and the reader stands behind it |
| BootParser.VisitTag | src/c/multiboot_parser.c:132-145 | one tag: the parser runs if and only if the tag is of its type, and what is left to do is what lies behind the tag |
| BootParser.ParseTag | src/c/multiboot_parser.c:118-146 | over the whole walk: all sections are recorded, or all usable regions are harvested, and the boot information is unharmed |
| BootParser.AppendedIsTaken | src/c/memory_manager.c:113-161 | what adding a region appends is exactly what the region takes |
| BootParser.NextRegionIsApart | src/c/multiboot_parser.c:76-89 | no frame that is already listed can be appended again by the next region |
| BootParser.ApartRegionsTakeOnce | src/c/multiboot_parser.c:76-89 | regions that lie apart and hold eligible pages take no page twice |
| BootParser.BlobKept | src/c/multiboot_parser.c:118-146 | links written into harvested frames leave the boot information readable |
| BootParser.HarvestIsBootSafeIff | src/c/multiboot_parser.c:148-155 | every listed frame is aligned, nonzero, wholly inside usable memory and disjoint from every nonempty kernel section, if and only if every usable region holds an eligible page |
| BootParser.StrayPageIsListed | src/c/multiboot_parser.c:148-155 | a map whose one usable region holds no whole page puts a page on the list that is not inside it |
| BootParser.MulParse | src/c/multiboot_parser.c:148-155 | after boot parsing the free list is exactly the pages that the usable regions take, safe if and only if each holds an eligible one; no word of memory changes but links in listed frames; under a wrong magic number nothing changes |
| Entries.ModifiedBit | src/c/page_table.c:30-35 | setting or clearing one of 64 bits changes that bit and no other |
| Entries.FlagSet | src/c/page_table.c:45-68 | setting one flag changes that field of the decoded entry only |
| Entries.AddressKept | src/c/page_table.c:30-35 | changing a flag never changes the frame address |
| Entries.AddressOred | src/c/page_table.c:70-77 | setting an address or's its bits 12 to 51 into the address that is there, and no flag changes |
| Entries.AddressSet | src/c/page_table.c:70-77 | an address put into a clear address field is read back unchanged, and no flag changes |
| Entries.ModifiedWord | src/c/page_table.c:30-35 | what setting or clearing a bit adds to the word or takes from it |
| Entries.AddressAdded | src/c/page_table.c:70-72 | an address put beside flags below bit 12 is added to them |
| Entries.SetPresent | src/c/page_table.c:45-47 | the decoded entry changes in its present flag, and the word in its lowest bit |
| Entries.SetRw | src/c/page_table.c:53-55 | the decoded entry changes in its writable flag, and the word by 2 |
| Entries.SetUs | src/c/page_table.c:57-59 | the decoded entry changes in its user flag, and the word by 4 |
| Entries.SetAllocatable | src/c/page_table.c:62-64 | the decoded entry changes in its allocatable flag, and the word by 2^52 |
| Entries.SetAddress | src/c/page_table.c:70-72 | the decoded entry changes in its frame, to the address itself when the field was clear |
| Entries.Clear | src/c/page_table.c:41-43 | a cleared entry decodes to no flag and no frame |
| PageNumbers.UnpackPacked | src/c/page_table.h:19-28 | the bit fields of an address are exactly what the page walk extracts by shift and mask |
| PageNumbers.IndexesAreDigits | src/c/page_table.c:80-92 | in the heap range the table indexes are 1 and the two base-512 digits of the page number |
| PageNumbers.PageCounter.Next | src/c/page_table.c:192-219 | the three-digit counter is a linear one: the k-th call gives page k, and null from 512 * 512 on |
| PageTree.WalkInNumbers | src/c/page_table.c:80-93 | for page n behind 1 GiB the walk reads entry 1, then entry n / 512, and ends at entry n % 512 |
| PageTree.WalkReachesEntry | src/c/page_table.c:80-93 | the walk for an address ends at the entry of its page |
| PageTree.HardwareCanWalk | src/c/page_table.c:104-170 | the three entries on the way to a backed word have exactly the bits of 7 and of an address: none that is reserved is set |
| PageTree.WalkIsInjective | src/c/page_table.c:80-93 | two addresses share an entry if and only if they share a page; every entry lies in one of the 512 leaves |
| PageTree.BuiltIsConsistent | src/c/page_table.c:95-139 | the tree built from the first 513 frames gives each boot frame one use, with every page untouched |
| PageTree.BuiltNext | src/c/page_table.c:116-138 | linking one more cleared leaf keeps the part built before |
| PageTree.FramesConserved | src/c/page_table.c:95-274 | free frames, 513 table frames and present pages always add up to all boot frames |
| PageTree.ReserveStep | src/c/page_table.c:220-224 | marking a page keeps queue, tables, entries and ownership consistent |
| PageTree.BindStep | src/c/page_table.c:143-170 | binding the first free frame keeps them consistent and moves that frame from free to the page |
| PageTree.ReleaseStep | src/c/page_table.c:258-271 | freeing a present page keeps them consistent and moves its frame to the end of the queue |
| PageTree.MappedWriteStep | src/c/page_table.c:143-170 | a write of an aligned word through a mapping damages neither a free-list link nor a table |
| PageTree.EntryNamesFrameIff | src/c/page_table.c:258-264 | the entry names a boot frame if and only if the page is present |
| Paging.Pager.UntouchedNamesNull | src/c/page_table.c:258-264 | the entry of a page that was never handed out names the null frame |
| Paging.Pager.FreshPageNamesNull | src/c/page_table.c:258-264 | so does the one at 0x40005000 when the tables were just built |
| PageTree.TranslationIsInjective | src/c/page_table.c:80-93 | no two backed virtual addresses share a physical one |
| PageTree.EntryWriteKeepsView | src/c/page_table.c:143-224 | changing the entry of one page changes no word of any other present page |
| PageTree.ReleaseKeepsView | src/c/page_table.c:258-271 | freeing one page changes no word of any other present page |
| Paging.BuildTree | src/c/page_table.c:104-139 | takes exactly the first 513 frames, and writes to them and one link only; all 512 * 512 entries start neither present nor allocatable |
| Paging.LinkRoot | src/c/page_table.c:104-113 | the first frame becomes the table of the heap range |
| Paging.ClearLeaf | src/c/page_table.c:120-131 | all 512 entries become neither present nor allocatable; queue and tree stay |
| Paging.LinkLeaf | src/c/page_table.c:116-138 | the next frame becomes the next leaf |
| Paging.Pager.PtInit | src/c/page_table.c:95-139 | the first 513 frames become root and leaves, all links are the frame plus 7 and all 512 * 512 entries 6; establishes the invariant over all boot frames, outside of which memory stays as it was at the boot for good; the frames left keep all their words |
| Paging.Pager.IsPresent | src/c/page_table.c:177-182 | true exactly for present pages |
| Paging.Pager.IsAllocatable | src/c/page_table.c:184-189 | true exactly for allocatable pages |
| Paging.Pager.AllocPage | src/c/page_table.c:192-230 | hands out the next page, which was untouched, and marks it; its entry becomes 2^52, no other word changes |
| Paging.Pager.AllocPages | src/c/page_table.c:232-254 | hands out consecutive pages and returns the first |
| Paging.UntouchedEntry | src/c/page_table.c:123-130 | the entry written is 6 and shows an untouched page |
| Paging.AllocatableEntry | src/c/page_table.c:221-224 | the entry written is 2^52 and shows an allocatable page |
| Paging.PresentEntry | src/c/page_table.c:161-167 | the entry written is the frame plus 7 and shows a page bound to that frame |
| Paging.FreedEntry | src/c/page_table.c:266-271 | the entry written is 0 and shows a page that is neither present nor allocatable |
| Paging.Pager.CanAllocate | src/c/page_table.c:143-170 | true exactly when the page is allocatable and a frame is left; then that page gets the first frame, and only its entry changes, to the frame plus 7 |
| Paging.Pager.FreePage | src/c/page_table.c:258-274 | the page is freed, its entry is 0, its frame is appended to the queue, and the contents of virtual memory are those without this page |
| Paging.Pager.FreePages | src/c/page_table.c:276-286 | frees each of the pages once, in order |
| Paging.Pager.Fault | src/c/page_table.c:143-170 | true exactly when the page is allocatable and a frame is left; then it shows the words its frame held, else nothing changes |
| Paging.Pager.Touch | src/c/page_table.c:143-170 | the first access to a page shows the words its frame held, and leaves all others |
| Paging.Pager.Store | src/c/page_table.c:80-93 | virtual memory behaves as memory: a store of an aligned word changes that word only |
| PagingRuns.Step | src/c/page_table.c:143-274 | one reservation, fault, free or store does exactly what its step says, and keeps frames and page lives |
| PagingRuns.Run | src/c/page_table.c:143-274 | every run is the chain of the steps of its operations; it keeps the boot frames with one use each, conserves their number, moves pages only forward in their lives, and hands out one address for each reservation, none twice |
| HeapModel.GrantSufficesIff | src/c/allocator.c:101-121 | header and requested bytes fit what is set aside if and only if size + 12 is below 2^31 |
| HeapModel.HugeSizeGetsSmallBlock | src/c/allocator.c:101-113 | 0xFFFFFFF8 bytes are served from the 64-byte pool |
| HeapModel.LargeSizeGetsOnePage | src/c/allocator.c:71-94 | 2^31 bytes get a single page |
| HeapModel.BigFreedIff | src/c/allocator.c:139-154 | a free gives back no more pages than were reserved if and only if size + 12 is below 2^31 or size is not |
| HeapModel.FreeRunsBeyond | src/c/allocator.c:139-154 | 2^31 - 8 bytes reserve one page and free 524288 |
| HeapModel.FreeGivesNothingBack | src/c/allocator.c:139-154 | 2^31 bytes reserve one page and free none |
| HeapModel.BigLeak | src/c/allocator.c:139-154 | for all those sizes, reserved minus released pages is 1 or 2, and when it is 2; what is reserved |
| HeapModel.SignedFitsBlock | src/c/allocator.c:174-179 | a size that selects a pool never exceeds one block, so the freeing loop goes round at most once |
| HeapModel.PoolFor | src/c/allocator.c:102-110 | the smallest pool that holds the sum of size and header |
| HeapModel.PoolForIs | src/c/allocator.c:102-110 | the pool by the 32-bit sum of size and 12, against 64, 512 and 2048 |
| HeapModel.GrantedIs | src/c/allocator.c:71-121 | how many bytes or pages are set aside, in numbers |
| HeapModel.BigFreedIs | src/c/allocator.c:139-154 | how many pages are given back, in numbers |
| HeapModel.TilesAreBlocks | src/c/allocator.c:48-57 | the blocks cut from a page are adjacent, distinct and fill it in address order |
| HeapModel.RefilledCuts | src/c/allocator.c:44-58 | a refilled list is the 64, 8 or 2 blocks of the page one behind the other; nothing else changes |
| HeapModel.LinkedIsListIff | src/c/allocator.c:48-57 | the linked blocks are a null-terminated list if and only if the last link word was zero |
| HeapModel.StaleLinkIsNoList | src/c/allocator.c:48-57 | two linked blocks in a frame whose last link word held 77 are no list |
| HeapModel.RefillStep | src/c/allocator.c:44-58 | cutting a new page into an empty pool keeps the heap a partition |
| HeapModel.PopStep | src/c/allocator.c:123-134 | taking the first block and writing its header keeps the heap a partition |
| HeapModel.PushStep | src/c/allocator.c:166-179 | linking a block behind the tail keeps the heap a partition |
| HeapModel.LoseStep | src/c/allocator.c:168-174 | a block that is not linked anywhere leaves the heap a partition |
| HeapModel.BigStep | src/c/allocator.c:71-99 | setting aside pages and writing the header keeps the heap a partition |
| HeapModel.BigFreeStep | src/c/allocator.c:139-154 | giving up a big allocation keeps the heap a partition |
| HeapModel.PayloadStep | src/c/allocator.c:123-134 | a caller's writes behind its header keep the heap a partition |
| HeapModel.BlocksArePartitioned | src/c/allocator.c:44-180 | each block of a pool page is in one state, and stands on its own pool's list, once, exactly when it is free |
| HeapModel.ExtentsApart | src/c/allocator.c:44-180 | no two blocks or big allocations overlap, across all pools and the big path |
| HeapModel.LivePayloadsApart | src/c/allocator.c:101-135 | no byte belongs to two live allocations |
| HeapModel.PopSpares | src/c/allocator.c:123-134 | exactly one allocation is new, and every word of every live one is unchanged |
| HeapModel.PushSpares | src/c/allocator.c:166-179 | exactly one allocation is gone, and every word of every other is unchanged |
| HeapModel.RefillSpares | src/c/allocator.c:44-58 | the live allocations stay the same, word by word |
| HeapModel.BigSpares | src/c/allocator.c:71-99 | exactly one big allocation is new, and every word of every live one is unchanged |
| Allocator.KernelHeap.constructor | src/c/allocator.c:36-42 | the pools start empty |
| Allocator.KernelHeap.PutHeader | src/c/allocator.c:127-131 | 12 bytes are written, and nothing beside them |
| Allocator.KernelHeap.LinkBlocks | src/c/allocator.c:48-57 | the loop links the blocks of the page in address order; the first write binds the first free frame |
| Allocator.KernelHeap.AllocateForPool | src/c/allocator.c:44-58 | the empty pool's list becomes the blocks of one new page, in numbers |
| Allocator.KernelHeap.Traverse | src/c/allocator.c:61-67 | terminates at the true tail of the list |
| Allocator.KernelHeap.TakeBlock | src/c/allocator.c:123-134 | the first block of the pool becomes live with this size |
| Allocator.KernelHeap.ReturnBlock | src/c/allocator.c:166-179 | the block becomes the new tail of its pool, or is lost when its size is not positive as a signed number |
| Allocator.KernelHeap.KMallocBig | src/c/allocator.c:71-99 | reserves consecutive pages for header and payload and backs the first |
| Allocator.KernelHeap.KMalloc | src/c/allocator.c:101-135 | serves the smallest pool that fits after at most one refill, or whole pages: in numbers, 12 above a block in a page of that pool; how many pages and frames that takes; the address is new and no live allocation changes |
| Allocator.FreedIsListedIff | src/c/allocator.c:166-179 | a freed block ends up at the end of its own list if and only if its size is at least 1 and below 2^31; no other list changes |
| Allocator.ZeroSizeIsLost | src/c/allocator.c:166-179 | a block that was given for 0 bytes is on no list after it is freed |
| Allocator.KernelHeap.KFreeBig | src/c/allocator.c:139-154 | frees pages of that allocation only, each once, and none from 2^31 bytes on; no other allocation changes |
| Allocator.KernelHeap.KFree | src/c/allocator.c:156-180 | exactly the allocation of that address is gone; no other changes |
| Allocator.KernelHeap.PayloadStore | src/c/allocator.c:123-134 | a caller's store into its own allocation changes one word and keeps the heap |
| Allocator.KernelHeap.PayloadTouch | src/c/page_table.c:143-170 | the first access to a further page of a big allocation keeps the heap and all contents |
| AllocatorRuns.FreedBlockComesLast | src/c/allocator.c:101-180 | the same for the code called in a row: after a free, the pool hands out every block that was free before, in order, and then the freed one |
| AllocatorRuns.StepTakesFirst | src/c/allocator.c:101-180 | a call served from a pool takes its first block; no other call takes any of its free blocks or moves them |
| AllocatorRuns.PoolServesInOrder | src/c/allocator.c:101-180 | in every run the block at place i of a pool's list is handed out by exactly the (i + 1)-th call served from that pool, whatever calls lie between |
| AllocatorRuns.FreedServedLast | src/c/allocator.c:101-180 | a block freed behind n free ones is handed out again by exactly the (n + 1)-th call served from its pool, whatever calls lie between |
| AllocatorRuns.CanAllocate | src/c/allocator.c:101-119 | tells exactly when an allocation will be served |
| AllocatorRuns.RequestIsServedIff | src/c/allocator.c:71-135 | exactly when a request is served, and at which address, in numbers |
| AllocatorRuns.FiveMillionBytes | src/c/main.c:73-74 | a request of 5000000 bytes is served whenever 1222 pages are left and a frame is free |
| AllocatorRuns.BlockIsFreedIff | src/c/allocator.c:156-180 | a held block is freed exactly when the list of its pool is not empty |
| AllocatorRuns.PagesAreFreedIff | src/c/allocator.c:139-154 | held pages are freed exactly when those to give back are its own and present and a frame is free, or when none is given back |
| AllocatorRuns.CanRelease | src/c/allocator.c:139-180 | tells exactly when what the caller holds can be freed: no null pointer is read, no frame goes to an empty queue, and only present pages of its own are freed |
| AllocatorRuns.StepSpares | src/c/allocator.c:101-180 | a step leaves all words of the allocations that its call does not name |
| AllocatorRuns.Step | src/c/allocator.c:101-180 | one allocation, free, store or first access does exactly what its step says |
| AllocatorRuns.Run | src/c/allocator.c:101-180 | every run is the chain of the steps of its calls, through good states only; what no call names is still held, word by word; the frames below stay the same and are conserved |
| Kernel.HarvestSuitsTables | src/c/main.c:27-31 | what the boot parser leaves is what the page tables need |
| Kernel.Boot | src/c/main.c:27-31 | from the hand-over to a working pager: its frames are exactly the eligible pages of usable memory, and all are safe; frames still free keep all words but their links |
| Kernel.BootAndRun | src/c/main.c:27-31 | after boot, a run of heap calls is the chain of the steps of its calls from the empty heap on; every word of virtual memory stands in a frame of usable memory that overlaps no nonempty kernel section; and no word of the kernel image changes but the one link to the new tables |
| Kernel.FramesSpareImage | src/c/main.c:27-31 | if only safe frames and that link change, the kernel image does not |
| Kernel.LowMemoryIsCountable | src/c/memory_manager.c:24-28 | usable memory below 2^44 has fewer pages than the 32-bit counter counts |
| Kernel.ExampleBoots | src/c/main.c:27-31 | a concrete memory, with 34 given cells of boot information in it, meets every condition of the boot |
| Kernel.ExampleServes | src/c/allocator.c:101-135 | booted from that memory, a first request of 100 bytes returns 0x4000100C |
| Ring.Buffer.constructor | src/c/buffer.c:6-10 | an empty ring |
| Ring.Buffer.Consume | src/c/buffer.c:12-22 | removes the oldest byte of a queue; nothing on an empty ring |
| Ring.Buffer.Produce | src/c/buffer.c:24-34 | appends to the queue unless 32 bytes wait |
| Ring.Buffer.Consumeable | src/c/buffer.c:36-44 | the number of bytes waiting |
| Ring.Buffer.Produceable | src/c/buffer.c:46-54 | the number of bytes that still fit |
| Serial.ReadyMeansSent | src/c/serial.c:74-136 | in any run, as many waiting bytes have been sent, oldest first, as the transmitter was ready, until all have |
| Serial.InterruptsDrain | src/c/serial.c:74-88 | n ready interrupts send exactly the first n bytes that wait |
| Serial.EventKeepsOrder | src/c/serial.c:74-136 | sent followed by waiting bytes grows at its end by the stored byte or not at all |
| Serial.RunKeepsOrder | src/c/serial.c:74-136 | under any interleaving of writes and interrupts it is exactly the stored bytes in order, and at most 32 wait |
| Serial.StoredIsSubsequence | src/c/serial.c:105-136 | the stored bytes are an in-order, duplicate-free part of the bytes passed in |
| Serial.AcceptedGrows | src/c/serial.c:105-136 | fewer bytes are stored than accepted if and only if one is dropped |
| Serial.KeptIsAcceptedIff | src/c/serial.c:105-136 | they are the accepted bytes if and only if the run never sends an old byte in place of keeping a new one |
| Serial.DropExample | src/c/serial.c:105-136 | a run in which an accepted byte is lost between two that are sent |
| Serial.Writer.WriteC | src/c/serial.c:105-136 | what each branch does to the wire and the ring; a byte is refused exactly when 32 wait and the transmitter is not ready |
| Serial.Writer.TriggerWrite | src/c/serial.c:74-88 | exactly the oldest byte goes to the wire when the transmitter is ready and one waits, else nothing changes |
| Serial.Writer.HandleAll | src/c/serial.c:74-136 | the code, over any interleaving of writes and interrupts, ends in the state of the run, and the bytes it reported success for are the accepted ones |
| Numerals.DigitsReadBack | src/c/lib.c:85-94 | the digits, lowest first and then reversed, have the value of the number |
| Numerals.DigitCount | src/c/lib.c:85-94 | there are exactly as many digits as the number needs |
| Numerals.TopDigitNotZero | src/c/lib.c:85-94 | the last digit produced is not zero |
| Numerals.NumeralReadsBack | src/c/lib.c:66-108 | reading the text back gives the number, signed in base 10 and unsigned otherwise |
| Numerals.NumeralIsShortest | src/c/lib.c:66-108 | for every number, one digit besides the sign or no leading zero; the sign only for negative numbers in base 10; 0 is a single 0 |
| Numerals.DigitIs | src/c/lib.c:86-89 | the digits are 0 to 9 and then a to z |
| Numerals.ExampleNumerals | src/c/lib.c:66-108 | two texts |
| Numerals.PutDigits | src/c/lib.c:85-94 | the division loop writes the digits lowest first |
| Numerals.ReverseFirst | src/c/lib.c:98-107 | the swapping loop reverses the cells written and no others |
| Numerals.ToString | src/c/lib.c:66-108 | the array holds the text of the number and a closing zero |

## Left out

- The stack pages of `src/c/page_table.c:288-326` and the diagnostic walk of
  `src/c/memory_manager.c:164-177`.
- Port I/O, TLB behaviour, interrupt controllers, software interrupts on failure, assembly stubs, and
  the saving and restoring of the interrupt flag around pager calls.
- The identity-mapped first GiB and the null page (`src/c/page_table.c:96-102`): the boot tables map
  2 MiB pages there, so the four-level walk does not apply. The walk is stated for 1 GiB to 2 GiB.
- Screen, keyboard, formatted printing, logging, the other helpers of `src/c/lib.c`, and the set-up
  and string output of the serial line.
- Loads and stores narrower than 8 bytes: the size in a header is the low half of its word.
- ReservedSpans.SearchEndsIff: for regions within a page of each other, whether one given start is
  trapped is said by the search itself (`Ends`); the condition for all starts at once is exact.
- ReservedSpans.SpanTable.FindFreePage: span ends and searched addresses stay three pages below 2^64,
  where the code's additions would wrap.
- Frames.FrameAllocator.AddAddressSpace: asks that the searches it runs end, and that no page of the
  region is listed already, which would be listed twice.
- PageNumbers.PageCounter.Next: stops before the 16-bit high digit would wrap, long after the last
  page was handed out.
- BootParser.MulParse: asks for boot information below 2^31 bytes that fits its own sizes, at most 6
  merged spans, and usable regions that take no page twice and none that holds the information, with
  searches that end.
- Kernel.Boot: asks that every usable region holds an eligible page, for 513 frames for the tables, fewer than 2^32 in all so that the counter is exact,
  all below 2^52 so that an entry can hold them, and the loader's page table inside the kernel image.
- Paging.Pager.PtInit: asks for the same 513 frames; on fewer the code would write its tables over the
  null page.
- Paging.Pager.FreePage: asks for a present page and a free frame; see EntryNamesFrameIff and
  ReturnRefinesQueueIff.
- Paging.Pager.FreePages: asks for present pages only, as FreePage does.
- Allocator.KernelHeap.AllocateForPool: asks for a zero last link word; see LinkedIsListIff. The null
  page that the code would cut when the counter is exhausted is excluded.
- Allocator.KernelHeap.KMallocBig: asks for pages left to hand out; past the last one the code would
  write its header to the null page.
- Allocator.KernelHeap.KMalloc: asks for what AllocateForPool or KMallocBig need, when they are called.
- Allocator.KernelHeap.Traverse: asks for a pool list that is not empty; on an empty one the code reads
  through a null pointer.
- Allocator.KernelHeap.ReturnBlock: asks for the same.
- Allocator.KernelHeap.KFree: asks for what ReturnBlock or KFreeBig need.
- Allocator.KernelHeap.KFreeBig: excludes the 12 sizes from 2^31 - 12 to 2^31 - 1, for which the code
  frees pages beyond the allocation, up to pages that do not exist (see BigFreedIff); and asks that the
  pages it frees were touched.
- Numerals.ToString: bases 2 to 36, and not the minimum value in base 10, whose negation overflows.
