# A verified model of the evos kernel's memory, printing and scheduling core

evos is a small 32-bit x86 kernel written in C. This project models the parts of it whose correctness is hard to see
from the code, and proves what they promise:

- **The kernel heap** (`OrderedArray.dfy`, `Heap*.dfy`). `heap_alloc`, `heap_free` and growth keep three views of one
  arena in agreement: boundary tags in raw memory, a gap-free sequence of blocks, and an index of holes whose order is
  read through memory and repaired by a single backward bubble pass. `KernelHeap.Heap` runs on a byte array and is
  proved against functions on a `Layout` (blocks and index); the laws are proved about those functions, over single
  calls and over whole runs. `HeapAsWritten.dfy` holds the same code on tags alone, defined on damaged heaps too;
  `HeapAgreement.dfy` proves that on well-formed heaps it does what the layout functions say.
- **Frames, paging, boot and cloning** (`Bitset.dfy`, `Frames.dfy`, `Paging.dfy`, `Boot.dfy`, `Cloning.dfy`,
  `Sharing.dfy`, `TaskSpaces.dfy`). A packed bitset refines a set, two-level tables refine a flat map, the
  identity-mapping loop ends although its own work moves its bound, and `clone_directory` preserves the meaning of
  every address but that of the cloning buffer, stops if and only if there are fewer free frames than pages to copy,
  and isolates original and copy on all pages if and only if there was nothing to copy and the buffer had a frame of
  its own. Otherwise exactly one private page of the copy leaks, through the buffer page.
- **Numbers and formats** (`Numbers.dfy`, `Monitor.dfy`, `Format.dfy`). Digits read back to the value printed, the two
  families of printers agree, and `vsprintf` is the concatenation of its rendered pieces.
- **Tasks** (`Tasks.dfy`). Round robin over every interleaving of creation and switching.

Integers are unbounded in the model. A 32-bit wrap is written out where it matters (`current_task + 1`, the negation in
`append_number`, the width read by `skip_atoi`); for heap sizes it is excluded (see Left out). A `panic`, a failed
`assert` and a read outside an object are outcomes (`Panic(fault)`); an assertion that cannot fail is proved in place.
`dafny verify dfyconfig.toml` checks the whole project.

## Where the code departs from its intent

Each point is modelled as the code has it, with the exact condition under which the intended property holds.

- `src/kheap.c:212-223`: the left hole of an aligned split gets size 0, because two names denote one header.
  `KernelHeap.Heap.Alloc` is the code as written: it leaves the heap valid if and only if the block starts where its
  hole did (`ValidIffNoOffset`). The kernel's first heap allocation, the directory cloned at the end of `init_paging`,
  is such a request (`FirstCloneDamages`), and it is not harmless: `PayloadsOverlap` is a run of eight calls from
  there that leaves two outstanding payloads overlapping. `KernelHeap.Heap.AllocCorrected` is the same code with that
  line corrected; there an aligned request always keeps the heap valid.
- `src/kheap.c:253`: an aligned request that leaves 1 to 20 bytes behind it stops (`AlignedPanics` is an equivalence,
  `AlignedRemainderStops` a family of inputs).
- `src/kheap.c:149-154`: the initial hole has no footer, so the block behind it does not merge with it when freed;
  `RequestReleaseCoalescedIff` says exactly when that happens on a new heap, and `LargeFirstRequest` is a request of
  60000 bytes on the kernel's own.
- `src/kheap.c:301-316`: one pass after a left merge does not always restore the order of the index, and a right merge
  after it makes no pass at all. `FreeInOrderIff` is the exact condition. `RunBreaksOrder` is a run of the kernel's own
  heap that fails it, after which `find_hole` does not find the smallest hole that fits, as its comment promises; it
  does while the index is sorted (`FirstFitSmallest`).
- `src/string.c:60-107`: right-aligned numbers are padded with zeros whatever the flags say (`ZeroFlagIgnored`), so the
  character chosen is used if and only if it is a zero or no padding is needed (`PaddedAsChosenIff`; `FiveInThree` is
  an input). The padding loop at `src/string.c:98-102` is in the model and proved to do nothing (`FillScratch`).
- `src/string.c:45-58`: the comment that the scratch buffer cannot overrun is true up to width 62 (`OverrunIff`;
  `PrefixedOverruns` is an input).
- `src/string.c:109-113`: a left-aligned number padded with zeros on the right reads as another number; a text
  determines its value if and only if this is not the case (`NumberReadsBack`, `AmbiguousTexts`).
- `src/mm/frame.c:10-15`: the bitset is rounded up to 32 frames, so a frame that does not exist is issued once all
  others are taken, if and only if 32 does not divide their number (`NoFramesBeyondIff`, `FrameBeyond`).
- `src/mm/paging.c:180-189`: copying a page leaves the cloning buffer on the frame it was copied to, and both
  directories share the table of the buffer page. `IsolatedIff` is the exact condition under which they are isolated
  all the same, `LeaksOne` says what is exposed when they are not (one page), `WritesStayPrivate`, `PrivatePages` and
  `LeakIsReal` what this means for any interleaving of writes. `StackLeak` and `BootAndLeak` are the input: one page
  mapped, one clone, one write at `0xF0000000`, and the copy reads something else.
- `src/task/task.c:14` and `src/mm/paging.h:12`: that page is the user stack of every task. `task_create` copies the
  task's image through it, so a task's stack and its code are one page (`CreateSpace`), and after the two creations of
  `src/main.c:120-122` a write by the first task to its stack changes the code of the second (`TwoTasks`,
  `BootTwoTasks`).
- `src/task/task.c:124-127`: with 256 tasks the switch out of task 255 reads past the table (`FullTableStops`;
  `FillTable` is a run).

## Model

| member | source | states |
|---|---|---|
| OrderedArrays.PassKeepsMultiset | src/datastructs/ordered_array.c:61-70 | a backward pass loses and invents nothing |
| OrderedArrays.PassBringsMinimum | src/datastructs/ordered_array.c:61-70 | whatever the order was, a pass brings an element of least key to the front |
| OrderedArrays.PassOnSorted | src/datastructs/ordered_array.c:61-70 | a sorted array is left alone |
| OrderedArrays.PassPlaces | src/datastructs/ordered_array.c:31-38 | an element too far right goes behind every element of at most its key, and nothing else moves |
| OrderedArrays.PassRestoresOrder | src/datastructs/ordered_array.c:31-38 | order is restored after an append or after one element shrank |
| OrderedArrays.PassMovesGrownOnce | src/datastructs/ordered_array.c:61-70 | a single grown element moves at most one place right |
| OrderedArrays.GrownRepairedIff | src/datastructs/ordered_array.c:61-70 | a pass repairs a grown element if and only if it outgrew at most one neighbour |
| OrderedArrays.PassesKeepMultiset | src/datastructs/ordered_array.c:61-70 | so do k passes |
| OrderedArrays.PassesSettleFront | src/datastructs/ordered_array.c:61-70 | k passes over any array put its k smallest elements in order at the front |
| OrderedArrays.InsertKeepsSorted | src/datastructs/ordered_array.c:31-38 | insertion into a sorted array leaves it sorted |
| OrderedArrays.RemoveKeepsSorted | src/datastructs/ordered_array.c:40-50 | so does removal |
| OrderedArrays.OrderedArray.ChangedElement | src/datastructs/ordered_array.c:61-70 | the swapping loop computes one pass |
| OrderedArrays.OrderedArray.Insert | src/datastructs/ordered_array.c:31-38 | stops exactly on a full array; otherwise appends and makes one pass |
| OrderedArrays.OrderedArray.Remove | src/datastructs/ordered_array.c:40-50 | stops exactly out of bounds; otherwise drops that one entry and keeps the order of the rest |
| OrderedArrays.OrderedArray.Index | src/datastructs/ordered_array.c:52-58 | the entry, or a stop out of bounds |
| HeapLayout.AlignOffsetLeast | src/kheap.c:33-47 | the offset aligns the payload, is 0 or above 20, and is the least such |
| HeapLayout.FirstFitComplete | src/kheap.c:51-78 | a hole is found if and only if some hole fits, sorted index or not |
| HeapLayout.FirstFitSmallest | src/kheap.c:51-78 | with a sorted index no smaller hole fits, aligned or not |
| HeapAlloc.CarveRoom | src/kheap.c:189-209 | the block stays inside the chosen hole, and with a nonzero offset the absorb branch is never taken |
| HeapAlloc.GrowWellFormed | src/kheap.c:163-183 | growth keeps tiling and index, and appends one hole over the new pages |
| HeapAlloc.GrowthFits | src/kheap.c:163-187 | after growth the second search succeeds, aligned or not, and picks the new hole |
| HeapAlloc.AllocIsCarve | src/kheap.c:159-200 | every allocation is a split of a fitting hole of the heap or of the grown heap |
| HeapAlloc.UnalignedPanics | src/kheap.c:159-271 | an unaligned request stops if and only if no hole fits and there is no room to grow or no index entry left; no assertion fails |
| HeapAlloc.AlignedPanics | src/kheap.c:248-255 | with a hole found, an aligned request stops if and only if 1 to 20 bytes remain behind it or the index is full |
| HeapAlloc.AllocFaults | src/kheap.c:159-271 | every way an allocation can stop: no room, no index entry, or for aligned ones the assertion at line 253 |
| HeapAlloc.AlignedRemainderStops | src/kheap.c:251-253 | inputs on which the assertion fails, for every size of arena |
| HeapAlloc.AllocWellFormed | src/kheap.c:159-271 | tiling without gap or overlap, and an index holding each hole once, are kept |
| HeapAlloc.AllocServes | src/kheap.c:189-271 | exactly one block becomes live: long enough, behind the pointer returned, page-aligned if asked |
| HeapFree.FreeWellFormed | src/kheap.c:274-342 | a free keeps tiling and index; it stops if and only if neither side merges and the index is full |
| HeapFree.FreedBlocks | src/kheap.c:291-334 | the block and whichever neighbours merge become one hole; no other block changes |
| HeapFree.FreeReleases | src/kheap.c:274-342 | exactly the freed block stops being live |
| HeapFree.FreeCoalescedIff | src/kheap.c:291-334 | no two adjacent holes remain, if and only if the block before is not a hole without a footer |
| HeapLaws.AllocCoalesced | src/kheap.c:163-271 | unaligned allocation never brings two holes together, even when growth appends an unmerged one |
| HeapLaws.AlignedCoalescedIff | src/kheap.c:163-228 | aligned allocation, line 223 corrected, keeps holes apart if and only if it did not grow the heap behind a hole |
| HeapLaws.DrainedIsOneHole | src/kheap.c:291-341 | a coalesced heap with no live block is one hole |
| HeapLaws.AllocFreeRoundTrip | src/kheap.c:195-341 | freeing at once restores blocks and hole set, in the split and the absorb case |
| HeapOrder.AllocInOrder | src/kheap.c:159-271 | allocation keeps the index sorted by size |
| HeapOrder.FreeInOrder | src/kheap.c:311-341 | so does every free that does not merge to the left |
| HeapOrder.FreeInOrderIff | src/kheap.c:291-334 | a free that merges to the left keeps it sorted if and only if no entry left behind the hole is smaller than the merged hole |
| HeapDisorder.RunBreaksOrder | src/kheap.c:298-308 | a run of eight calls on the kernel's heap, from creation, after which the index is out of order and a request of 7000 bytes gets a hole of 50030 although one of 7234 fits |
| HeapOrder.HolesAtMostOne | src/kheap.c:23-28 | an address starts at most one hole, so the index has no duplicates |
| HeapRuns.CreateWellFormed | src/kheap.c:124-157 | the new heap is one hole, indexed, tiled and sorted |
| HeapRuns.KernelRegion | src/kheap.h:7-12 | the kernel's own heap region meets the conditions of the run theorems |
| HeapRuns.StepSound | src/kheap.c:159-342 | each request, aligned or not, and each release keeps tiling, index and the account of live pointers |
| HeapRuns.RunSound | src/kheap.c:124-342 | so does every run; without aligned requests it can stop only for want of room or index entries, or at a release of a pointer that is not outstanding at that point |
| HeapRuns.RunFromCreation | src/kheap.c:124-342 | from creation, if the first request fits the initial hole, no two adjacent blocks are both holes after any run of unaligned requests and releases |
| HeapRuns.DrainInAnyOrder | src/main.c:16-41 | releasing every live pointer in any order leaves one hole spanning the arena |
| HeapRuns.DrainReturns | src/kheap.c:274-342 | and these releases all return while the index has room for them, or while a tidy heap has at most 4096 holes and live blocks |
| HeapRuns.PayloadsDisjoint | src/kheap.c:189-271 | live payloads are inside the arena, pairwise disjoint and as long as requested |
| HeapRuns.SizesConserved | src/kheap.c:124-342 | block sizes add up to the length of the arena |
| HeapRuns.TooLargeFirst | src/kheap.c:149-183 | a first request too large for the initial hole lands behind it, and the hole keeps no footer |
| HeapRuns.RequestReleaseCoalescedIff | src/kheap.c:149-341 | requesting and releasing at once on a new heap leaves holes apart if and only if the request fitted the initial hole |
| HeapRuns.LargeFirstRequest | src/kheap.c:149-341 | an input: 60000 bytes requested and released on the kernel's new heap leave two adjacent holes |
| HeapTags.SpliceTagged | src/kheap.c:202-271 | writes under a run of blocks that tag its replacement leave the whole arena tagged |
| HeapTags.TaggedKeys | src/kheap.c:23-28 | the comparator, reading memory, sees the sizes of the layout |
| HeapMemory.PokeKeepsConsistent | src/kheap.c:189-271 | a caller that writes inside its payload cannot spoil a tag |
| HeapMemory.OperationKeepsConsistent | src/kheap.c:159-342 | an operation that writes to no block that stays, and tags the blocks that are new, leaves tags, tiling and index in agreement |
| HeapMemory.TraceConsistent | src/kheap.c:124-342 | so they agree after every action of any trace |
| HeapMemory.PayloadSurvives | src/kheap.c:124-342 | over any trace a byte of a payload that stays live changes only when its owner writes to it |
| KernelHeap.HeapCreate | src/kheap.c:124-157 | stops if and only if an end is not page-aligned; otherwise the heap stands for the created layout |
| KernelHeap.Heap.FindHole | src/kheap.c:51-78 | the first entry of the index that fits, or -1 |
| KernelHeap.Heap.Expand | src/kheap.c:80-100 | its two assertions and the new end |
| KernelHeap.Heap.GrowHeap | src/kheap.c:163-183 | refines growth of the layout and writes only to the new pages |
| KernelHeap.Heap.LocateHole | src/kheap.c:161-187 | refines search and growth; the assertion after growth holds |
| KernelHeap.Heap.SplitFront | src/kheap.c:202-228 | the hole left in front, its entry, and its size: 0 as written |
| KernelHeap.Heap.PlaceBlock | src/kheap.c:238-271 | tags of block and right hole, the entry of the latter, and the assertion at line 253 |
| KernelHeap.Heap.Alloc | src/kheap.c:159-271 | heap_alloc as written: refines the layout function, writes to no block that stays, and leaves the heap valid if and only if the offset is 0 |
| KernelHeap.Heap.ValidIffNoOffset | src/kheap.c:212-223 | the size 0 written by line 223 contradicts the tiling, and nothing else does |
| KernelHeap.FirstCloneOffset | src/mm/paging.c:120-122 | on the kernel's new heap an aligned request of 8196 bytes returns with an offset of 4084 |
| KernelHeap.FirstCloneDamages | src/mm/paging.c:85-93 | so the kernel's first heap allocation leaves its heap invalid |
| HeapAsWritten.PayloadsOverlap | src/kheap.c:159-342 | with the code as written, eight calls on the kernel's heap all return and leave two outstanding payloads that overlap: 4090 bytes and 4100 bytes, 4020 bytes apart |
| HeapAgreement.AllocAgrees | src/kheap.c:159-271 | on well-formed heaps the code on tags serves unaligned requests as the layout function says: same outcome, pointer and tags |
| HeapAgreement.FreeAgrees | src/kheap.c:274-342 | so it does releases of live pointers |
| KernelHeap.Heap.AllocCorrected | src/kheap.c:159-271 | with line 223 corrected the heap stays valid for aligned requests too |
| KernelHeap.Heap.LeftHole | src/kheap.c:291-297 | recognises exactly the holes before the block that have a footer |
| KernelHeap.Heap.MergeLeft | src/kheap.c:298-308 | both tags of the merged hole, and one pass |
| KernelHeap.Heap.MergeRight | src/kheap.c:311-334 | refines the right merge; its assertions hold |
| KernelHeap.Heap.Forget | src/kheap.c:323-333 | the search finds the right neighbour's entry and removes it |
| KernelHeap.Heap.Free | src/kheap.c:274-342 | heap_free refines the layout function, its assertions hold, and no other block is written to |
| KernelHeap.Heap.Perform | src/kheap.c:159-342 | any step of a run, on memory, is a step of the run on layouts: unaligned requests as written, aligned ones corrected |
| KernelHeap.Heap.Execute | src/kheap.c:124-342 | any sequence of requests, releases and payload writes, on memory, ends as the layouts say, goes through a trace, and keeps every byte of a payload that stays live except where its owner writes |
| Bitsets.UpdateBit | src/datastructs/bitset.c:17-37 | setting or clearing a bit changes that bit of the word and no other |
| Bitsets.MaskWeights | src/datastructs/bitset.c:17-26 | bit i of a word has the weight 2^i |
| Bitsets.FullWord | src/datastructs/bitset.c:51-58 | a word equals all ones if and only if each of its bits is set |
| Bitsets.Bitset.Set | src/datastructs/bitset.c:17-26 | adds the member; beyond the array nothing happens |
| Bitsets.Bitset.Clear | src/datastructs/bitset.c:28-37 | removes the member |
| Bitsets.Bitset.Check | src/datastructs/bitset.c:39-49 | membership |
| Bitsets.Bitset.FindFree | src/datastructs/bitset.c:51-65 | the least absent member, or 0xFFFFFFFF if there is none |
| Frames.FrameAllocator.Alloc | src/mm/frame.c:14-22 | marks the least free frame, or stops when every frame is used; the frame is at or above num_frames if and only if all below are used |
| Frames.NoFramesBeyondIff | src/datastructs/bitset.c:11-15 | the capacity is the number of frames if and only if 32 divides it |
| Frames.FrameBeyond | src/mm/frame.c:9-22 | for every number of frames: when all are taken, the next one issued does not exist, or there is none if 32 divides their number |
| Frames.FrameAllocator.Free | src/mm/frame.c:24-28 | unmarks a frame, but never frame 0 |
| Frames.UnusedTaken | src/mm/frame.c:14-22 | issuing a frame lowers the number of free ones by one |
| Frames.StepKeepsSound | src/mm/paging.c:24-41 | no two pages own one frame, owned frames are marked and fit 20 bits |
| Frames.RunKeepsSound | src/mm/paging.c:24-41 | over every run; and frame 0, once taken, is never issued again |
| Frames.PageAlloc | src/mm/paging.c:24-35 | the least free frame for a page without one, which becomes present, accessible to user mode, and writeable as asked; nothing for a page that has one; a step of every run |
| Frames.PageFree | src/mm/paging.c:37-41 | gives the frame back; the page is no longer present; a step of every run |
| Paging.IndicesDetermine | src/mm/paging.c:98-100 | table and page index together determine the page number |
| Paging.BootMemory.Kmalloc | src/kmalloc.c:7-21 | the bump allocator, page-aligned on demand |
| Paging.Directory.WalkIsLookup | src/mm/paging.c:102-112 | the processor's walk for a user write (section 4.3 of the Intel SDM, volume 3A) reaches the entry the kernel sees |
| Paging.Directory.LookupInjective | src/mm/paging.c:97-118 | distinct pages have distinct entries |
| Paging.GetPage | src/mm/paging.c:97-118 | the entry of the flat map; making a table changes no other lookup, keeps both arrays in step, and keeps tables clear of the directory itself |
| Boot.MapOne | src/mm/paging.c:61-69 | page i becomes present, writeable and accessible to user mode, with frame i / PAGE_SIZE, so the assertion never fires, and no other page gains a frame |
| Boot.IdentityMap | src/mm/paging.c:59-69 | the loop ends although get_page raises its bound; every page below is mapped to itself and open, with 0x4000 bytes to spare |
| Boot.NewKernelDirectory | src/mm/paging.c:43-57 | the directory, two arrays of 1024 words and one more, is page-aligned and ends below every table and the first unused byte |
| Boot.PrepareHeapTables | src/mm/paging.c:50-57 | the tables of the heap exist before the identity loop starts |
| Boot.MapHeap | src/mm/paging.c:71-74 | every page of the initial heap is present with a frame, outside the identity range unless the page lies in it; no table is made and the identity map stays |
| Boot.MappedApart | src/mm/paging.c:59-78 | two mapped pages never share a frame |
| Boot.MapRest | src/mm/paging.c:71-78 | the same for the heap and the cloning buffer together |
| Boot.FinishBoot | src/mm/paging.c:71-88 | the four-page slack covers every linear allocation made until the heap takes over |
| Boot.InitPaging | src/mm/paging.c:43-88 | the whole sequence: all memory handed out so far is identity-mapped, heap and buffer are mapped, every page with a frame is open and owns it alone, no table lies on the directory or on the heap's record, no other tables exist; it completes from a stated number of frames on |
| Boot.BootedMeans | src/mm/paging.c:43-88 | the same address by address: below the bound, in 0x0F000000-0x0F00FFFF and in the page at 0xF0000000 every address is present, writeable and accessible to user mode, below the bound in the frame of its own number |
| Cloning.Mmu.ClonePage | src/mm/paging.c:180-189 | copies one frame into another, touches no third, and leaves the buffer page on the new frame |
| Cloning.Mmu.CloneTable | src/mm/paging.c:146-162 | every mapped page gets its own new frame with the old contents, everything else is empty; stops if and only if there are fewer free frames than mapped pages; the buffer page is left on the last frame filled, or where it was |
| Cloning.BootedIsSound | src/mm/paging.c:43-88 | what boot leaves meets the conditions of cloning, with the kernel's directory as the current one |
| Cloning.Mmu.CloneDirectory | src/mm/paging.c:120-144 | the copy lies on no table; every mapped page but the buffer page reads the same through it, kernel tables are shared by identity, all other pages have fresh frames of their own, the copy is usable; the buffer page is left on the last frame filled; on all pages original and copy are isolated if and only if nothing was to be copied and the frame of the buffer was its own, and otherwise up to exactly one private page of the copy; stops if and only if there are fewer free frames than pages to copy |
| Cloning.Mmu.ClonedTables | src/mm/paging.c:129-141 | table by table: a missing one stays missing, one that is the kernel's is shared, and any other is replaced by one that has no page in common with the original |
| Cloning.Mmu.CopyUsable | src/mm/paging.c:120-144 | the copy meets every condition of a current directory: it reaches the buffer page, and no two of its other pages, of one table or of two, share a frame |
| Cloning.Mmu.ClonedIsolated | src/mm/paging.c:129-141 | the buffer page aside, a frame reached through both directories is one shared page, at the same address |
| Cloning.Mmu.SwitchDirectory | src/mm/paging.c:208-216 | switching to a usable directory keeps the machine sound |
| Cloning.Mmu.CloneAndSwitch | src/mm/paging.c:91-94 | so clones of clones can be made until the frames run out, exactly |
| Cloning.FirstClone | src/mm/paging.c:91-94 | the clone at the end of init_paging never stops, takes no frame, and leaves nothing to copy and the buffer a frame of its own |
| Cloning.Start | src/mm/paging.c:43-95 | init_paging to its end, from an empty machine: it completes from a stated number of frames on; the copy has nothing to copy in turn, and the buffer a frame of its own |
| Cloning.Mmu.ClonedMeans | src/mm/paging.c:129-141 | slot by slot copying amounts to preserving the meaning of every address but the buffer page's |
| Sharing.WritesStayPrivate | src/mm/paging.c:120-162 | over any interleaving of writes through both directories, to all pages, what one reads does not depend on the other's writes to pages that are not shared, except for the original reading the leaking page |
| Sharing.PrivatePages | src/mm/paging.c:120-162 | what it reads from a page that is not shared depends on its own writes only, except for the one page of the copy that leaks |
| Sharing.SharedPages | src/mm/paging.c:131-133 | a shared page reads the same through both, whoever wrote to it |
| Sharing.LeakIsReal | src/mm/paging.c:181-185 | both exceptions are real: after any writes, one more through either side of the leak is what the other side reads |
| Cloning.Mmu.BufferLeft | src/mm/paging.c:181-189 | the buffer page stays where it was if there is nothing to copy, and otherwise ends on the frame of a page private to the copy |
| Cloning.Mmu.IsolatedIff | src/mm/paging.c:120-189 | original and copy are isolated on all pages if and only if there was nothing to copy and the frame of the buffer page was its own |
| Cloning.Mmu.LeaksOne | src/mm/paging.c:120-189 | when something was copied, exactly one pair of pages breaks the isolation: the buffer page and the page filled last |
| Cloning.Mmu.PagesToCopyIs | src/mm/paging.c:129-159 | the pages counted table by table and entry by entry are the mapped pages that the copy does not share |
| Cloning.Mmu.MapOnly | src/mm/paging.c:97-118 | mapping an address whose table is missing makes its page the only one to copy; stops if and only if no frame is free |
| Cloning.Mmu.CloneOne | src/mm/paging.c:120-189 | a clone that copies one page leaves the buffer on the frame of that page in the copy |
| Cloning.Mmu.StackLeak | src/task/task.c:14 | an input: one page mapped, one clone, one write to the user stack page through the original, and the copy reads it where the original reads what both read before; stops if and only if fewer than two frames are free |
| Cloning.BootAndLeak | src/mm/paging.c:43-95 | the same from boot, at the image address of a task; it completes from a stated number of frames on |
| TaskSpaces.ObtainIn | src/mm/paging.c:97-118 | get_page in a directory that is not the current one keeps both usable |
| TaskSpaces.GiveIn | src/mm/paging.c:24-35 | so does page_alloc, for private and for shared pages, and it keeps them open to user mode; stops only when no frame is free |
| TaskSpaces.CopyToFrame | src/mm/paging.c:192-206 | copies a page to a frame and leaves the buffer page there |
| TaskSpaces.CreateSpace | src/task/task.c:46-53 | the address space of a new task is usable, has image and kernel stack mapped, and its user stack page is the page of its image; where the pages of the current directory are open, as after boot, the entries at 0x10000000, 0x20000000 and 0xF0000000 are present, writeable and accessible to user mode; stops only with fewer free frames than pages to copy and three more |
| TaskSpaces.TwoTasks | src/main.c:120-122 | after two creations, what the first task writes to its stack is what the second finds in its image |
| TaskSpaces.BootTwoTasks | src/main.c:120-122 | the same from boot; it completes from a stated number of frames on |
| Numbers.EvalDigits | src/string.c:72-80 | a numeral is worth the number it was made from, in every radix from 2 to 16 |
| Numbers.EmittedIsPadded | src/string.c:72-107 | emitting remainders and reading them backwards gives the zero-padded numeral |
| Numbers.FillScratch | src/string.c:72-102 | the buffer read backwards is sign, prefix and digits, and the padding loop does nothing |
| Numbers.AppendNumber | src/string.c:44-117 | sign, prefix, digits and trailing padding, or the overrun of the scratch buffer |
| Numbers.NumberWritten | src/string.c:44-117 | the text is a minus sign for a negative value, 0x, 0b or 0 for radix 16, 2 or 8 if asked, digits that denote the value with no more leading zeros than the width takes, and padding behind if left-aligned; for every value, radix, width and set of flags |
| Numbers.WrittenOnce | src/string.c:44-117 | and no other text meets that description |
| Numbers.NumeralIsPadded | src/string.c:72-80 | there is one numeral of a given value, radix and least width |
| Numbers.ZeroFlagIgnored | src/string.c:61-63 | a right-aligned number is written alike with and without ZERO_PADDED |
| Numbers.PaddedAsChosenIff | src/string.c:61-102 | its digits are padded with the chosen character if and only if that is a zero or none is needed |
| Numbers.FiveInThree | src/string.c:74-80 | 5 in a field of three without flags is 005 |
| Numbers.NumberReadsBack | src/string.c:44-117 | the text alone gives every value back, sign and prefix included, unless zeros are padded on the right |
| Numbers.AmbiguousTexts | src/string.c:109-113 | in that case 1 and the radix have the same text |
| Numbers.OverrunIff | src/string.c:45-58 | the scratch buffer overruns if and only if right-aligned width, sign and prefix exceed 65 |
| Numbers.PrefixedOverruns | src/string.c:45-58 | an input that overruns it |
| Numbers.SafeWidths | src/string.c:45-58 | it suffices for every width up to 62 |
| Numbers.SkipAtoi | src/string.c:119-129 | the wrapped value of the longest run of digits, and where it ends |
| Numbers.AtoiUndoesDecimal | src/string.c:119-129 | skip_atoi undoes the right-aligned decimal form below 2^31 |
| Monitor.WriteDec | src/monitor.c:105-118 | prints what append_number prints in radix 10 with width 0 |
| Monitor.WriteHex | src/monitor.c:95-103 | prints what append_number prints in radix 16 with width 8 |
| Format.ScanFlags | src/string.c:140-154 | the longest run of flag characters and the flags it stands for |
| Format.AppendField | src/string.c:194-217 | a string in its field |
| Format.AppendArg | src/string.c:163-217 | each letter's conversion, with the fall-throughs of d and p |
| Format.FlagsMean | src/string.c:146-152 | which flag characters set which flags |
| Format.NumberLetters | src/string.c:167-186 | x and p print in radix 16, u in 10, d in 10 with a sign, o in 8, b in 2, with the flags and width of each |
| Format.LettersReadBack | src/string.c:167-186 | and the text reads back in that radix, as two's complement for d |
| Format.CharLetter | src/string.c:188-190 | c prints the low byte of its argument |
| Format.StringLetter | src/string.c:192-214 | s fills its field: the string at its end, or at its start if left-aligned, and spaces |
| Format.OtherLetters | src/string.c:162-220 | these eight letters take an argument; any other prints itself and takes none |
| Format.DirectiveText | src/string.c:131-225 | vsprintf of one written directive is the text of that directive |
| Format.PrefixedHex | src/mm/mem.c:73 | an input: %#08x of 255 is 0x000000ff |
| Format.NextPiece | src/string.c:135-160 | reads exactly one piece of the format |
| Format.Vsprintf | src/string.c:131-225 | the renderings of the parsed pieces in order, one argument per directive that takes one, and the length plus one |
| Format.SourceReadsBack | src/string.c:135-160 | every sequence of pieces that can be written down is parsed back exactly |
| Format.ParseJoined | src/string.c:135-160 | a complete format followed by another is parsed as the two in a row |
| Format.FormatsJoin | src/string.c:131-225 | vsprintf of two formats in a row writes both outputs in a row, the second with the arguments the first left |
| Tasks.Scheduler.constructor | src/task/task.c:21-23 | no task is live and none has run |
| Tasks.Scheduler.FindAvailable | src/task/task.c:110-120 | the least free slot, or a stop when all are live |
| Tasks.Scheduler.FindNext | src/task/task.c:122-132 | the first live slot in cyclic order, -1 if there is none, and a read past the table from task 255 |
| Tasks.Scheduler.Create | src/task/task.c:25-32 | the least free slot becomes live under its own pid; a step of the model |
| Tasks.Scheduler.Switch | src/task/task.c:60-72 | the choice becomes the running task; a step of the model |
| Tasks.RunPrefix | src/task/task.c:25-32 | under every interleaving the live pids are 0..n-1 |
| Tasks.SwitchFromPrefix | src/task/task.c:122-132 | a switch picks (current + 1) mod n, and fails if and only if there is no task or slot 255 is running |
| Tasks.StepTotal | src/task/task.c:110-132 | from every table whose live slots are a prefix each call has an outcome, a fault included |
| Tasks.RunNeverStuck | src/task/task.c:60-72 | with 1 to 255 tasks no switch fails |
| Tasks.RoundRobin | src/task/task.c:60-72 | n consecutive switches run each of n tasks exactly once |
| Tasks.NoStarvation | src/task/task.c:60-132 | whatever is created meanwhile, every task runs among any 255 switches |
| Tasks.FullTableStops | src/task/task.c:124-127 | with 256 tasks exactly 255 - c switches follow task c before the table is overrun |
| Tasks.FillTable | src/task/task.c:25-132 | a run: 256 creations and 256 switches all return, and the next switch reads past the table |

## Left out

- KernelHeap.Heap.Expand: the loop that maps the new pages (`src/kheap.c:93-97`), and the re-entry of `heap_alloc`
  through `get_page` when a heap page table is missing; the new pages are taken to be mapped.
- KernelHeap.HeapCreate: assumes that the last eight bytes of the initial hole do not happen to hold the magic number
  of a footer; the hole index is an array of its own instead of the first bytes of the heap.
- KernelHeap.Heap.Alloc: requests are below 2^30 and addresses below 2^31, so that `__size + 20` and the signed
  comparisons do not wrap.
- HeapAsWritten.PayloadsOverlap: is about headers and footers instead of bytes: memory in which no tag was written
  holds no magic number, and a tag overwritten in part by another is gone.
- HeapRuns.RunSound: aligned requests in a run are those of the corrected code, since as written they damage a tag
  (`KernelHeap.Heap.Alloc`).
- HeapRuns.DrainInAnyOrder: needs the first request of the run to have fitted the initial hole and the run to be of
  unaligned requests; what happens otherwise is `RequestReleaseCoalescedIff` and `AlignedCoalescedIff`.
- Double free and foreign pointers: a pointer freed is live, or null.
- Heap contraction: commented out in the source.
- Physical addresses of heap objects that span pages (`src/kmalloc.c:28-43`) and the `ismeta` physical address:
  allocation of tables and directories after boot is taken to be page-aligned and to yield the right physical address.
- Bitsets.Bitset.constructor: gives a zeroed buffer of as many words as the set needs, where `bitset_create` reserves
  that many bytes (`src/datastructs/bitset.c:12-14`).
- Boot.InitPaging: page tables and the directory must fit below 4 GiB, which the precondition says in bytes.
- Cloning.Mmu.CloneDirectory: the source is the current directory, the only one the kernel clones while it runs, and
  the copying of a page is one step.
- Cloning.Start: the directory and the tables of the copy come from the allocator of boot, not from the kernel heap.
- TaskSpaces.CopyToFrame: one whole page to a page-aligned address, which is how `task_create` uses
  `mm_memcpy_physical`; the call in `task_switch` (`src/task/task.c:75-78`), which writes registers to the frame where
  the user stack page then is, is not part of this model.
- Output buffer bounds of `vsprintf`, and formats with an embedded terminator.
- Tasks.Scheduler.Create: only the table and the pid; the address space is the subject of `TaskSpaces`.
- Register state, user stack contents and the context switch itself, all inline assembly, TLB invalidation.
- GDT, IDT, TSS, timer and interrupt controller set-up; the screen cursor and scrolling; the multiboot memory map, ELF
  symbols, `panic` and backtraces.
