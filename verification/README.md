# A verified model of the kernel's memory management

This project models, in Dafny, the parts of the kernel that keep state others rely on, and proves what they keep:

- **the kernel heap** (`kernel/kheap.c` over `kernel/ordered_array.c`): a boundary-tag allocator over byte-addressed
  memory, with its index of holes;
- **frames, page tables and placement** (`kernel/paging.c`, `kernel/mm.c`, the first half of `heap_install`): the
  bitmap of frames, tables made on demand, and the identity map whose bound moves while it is built;
- **three small pieces**: the line drawer of `kernel/vbe.c`, `itoa` of `libc/stdlib.c`, and the keyboard driver with
  its byte queue (`kernel/keyboard.c`, `kernel/include/queue.h`).

`dafny verify dfyconfig.toml` checks all of it.

## How it is built

Code that changes things in place is a class or a method with a loop (`Heap`, `OrderedArray`, `Pager`, `Screen`,
`Fifo`, `Keyboard`, `Itoa`). Each such method is proved equal to a function of the old state, and the main results are
lemmas about those functions and about runs of them.

*Heap.* Memory is a sequence of 2^32 bytes; headers (12 bytes) and footers (8 bytes) are read and written at their
addresses, little-endian, with 32-bit address arithmetic. `HeapText` gives every branch and every store of
`kernel/kheap.c` as functions; `KernelHeaps.Heap` is the imperative form, proved against them. The invariant `Inv`
reads memory as a sequence of segments: they tile [start, end), each has its header and (see below) its footer, no two
holes touch, the index lists every hole once and nothing else, and every page of the range owns a frame. Memory
determines the reading, so "the live blocks" are a function of the state.

*Paging.* The directory and its tables are abstracted to one map from page number to entry (`Flat`), the bitmap to the
set of frames in use. A failed ASSERT (`kernel/common.c`) is the outcome `Halted`.

*Keyboard.* The status word is the set of its six flag bits, since every mask in it has one bit.

## Where the code and its comments differ

The model follows the code. Each difference that breaks a promise has an exact condition for when the promise is kept
and, for the heap, a run from the kernel's own heap that breaks it.

- `create_heap` writes no footer for the first hole, and always moves its start one page past the index
  (`kernel/kheap.c:135-139`, `153-157`). Only a hole that ends the heap may lack its footer.
- The right merge says it rewrites the footer; it only moves the pointer (`kernel/kheap.c:326-328`). The fused hole
  keeps a footer that names its swallowed half. `Inv` allows this *stale footer*; freeing the block behind such a hole
  then merges with the wrong header. `FreeExact` has the condition, `MergeFails` a run. What contraction leaves behind
  the end can make the ASSERT of this merge fail: `FreeExact`, `FreeForgesEnd`, `AssertFails`.
- `contract` speaks of the next page boundary but masks with the page size (`kernel/kheap.c:66-70`). It leaves a sound
  heap exactly when the hole starts below the minimum size with room for a header and a footer (`CanShrink`), see
  `FreeExact` and `ContractionFails`. Where it ends the heap otherwise, off a page boundary or inside a live block, is
  said by `FreeContracts`, with `RoundingFails` as a run.
- `contract` gives back only the pages strictly above the new end, so the page at it keeps its frame
  (`kernel/kheap.c:75-81`); the model does the same.
- When no hole fits, the endmost hole is widened even if blocks lie behind it (`kernel/kheap.c:212-221`): `GrowExact`,
  `AllocExact`, `GrowthFails`.
- The page-aligned cut can leave a gap or a rest too small for a hole (`kernel/kheap.c:239-284`): `CarveExact`,
  `AlignmentFails`, `RearFails`. If the data behind the hole's header is aligned already, or the header starts in the
  last 12 bytes of a page, the search charges 4096 bytes more than the cut leaves (`kernel/kheap.c:99-100`, `243`):
  `ChargedGap`.
- The right merge of a block at the end of the heap reads the header behind the end. When the heap has grown to
  max_address, that is the page at 0x1FFF000, which `heap_install` does not map (`kernel/kheap.c:26`, `322-323`,
  `AssignedMapsHeap`). The model reads whatever memory holds there.
- Nothing keeps the index within its 0x20000 entries (`kernel/ordered_array.c:38-59`): behind them follow the 1022 words
  that `create_heap` skips, and then words the heap uses. `IndexHasRoom` says up to which size of the heap this cannot
  happen; `IndexOutgrows` is a run of safe calls in which it does.
- A hole that vanishes in contraction is looked up under the right neighbour's address (`kernel/kheap.c:355-365`).
- `free_frame` hands a frame number to `clear_frame`, which takes an address (`kernel/paging.c:166-173`):
  `FreeAsWrittenExact` and, over runs, `RunAsWrittenExact`. Pages mapped after it can share frame 0
  (`FreeAsWrittenShares`), or a frame that another page has (`FreeAsWrittenDoubles`), so the heap results suppose the corrected form, `FreeFrameIntended`, which is kept apart and
  named so.
- `paging_init` reserves and clears as many bytes for the bitmap as it uses words (`kernel/paging.c:52-53`): a quarter.
  The model takes the other words as zero too. From 1025 words on the bitmap runs into the directory
  (`BitmapClearOfDirectory`).
- `itoa` in base 2 divides by 10; a negative value leaves nothing to reverse, and the reversal then runs from index 255
  (`libc/stdlib.c:12-60`).
- `kbd_keys_available` is 1 when no key waits (`kernel/keyboard.c:236-248`), CapsLock changes only the test for Del, and
  `shift_map` lacks one entry, which moves the keys behind it.

## Model

| member | source | states |
|---|---|---|
| OrderedArrays.OrderedArray.Insert | kernel/ordered_array.c:38-59 | The shifting loop puts the item before the first element that is not less than it; of the memory behind the last element it writes one element, also in a full array |
| OrderedArrays.OrderedArray.Remove | kernel/ordered_array.c:67-75 | The shifting loop deletes exactly the element at the given position, in a full array too, and writes nothing behind the last element |
| OrderedArrays.OrderedArray.Lookup | kernel/ordered_array.c:61-65 | The element at the position |
| OrderedArrays.InsertKeepsOrder | kernel/ordered_array.c:38-59 | For any strict weak order an insertion keeps the index ordered and adds exactly the item |
| OrderedArrays.DeleteKeepsOrder | kernel/ordered_array.c:67-75 | A deletion keeps the index ordered and takes away exactly one element |
| OrderedArrays.DeleteUndoesInsert | kernel/ordered_array.c:38-75 | Deleting at the insertion position gives the former index back |
| HeapState.ReadingUnique | kernel/kheap.c:290-371 | Memory can be read as segments in one way at most, so holes and live blocks are determined by memory |
| HeapState.IndexIsBounded | kernel/kheap.c:167-371 | The index of a heap that satisfies the invariant has at most an entry for every 40 bytes of the heap, and one more |
| KernelHeaps.Heap.Create | kernel/kheap.c:119-165 | create_heap in place does what the function of the same name says, past its ASSERTs |
| KernelHeaps.Heap.FindSmallestHole | kernel/kheap.c:87-112 | The loop stops at the first index entry that fits, or answers 0xDEADBEEF when none does |
| KernelHeaps.Heap.Expand | kernel/kheap.c:34-59 | Halts on either ASSERT; otherwise maps exactly the pages between the old and the new end |
| KernelHeaps.Heap.Contract | kernel/kheap.c:61-85 | Halts on the ASSERT; otherwise gives back exactly the pages above the new size and moves the end; which size that is, `ContractedSize` says |
| KernelHeaps.Heap.FindEndmost | kernel/kheap.c:184-198 | The loop finds the index entry of greatest address, or -1 when the index is empty |
| KernelHeaps.Heap.Grow | kernel/kheap.c:174-221 | The expansion branch of alloc, store by store |
| KernelHeaps.Heap.Carve | kernel/kheap.c:226-287 | The cutting branch of alloc, store by store |
| KernelHeaps.Heap.Alloc | kernel/kheap.c:167-288 | alloc with its recursion, which terminates, equals the function that the heap results are about |
| KernelHeaps.Heap.MergeLeft | kernel/kheap.c:309-318 | The left merge equals its function |
| KernelHeaps.Heap.MergeRight | kernel/kheap.c:320-339 | The right merge and its ASSERT equal their function |
| KernelHeaps.Heap.Shrink | kernel/kheap.c:341-366 | Contraction by free equals its function |
| KernelHeaps.Heap.Free | kernel/kheap.c:290-371 | free equals the function that the heap results are about |
| Memory.HeaderBytes | kernel/include/kheap.h:16-21 | The bytes of a header: magic number lowest byte first, flag at 4, size at 8, and three bytes that are not written |
| Memory.FooterBytes | kernel/include/kheap.h:23-27 | The bytes of a footer |
| HeapGrow.ExpandExact | kernel/kheap.c:34-59 | expand halts exactly on a size that is no larger than the heap or whose next page boundary lies past max_address, and otherwise ends the heap at that boundary and maps exactly the pages in between |
| HeapContract.ContractExact | kernel/kheap.c:61-85 | contract halts exactly on a size not below the heap's, and otherwise answers the size it settles on, ends the heap there and gives back the pages behind |
| HeapContract.ContractedSize | kernel/kheap.c:66-74 | contract takes a size over as it is exactly from 0x70000 on with bit 12 clear, and makes every other 0x70000 |
| HeapContract.PagesGivenBack | kernel/kheap.c:75-82 | The pages given back are those strictly between the new end and the old one |
| HeapCreate.CreateExact | kernel/kheap.c:119-165 | create_heap halts exactly on a misaligned argument, and otherwise writes the first header alone and yields a heap that satisfies the invariant, one hole and no block, exactly when its arguments allow one |
| HeapCreate.KernelHeapValid | kernel/kheap.c:13-31 | The kernel's constants give a valid heap with one hole of 0x7F000 bytes at 0x1081000 |
| HeapGrow.GrowExact | kernel/kheap.c:174-221 | Growing halts exactly when the new end would pass max_address; it keeps invariant and live blocks if the index is empty or a hole ends the heap, and otherwise no reading of the result shows the live blocks; the widened or new hole has header and footer either way |
| HeapGrow.GrowMaps | kernel/kheap.c:45-58 | The pages an expansion maps are exactly those from the old end up to the new |
| HeapGrow.GrowLists | kernel/kheap.c:200-221 | Growing adds an index entry only to an empty index |
| HeapCarve.CarveExact | kernel/kheap.c:226-287 | Cutting a hole that fits keeps the invariant, every live block and the new one exactly when an aligned cut leaves a front gap of at least 20 bytes and a rest of none or at least 20; unaligned cuts always do |
| HeapCarve.CarveKeeps | kernel/kheap.c:226-287 | In a safe cut front hole, block and rear hole tile the hole; an aligned one starts its data on a page boundary, and its front hole is what the search charged |
| HeapCarve.CarveLists | kernel/kheap.c:252-284 | The index after a safe cut, in order: a plain one drops the entry, an aligned one leaves it where it is, and a rest is inserted by size |
| HeapCarve.ChargedGap | kernel/kheap.c:94-103 | The offset the search charges is the gap the aligned cut leaves exactly when that gap is not empty; otherwise the search charges a page more |
| HeapCarve.NarrowFrontBreaks | kernel/kheap.c:239-251 | A front gap below 20 bytes leaves no reading with the old live blocks and the new one |
| HeapCarve.NarrowFrontWrites | kernel/kheap.c:239-284 | What an aligned cut with a front gap of at most 8 bytes, zero and negative ones included, writes: block and rear hole with their headers and footers, over the listed header or the segment before it, and the index |
| HeapCarve.NarrowRearBreaks | kernel/kheap.c:268-284 | A rest of 1 to 19 bytes leaves no reading with the old live blocks |
| HeapCarve.NarrowRearWrites | kernel/kheap.c:268-284 | What a cut that leaves 1 to 19 bytes writes: front hole, block, the footer of the rest over its header, the header reaching into the next segment below 12 bytes, and the index |
| HeapAlloc.AllocExact | kernel/kheap.c:167-288 | For every request that returns, from every heap that satisfies the invariant: the block was not live and some reading shows it beside all blocks that were, exactly when the expansions it needs meet an empty index or a hole at the end and the cut, of the hole that fits or of the widened one, leaves no sliver |
| HeapAlloc.UnsafeBreaks | kernel/kheap.c:212-221 | Otherwise a request that needs an expansion is handed a live block once more, or a block that no reading shows beside the live ones |
| HeapAlloc.AllocExpands | kernel/kheap.c:167-224 | How often alloc expands, computed from sizes and bounds: never, once, or twice if the hole widened once is still short of request and alignment; and where it then cuts |
| HeapAlloc.AllocKeeps | kernel/kheap.c:167-288 | The new block has 20 to 39 bytes more than requested, starts on a page boundary if asked, was not live before; no byte of another live block changes |
| HeapAlloc.PlainExact | kernel/kheap.c:167-288 | For unaligned requests only the expansion matters: cuts are always safe and no live block is handed out |
| HeapAlloc.ExpansionsBounded | kernel/kheap.c:174-224 | From every heap that satisfies the invariant alloc calls itself at most once for a plain request and at most twice for an aligned one |
| HeapAlloc.AllocHalts | kernel/kheap.c:34-59 | From every such heap alloc halts exactly when the first expansion it needs, or for an aligned request that is still short the second, would pass max_address |
| HeapFreeExact.FreeExact | kernel/kheap.c:290-371 | Freeing a live block halts exactly on a forged header behind the end, and otherwise leaves a heap that satisfies the invariant exactly when no stale footer misleads the left merge and contraction ends inside the hole |
| HeapFreeExact.FreeKeeps | kernel/kheap.c:290-371 | The segments after a safe free: the block fused with the holes on both sides, a hole at the end cut to the minimum heap size; only bytes of that space change |
| HeapFreeExact.FreeBreaks | kernel/kheap.c:309-366 | Without the condition no reading of the result satisfies the invariant |
| HeapFreeExact.FreeStops | kernel/kheap.c:335-336 | The ASSERT of the right merge fails for a block at the end followed by bytes that look like a hole's header |
| HeapFreeExact.FreeHaltsAt | kernel/kheap.c:322-336 | Free of a live block halts exactly for the last segment with the magic number behind the end and a byte other than 0 in the place of the flag |
| HeapFreeExact.FreeLive | kernel/kheap.c:290-371 | free takes exactly its block from the live blocks |
| HeapFreeExact.FreeIndex | kernel/kheap.c:316-370 | The index after a safe free, in order: the swallowed hole is dropped, the freed one inserted by size, and after a left merge the entry stays where it is whatever its new size |
| HeapFreeExact.FreeLeavesStale | kernel/kheap.c:323-328 | After a right merge away from the end the hole's footer names the swallowed header |
| HeapFreeExact.FreeLeavesFooter | kernel/kheap.c:309-318 | Without a right merge the hole keeps a footer of its own |
| HeapFreeExact.FreeForgesEnd | kernel/kheap.c:341-354 | Contraction that ends the heap at the freed block leaves its header behind the end, marked as a hole |
| HeapContract.FreeContracts | kernel/kheap.c:341-370 | Every free that contracts, safe or not: with the fused hole at offset o the heap ends at start + o exactly when o >= 0x70000 and o % 0x2000 < 0x1000, and at start + 0x70000 otherwise; which pages stay mapped, the size and the footer it writes, also where they fall into other segments, and the index |
| HeapContract.StaleContracts | kernel/kheap.c:309-366 | The same behind a hole with a stale footer, o being the offset of the header the footer names |
| HeapFreeExact.FreeRefuses | kernel/kheap.c:292-301 | free of a null pointer does nothing; free halts where header or footer lack the magic number |
| HeapStale.StaleBreaks | kernel/kheap.c:309-318 | Merging left through a stale footer leaves no reading, unless contraction cuts the heap at the freed block |
| HeapStale.StaleLucky | kernel/kheap.c:341-366 | In that exception the heap is sound and ends where the block began |
| HeapRoundTrip.AllocFree | kernel/kheap.c:226-371 | A safe alloc and then free: a hole inside the heap comes back exactly; for a hole at the end free halts exactly if the block filled it in front of a forged header, and otherwise gives it back cut to the minimum heap size or, if it starts too late for that, leaves no reading |
| HeapRun.RunIsSafe | kernel/kheap.c:167-371 | A run of alloc, free, writes of programs into their blocks and stores outside the heap starts in a valid state, and each step is safe if its state is valid; then every state satisfies the invariant |
| HeapRun.RunIsAccounted | kernel/kheap.c:167-371 | After every such run the live blocks are exactly the blocks handed out and not taken back, each with room for its request |
| HeapRun.StepExact | kernel/kheap.c:167-371 | A call or store from a valid state meets its condition exactly when the state after it is valid, keeps every other live block with all its bytes, and shows the new one with room for its request |
| HeapRun.RunExact | kernel/kheap.c:167-371 | Of every run of a program that frees and writes what it holds, safe or not: all goes well up to an event exactly when every event up to it meets its condition |
| HeapRun.LiveDisjoint | kernel/kheap.c:167-371 | Live blocks do not overlap and lie inside the heap |
| HeapRun.BlockUntouched | kernel/kheap.c:167-371 | Over any part of such a run a block that is not freed or written by its program keeps its place, its size and every byte |
| HeapRun.WriteKeeps | kernel/include/kheap.h:16-27 | Writing anything between header and footer of one's own block keeps the invariant |
| HeapCreate.KernelRuns | kernel/kheap.c:13-371 | Every state of every run of safe steps from the kernel's own heap, with any stores outside the heap in between, satisfies the invariant, and its live blocks are the blocks handed out and not taken back |
| HeapCreate.KernelRunsExact | kernel/kheap.c:13-371 | From the kernel's own heap every run, safe or not, goes well exactly as long as every event meets its condition |
| HeapIndex.IndexHasRoom | kernel/kheap.c:129-139 | While a valid heap is shorter than 5283660 bytes its index has the free entries that alloc and free need |
| HeapIndex.IndexReaches | kernel/kheap.c:132-139 | Where the kernel's index array ends, and how far the words behind it reach |
| HeapIndex.IndexOutgrows | kernel/ordered_array.c:38-59 | The kernel's heap can need more: a run of safe allocs and frees through valid states lists more holes than the index array and the words between it and the heap can hold |
| HeapOrder.FindsSmallest | kernel/kheap.c:87-117 | In a sorted index the plain search finds a hole of least sufficient size and fails exactly when none is large enough |
| HeapOrder.PlainAllocKeepsSorted | kernel/kheap.c:252-284 | A plain alloc without expansion keeps the index sorted by size |
| HeapOrder.FreeKeepsSorted | kernel/kheap.c:320-370 | A free without a left merge keeps the index sorted by size |
| HeapExamples.ContractionFails | kernel/kheap.c:66-70 | From the kernel's heap two allocs through valid states and a free that ends the heap at 0x10F1014 and leaves no reading |
| HeapExamples.RoundingFails | kernel/kheap.c:66-70 | The same with a first block of 0x71000 bytes: the heap ends at 0x10F1000, inside that block, and a footer is written there |
| HeapExamples.AlignmentFails | kernel/kheap.c:239-251 | From the kernel's heap an alloc to a valid state and an aligned alloc whose block and the live block fit no reading; the footer of the front hole tears its size field, and the rest is written with what is then read |
| HeapExamples.RearFails | kernel/kheap.c:268-284 | One aligned alloc from the kernel's valid heap, leaving a rest of 10 bytes, ends with no reading |
| HeapExamples.MergeFails | kernel/kheap.c:309-328 | From the kernel's heap three allocs and two frees through valid states and a third free that leaves no reading |
| HeapExamples.GrowthFails | kernel/kheap.c:212-221 | A run through valid states whose last alloc hands out addresses inside a live block |
| HeapExamples.AssertFails | kernel/kheap.c:335-336 | A run of three allocs and two frees through valid states, after which freeing the last block halts |
| Frames.SetFrame | kernel/paging.c:127-133 | Adds exactly the frame of the address to the frames in use |
| Frames.ClearFrame | kernel/paging.c:135-141 | Takes exactly the frame of the address from the frames in use |
| Frames.LowestFirst | kernel/paging.c:127-141 | The lowest bit of a word stands for its lowest frame |
| Frames.FirstFreeFrame | kernel/paging.c:143-164 | Skipping full words finds the least frame not in use, and ULONG_MAX exactly when there is none |
| Frames.AllOnes | kernel/paging.c:149-149 | A word equals all ones exactly when each of its 32 bits is set |
| Frames.FirstFreeUnique | kernel/paging.c:143-164 | That specification has one answer |
| Placement.TablesNeededLeast | kernel/paging.c:72-78 | The moving bound settles at the least number of tables whose span covers what they leave behind |
| Placement.LandingIs | kernel/mm.c:31-36 | An aligned allocation lands on the page boundary behind the address it finds, also behind a page boundary; an unaligned one lands where it is |
| Placement.TablesCost | kernel/mm.c:31-45 | A page table costs one or two pages of placement |
| Placement.TablesFromBoundary | kernel/mm.c:31-45 | From a page boundary on each table costs exactly two pages and lies in the second |
| Placement.FinalPlacementBound | kernel/paging.c:72-78 | The map adds at most two pages for every four megabytes less eight kilobytes |
| Paging.Pager.KmallocInt | kernel/mm.c:27-46 | The placement phase: an aligned allocation gets the page boundary behind the old placement address, an unaligned one that address itself, and placement moves behind it |
| Paging.Pager.GetPage | kernel/paging.c:175-238 | get_page and set_page: an existing table is used as it is; a missing one is made at the placement address and adds only its own zero entries to the map |
| Paging.SameEntry | kernel/paging.c:180-215 | Two addresses name the same entry exactly if they lie in the same page |
| Paging.Pager.StoreEntry | kernel/paging.c:271-274 | A store to an entry changes the map at that page only, and tables stay apart |
| Paging.Pager.AllocFrame | kernel/paging.c:240-278 | A page without a frame gets the least free one, is present, and is writable and a user page as asked; a page that has a frame keeps it and the answer is 0 |
| Paging.ExpandedPage | kernel/kheap.c:52-55 | A page that expand maps is present, writable and a user page, and no other page changes |
| Paging.Pager.FreeFrame | kernel/paging.c:166-173 | free_frame as written |
| Paging.Pager.IdentityMap | kernel/paging.c:72-78 | The loop of paging_init terminates at the least fixed point of the moving bound, and every page below it maps to the frame of the same number, with exactly these frames in use |
| Paging.IdentityStep | kernel/paging.c:72-78 | The least free frame has the number of the next page |
| FrameAccounts.AllocKeepsAccounts | kernel/paging.c:240-278 | alloc_frame keeps "in use" equal to the pages' frames and frame 0, no frame having two owners, and does not hand out frame 0 again |
| FrameAccounts.FirstFrameOpensAccounts | kernel/paging.c:240-278 | With no frame in use the first page mapped gets frame 0, and the accounts are right from then on |
| FrameAccounts.FreeAsWrittenExact | kernel/paging.c:166-173 | free_frame as written keeps the accounts exactly when the page has no frame |
| FrameAccounts.FreeAsWrittenLeaks | kernel/paging.c:166-173 | What it does instead: the frame stays in use without an owner, and the one frame taken out of use is f / 4096, which is frame 0 exactly when f is below 4096 |
| FrameAccounts.FreeAsWrittenShares | kernel/paging.c:166-173 | After two rounds of freeing and mapping as written, with frames below 4096, both new pages are mapped to frame 0 |
| FrameAccounts.SharedFrame | kernel/paging.c:166-173 | Such a run from right accounts: with three pages mapped, freeing two and mapping two others gives both frame 0 |
| FrameAccounts.FreeAsWrittenDoubles | kernel/paging.c:166-173 | From frame 4096 on, freeing as written takes frame f / 4096 out of use, and alloc_frame then gives it to a second page beside its owner |
| FrameAccounts.RunAsWrittenExact | kernel/paging.c:166-278 | Over every run of alloc_frame, free_frame as written and new tables the accounts are right at the end exactly when no frame was freed |
| FrameAccounts.RunKeepsAccounts | kernel/paging.c:166-278 | With the intended free_frame in its place they stay right over every run |
| HeapWindow.MapWindow | kernel/kheap.c:15-23 | The 64 KiB window continues the identity map |
| HeapWindow.MapHeap | kernel/kheap.c:25-29 | The heap range maps to consecutive frames; its four tables, numbers 4 to 7, lie in every other page from the one behind the window's start w on, and heap_t at w + 0x9000 |
| Boot.BitmapClearOfDirectory | kernel/paging.c:51-61 | The bitmap, with as many bytes reserved as it has words, stays clear of the directory exactly up to 1024 words |
| Boot.OneTable | kernel/paging.c:65-78 | From the kernel's placement address one table is enough for the identity map |
| Boot.FrameWordsIs | kernel/paging.c:51-53 | The bitmap has a word for every 128 kilobytes, as long as the size in bytes fits 32 bits, and of the size modulo 4 GiB otherwise |
| Boot.BootPaging | kernel/paging.c:49-78 | paging_init and heap_install in sequence, for every memory of at least 145 words of frames: the number of words, the window at 0x205000 and a page more for every 4096 words, which frames are left, where tables and heap_t lie, the pages mapped and the accounts |
| Boot.AssignedMapsHeap | kernel/kheap.c:25-27 | The second loop of heap_install maps every page from KHEAP_START up to KHEAP_MAX, and not the one at KHEAP_MAX |
| Boot.BootedHeapValid | kernel/kheap.c:25-30 | The pages heap_install maps are those create_heap needs: the heap made over them satisfies the invariant |
| Line.Screen.DrawLine | kernel/vbe.c:41-98 | The stepping loop paints exactly the points of the ideal line rounded down, in every octant; `PixelOrder` says which words these are |
| Line.StepRemainder | kernel/vbe.c:84-96 | The accumulator is what rounding j * n / m down leaves, between 0 and m |
| Line.LineEnds | kernel/vbe.c:41-98 | The line starts and ends at its end points |
| Line.LineConnected | kernel/vbe.c:81-97 | Each step goes to one of the eight neighbours, one pixel along the major axis |
| Line.LineAccurate | kernel/vbe.c:81-97 | The minor coordinate is the ideal one rounded down |
| Line.LineInBox | kernel/vbe.c:41-98 | Every point lies in the box of the end points |
| Line.LinePaints | kernel/vbe.c:28-98 | Between points on the screen, exactly max(dx, dy) + 1 words of the frame buffer are painted, all inside it |
| Line.PaintedOver | kernel/vbe.c:28-98 | Every other word stays as it was |
| Line.PixelOrder | kernel/vbe.c:28-32 | The frame buffer starts with the top left pixel, the right neighbour is the next word, and the pixel below is 800 words further on |
| Line.HorizontalLine | kernel/vbe.c:28-98 | A horizontal line paints exactly the consecutive words 800 * y + x1 to 800 * y + x2 and leaves all others |
| Line.VerticalLine | kernel/vbe.c:28-98 | A vertical line paints exactly every 800th word between its ends |
| Itoa.PutDigits | libc/stdlib.c:34-40 | The digit loop writes the digits, lowest first, behind what is there |
| Itoa.ReverseRange | libc/stdlib.c:54-60 | The exchange loop reverses the range in place |
| Itoa.Itoa | libc/stdlib.c:3-61 | The string left for every value and base, its terminator, and every other character unchanged |
| Itoa.TextFits | libc/stdlib.c:3-61 | With the terminator at most 12 characters |
| Itoa.TextEmpty | libc/stdlib.c:12-17 | No character is left exactly for bases other than 2, 10 and 16, and in base 2 for a negative value |
| Itoa.DecimalRoundTrip | libc/stdlib.c:3-61 | In base 10 the string reads back as the value exactly for every int but the least |
| Itoa.HexRoundTrip | libc/stdlib.c:3-61 | In base 16 exactly for the values that are not negative |
| Itoa.BinaryRoundTrip | libc/stdlib.c:7-7 | In base 2 the string of a value that is not negative is the decimal one; a value reads back exactly if it is 0 or 1, a negative one from no string whatever |
| Itoa.NoLeadingZero | libc/stdlib.c:3-61 | No zero in front of a number other than 0 |
| Fifos.Fifo.Insert | kernel/include/queue.h:22-31 | Appends the byte, or refuses it exactly when size - 1 bytes wait |
| Fifos.Fifo.Get | kernel/include/queue.h:33-42 | Takes the oldest byte, or leaves everything as it was when none waits |
| Fifos.Fifo.Empty | kernel/include/queue.h:44-47 | 1 exactly when nothing waits |
| Keyboards.Keyboard.PutKey | kernel/keyboard.c:141-185 | What a key queues and when the reboot message appears; CapsLock affects neither |
| Keyboards.Keyboard.Callback | kernel/keyboard.c:54-188 | One interrupt on status, break flag and queue |
| Keyboards.Keyboard.GetKey | kernel/keyboard.c:250-262 | The oldest key, or 0 when none waits |
| Keyboards.Keyboard.KeysAvailable | kernel/keyboard.c:236-248 | 1 exactly when no key waits |
| KeyboardRuns.InterruptStatus | kernel/keyboard.c:72-153 | An interrupt keeps this: a modifier bit is set exactly if the last scancode of its keys is a make code, a lock bit exactly if its key was pressed an odd number of times, and the break flag is clear |
| KeyboardRuns.HeldKeys | kernel/keyboard.c:72-110 | Both Shift keys, Ctrl and Alt, by their scancodes: pressing sets the bit and letting go clears it |
| KeyboardRuns.LockKeys | kernel/keyboard.c:111-139 | The three lock keys, by their scancodes: pressing turns the bit over and letting go does nothing |
| KeyboardRuns.RunKeepsInv | kernel/keyboard.c:54-262 | For every interleaving of interrupts and reads: the status bits are what the scancodes say, the keys taken are the keys given out followed by the keys waiting, in order, at most 63 wait, and none is 0 |
| KeyboardRuns.ZeroMeansEmpty | kernel/keyboard.c:250-262 | kbd_get_key answers 0 exactly when no key waits |
| KeyboardRuns.InertScancodes | kernel/keyboard.c:72-187 | Leaving out every scancode of Ctrl, Alt and the locks and every release but that of Shift changes no answer of any run |
| KeyboardTexts.KeyQueues | kernel/keyboard.c:15-37 | Each key of the four character rows and the space bar queues its legend, with Shift the upper one |
| KeyboardTexts.Capitals | kernel/keyboard.c:15-37 | With Shift a letter key gives the capital |
| KeyboardTexts.TypedComesBack | kernel/keyboard.c:54-262 | A text typed on these keys, Shift pressed and let go as needed, and then read comes back character by character: all of it up to 63 characters, the first 63 of a longer one, and 0 from then on |
| KeyboardRuns.ControlKeys | kernel/keyboard.c:15-37 | Escape, Backspace, Tab and Enter queue 27, 8, 9 and 10, with Shift too |
| KeyboardRuns.KeypadKeys | kernel/keyboard.c:20-23 | What the thirteen keys of the keypad queue without Shift |
| KeyboardRuns.FunctionKeys | kernel/keyboard.c:158-171 | F1 to F11 and the codes without a key queue nothing, F12 its code, and code 56 a backslash |
| KeyboardRuns.ShiftedKeypad | kernel/keyboard.c:15-37 | Among function keys and keypad, Shift leaves the queued key as it is exactly before code 4A and at the two codes without a key |
| KeyboardRuns.ShiftedKeyToTheRight | kernel/keyboard.c:25-37 | Behind the missing entry shift_map names the key to the right, but for the backslash |
| KeyboardRuns.RebootKey | kernel/keyboard.c:173-177 | The reboot message appears exactly for Ctrl, Alt and Del, and with Shift for the key before Del |

## Left out

- Port I/O, control registers, interrupt masking, `kprintf` and the keyboard LEDs: effects with no result to state.
- GDT, IDT, ISR, PIC and timer set-up, video console, GUI, shell and mouse: table filling, dispatch and output.
- `kmalloc_int` once the heap exists: it calls back into `get_page`. Placement and heap are separate models, and the heap's `expand` and `contract` change a set of mapped pages instead of the page tables.
- HeapText.Alloc: requires a request below 2^31 - 20 and addresses below 0x7FFF0000, so that no sum wraps and the casts to `long` in the search are exact; the kernel's heap lies below that limit.
- HeapRun.RunIsSafe: runs are runs of safe steps; `HeapRun.RunExact` speaks of all runs and says when they are these, but of a run past its first unsafe event it says no more than that that event went wrong.
- HeapRoundTrip.AllocFree: speaks of safe allocs; what an unsafe one hands out is the subject of `AllocExact` and `UnsafeBreaks`.
- KernelHeaps.Heap.Alloc: the index, with the words behind it that create_heap skips, must have a free entry, which the source does not check; see `IndexHasRoom` and `IndexOutgrows`.
- KernelHeaps.Heap.Free: the same free entry; a program that frees an address that is not a live block is not modelled beyond the equality with `HeapText.Free`.
- OrderedArrays.OrderedArray.Insert: there must be memory behind a full array, as the source takes for granted; what else may live there is not modelled.
- OrderedArrays.OrderedArray.Remove: the same memory is read.
- Accesses that would straddle the top of memory read 0 and write nothing; the index array lies below the heap and is modelled as a sequence beside memory, so that in the model an index that outgrows it overwrites nothing.
- The comparison of an ordered index is an argument of `Insert` instead of a stored function pointer; `create_ordered_array` and `destroy_ordered_array` are not used by the heap.
- Supervisor and read-only marks of a heap, and the accessed, dirty and reserved bits of a page entry: nothing here depends on them.
- Paging.Pager.AllocFrame: requires a free frame, since the source goes on with ULONG_MAX when there is none.
- Paging.Pager.FreeFrameIntended: a corrected form of free_frame that is not in the source, kept for comparison.
- FrameAccounts.RunKeepsAccounts: speaks of the corrected free_frame; the one in the source is the subject of `RunAsWrittenExact`.
- KernelHeaps.Heap.Expand: a set of mapped pages stands for the page tables, so that a page which free_frame as written leads to share frame 0 is not seen in heap memory.
- Boot.BootPaging: takes the whole bitmap as zero at the start, of which the source clears a quarter, and as apart from the directory.
- Line.Screen.DrawLine: coordinates below 2^30, so that their differences and the accumulator fit an int; the frame buffer is a map from word position to colour.
- Itoa.Itoa: the buffer must have 12 characters, and 256 for a negative value in base 2, where the reversal runs over them.
- `switch_page_directory` is commented out in the source; multiboot.h and the build files have no behaviour to model.
