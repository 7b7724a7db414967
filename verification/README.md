# Verified model of the limix memory stack

limix is a small x86-64 kernel. This project models the parts of it whose correctness is not
obvious from reading them, and proves what they promise.

- **Physical pages** (`PageTags`, `PageAllocator`, `PageOwnership`, `PageInit`). The free set is an
  unsorted array of `(start, length)` tags that `_fix_memtags` compacts in place. The model keeps the
  array, the nested loops with their index step-back, and the wrap-around of `memory_tag_count - 1`
  for an empty list. Over any run of requests and releases every page is free or in exactly one held
  block.
- **Page tables** (`Addressing`, `PageTables`, `AddressSpace`). Physical memory is a function from
  words to 64-bit values; the processor's walk is that of section 4.5 of the Intel SDM, Volume 3A,
  large pages included. The kernel edits the tables only through the self-referencing slot 260, and
  the recursive-slot theorem says where those accesses end. One `vmm_map` changes one translation.
- **Kernel heap** (`HeapSegments`, `HeapPolicy`, `HeapLinks`, `HeapBacking`, `Heap`, `HeapBlocks`,
  `HeapCounters`). The headers live in memory, as six words at the start of each segment, and every
  operation is the list of stores that the code makes. The heap owns an address space, which owns a
  page allocator, so one invariant spans all three layers: the list tiles the heap, no two
  neighbours are free, every heap page is mapped to a frame of its own, no such frame is a page
  table or free, and every heap word is what the processor reads at its address. Clients see
  isolated blocks, which they write and read through the page tables.
- **Heap under its lock** (`HeapProgram`, `HeapLock`). `kmalloc` and `kfree` once more, as programs of
  single stores, for any number of CPUs. The list in memory breaks while they run; it is well formed
  whenever the lock is clear, and then it is what the operations give one after the other. What a
  round of `kmalloc` and a section of `kfree` give is proved on the stores themselves.
- **Spinlock** (`SpinLock`). Any number of CPUs, one instruction at a time. Every interleaving of the
  critical sections, step by step, equals running them one by one; what each section keeps when it
  runs alone holds whenever the lock is clear.
- **Terminal** (`Terminal`, `TerminalCodes`). The buffer is a window, moving by four lines, on paper
  without end, and each cell of the screen is right or about to be redrawn; what each rendition code
  and control character does is stated in the colours and cells themselves.
- **Rasterisers** (`Raster`), **CRC-32** (`Crc32`), **memory copies** (`MemoryCopy`), **numbers and
  formatting** (`NumberText`, `Formatting`), each against an independent definition: the true line
  and circle, polynomial long division, a copy made at once, reading a numeral from left to right,
  and the text of a parsed format string.

A method that stands for code which may panic returns `ok`; `ok == false` means that the kernel
stopped there.

Where the code does not do what one would expect, the model follows the code, and the exact
condition is proved:

- `mark_pages` with a block that starts right behind a free one takes pages in front of the block
  (`PageOwnership.MarkTakesWrongPages`); `MarkIsExactIff` says exactly when it takes the block.
- `pmm_init` therefore loses usable pages whenever a gap or a reserved entry of a page or more
  follows a usable one, and always at the page of its own tag array unless that lies at the end of
  the map or leaves nothing (`PageInit.PmmInit`, `PageInit.TagPageCostsMore`). `vmm_init` loses the
  page in front of the root table if it was free.
- The heap counters drift from the recount by 48 bytes for every split; `HeapCounters` shows which
  three updates would make them exact.
- The slides of `_fix_memtags` move more tags than there are behind the deleted one. From 130 tags on
  they may write behind the page of the tag array (`PageAllocator.SlideLeavesArray`, reached by one
  `free_page` with 129 tags); one slide stays inside exactly under `PageAllocator.SlideInsideIff`, and
  with at most 129 tags all do (`PageAllocator.Pmm.FixMemtags`).
- `vmm_mapping` reports the top twelve bits of the leaf entry as part of the address
  (`PageTables.MappingIsTranslationIff`, `PageTables.MappingOfNoExecute`); entries that `vmm_map` writes
  have none of them set.
- `ntos` reports an overflow for numbers that fill all places exactly (`NumberText.OverflowIff`), and
  its signed form drops the digits of negative numbers (`NumberText.NegativesLookAlike`) and puts the
  sign between padding and digits (`NumberText.SignedReadsBack`).
- In `kvfprintf`, `%d` is unsigned binary, `%o` carries a sign, `%l` is padded hexadecimal, and after
  `%` characters that are no directive are skipped, a second `%` among them. The header of
  `krealloc` names its two size parameters in the opposite order to the definition; the definition
  counts.

Check the whole project with `dafny verify dfyconfig.toml`.

## Model

| member | source | states |
|---|---|---|
| `PageTags.WithoutEmptyKeepsPages` | kernel/src/mm/pmm.c:21-29 | deleting an empty tag keeps the set of free pages and their disjointness |
| `PageTags.MergeKeepsPages` | kernel/src/mm/pmm.c:32-51 | absorbing a later tag that starts inside or right behind an earlier one keeps the set of free pages, disjointness and non-emptiness |
| `PageAllocator.Pmm.DropEmptyTags` | kernel/src/mm/pmm.c:21-29 | in spite of deleting while iterating, afterwards no tag is empty and the same pages are free; the count of changes is the number of tags lost |
| `PageAllocator.Pmm.MergeInto` | kernel/src/mm/pmm.c:31-52 | tag i absorbs all later tags that touch it as it grows; without a change none touched it; nothing from `SlideReach` on is written |
| `PageAllocator.Pmm.MergePass` | kernel/src/mm/pmm.c:30-53 | one pass, including the wrapped bound for an empty list, keeps the pages; a pass without changes means normal form |
| `PageAllocator.Pmm.FixMemtags` | kernel/src/mm/pmm.c:19-56 | terminates with strictly fewer tags per recursive call, keeps the free set exactly, ends with no empty tag and no later tag touching an earlier one; with at most 129 tags nothing behind the array is written |
| `PageAllocator.Pmm.Slide` | kernel/src/mm/pmm.c:43-44 | the memory move by one tag is a copy made at once, also where it runs past the live tail |
| `PageAllocator.Pmm.Delete` | kernel/src/mm/pmm.c:25-28 | the over-long slide deletes exactly tag k from the live list |
| `PageAllocator.SlideInsideIff` | kernel/src/mm/pmm.c:43-44 | the slide at (i, j) with count tags writes inside the 256 tags if and only if j + count <= 257 + i |
| `PageAllocator.SlideBound` | kernel/src/mm/pmm.c:31-52 | with n tags no slide of the inner loop reaches beyond 2n - 2 |
| `PageAllocator.SlideLeavesArray` | kernel/src/mm/pmm.c:43-44 | the concrete case: 129 single pages in normal form and one page freed behind the first make a slide write tags 256 and 257 |
| `PageAllocator.NormalFormHits` | kernel/src/mm/pmm.c:61-67 | in normal form no earlier tag intercepts the scan for the first page of a tag |
| `PageAllocator.HeadIsTaken` | kernel/src/mm/pmm.c:67-71 | so marking the head of a tag takes exactly the block asked for and never needs a split |
| `PageAllocator.TrimTakes` | kernel/src/mm/pmm.c:67-85 | each of the three ways of trimming a tag removes exactly the pages of `Taken` from the free set |
| `PageAllocator.AppendAdds` | kernel/src/mm/pmm.c:148-150 | a new tag adds exactly its block, and stays disjoint if the block was not free |
| `PageAllocator.Pmm.MarkPages` | kernel/src/mm/pmm.c:58-88 | panics exactly when a tag would have to be split; otherwise the free set loses exactly `Taken` |
| `PageAllocator.Pmm.FreePages` | kernel/src/mm/pmm.c:142-152 | panics exactly when the tag array is full; otherwise the free set gains exactly the block |
| `PageAllocator.Pmm.AddTag` | kernel/src/mm/pmm.c:148-151 | the new tag and its normalisation; with at most 128 tags before, nothing behind the array is written |
| `PageAllocator.Pmm.RequestPages` | kernel/src/mm/pmm.c:164-176 | first fit: succeeds exactly if some tag is long enough, returns the start of the first such tag, removes exactly the block from the free set |
| `PageAllocator.Pmm.RequestPage` | kernel/src/mm/pmm.c:154-162 | succeeds exactly if there is a tag, returns the first page of the first tag, removes exactly this page |
| `PageOwnership.HitBehindTag` | kernel/src/mm/pmm.c:61-77 | the scan stops at the end of a tag exactly when the page is taken and the page before it is free |
| `PageOwnership.MarkOutcome` | kernel/src/mm/pmm.c:58-88 | what marking takes for any count and each way to meet a tag: from its start the first pages, at most the tag; right behind it that many pages from its end backwards; from inside all up to its end; away from all tags nothing |
| `PageOwnership.MarkIsExactIff` | kernel/src/mm/pmm.c:58-88 | marking takes exactly the block if and only if the block is empty, or does not start right behind a free page and reaches no second tag |
| `PageOwnership.MarkTakesWrongPages` | kernel/src/mm/pmm.c:73-77 | the concrete case: marking pages 10 to 12 with 0 to 9 free takes pages 7 to 9 |
| `PageOwnership.Serve` | kernel/src/mm/pmm.c:136-176 | a granted page is the first of the first tag, a granted block the first fit, and it joins what is held and leaves the free set; a release takes exactly that block off what is held and frees exactly its pages; held and free pages stay disjoint with the same union; refused only where the kernel stops |
| `PageOwnership.Run` | kernel/src/mm/pmm.c:136-176 | over a whole run of a client that releases only what it holds, each operation in turn is served as above, shown by a trace of all states; no page is ever in two blocks, lost or invented; the run stops early only where the kernel stops |
| `PageInit.MarkStep` | kernel/src/mm/pmm.c:125-132 | marking above all usable pages keeps "free is exactly what is usable so far" if and only if it is empty or does not follow a usable page |
| `PageInit.MapEntry` | kernel/src/mm/pmm.c:123-132 | one turn of the map loop never frees an unusable page, and is lossless if and only if it is harmless |
| `PageInit.BuildFreeList` | kernel/src/mm/pmm.c:121-133 | the free set is within the usable pages, and equals them if and only if every entry is harmless |
| `PageInit.ShrinkTakesTagPage` | kernel/src/mm/pmm.c:117-119 | cutting the tag array off removes exactly its page from the usable ones |
| `PageInit.TagPageCostsMore` | kernel/src/mm/pmm.c:117-127 | unless the entry is the last or has nothing left, the page of the tag array itself makes the build lossy |
| `PageInit.PmmInit` | kernel/src/mm/pmm.c:90-134 | picks the first usable entry that holds the tag array; only usable pages outside the array become free, all of them exactly when the adjusted map is harmless |
| `Addressing.IndicesOfAddress` | kernel/include/mm/vmm.h:16-31 | every address built by VMM_PMI2ADDR is canonical with the four indices at bits 39, 30, 21 and 12, and shift-and-mask extraction gives back all four and the word |
| `Addressing.IndicesDeterminePage` | kernel/src/mm/vmm.c:29-32 | canonical addresses with equal indices lie in the same page |
| `Addressing.PageOfIndices` | kernel/src/mm/vmm.c:29-32 | sign and four nine-bit indices of a canonical address make up its page number |
| `Addressing.EntryFields` | kernel/include/mm/vmm.h:6-9 | an entry holds the frame above its low twelve bits and, in them, the flags with bit zero set; so it is present, writeable and large just as the flags say, and gives the frame back to kernel and processor |
| `Addressing.EntryFlag` | kernel/src/mm/vmm.c:63-63 | each of the bits 1 to 11 is set in the entry exactly if it is set in the flags |
| `PageTables.RecursiveSlot` | kernel/include/mm/vmm.h:24-31 | the processor's walk of word k at VMM_FRACTAL_PML4, PDP, PD or PT ends in word k of exactly that table, through slot 260, and may store there exactly if all entries that lead to the table are writeable |
| `PageTables.ReachIsRole` | kernel/src/mm/vmm.c:34-62 | in a tree of tables, the table reached by given indices is the one registered for them |
| `PageTables.ReachStable` | kernel/src/mm/vmm.c:37-63 | changing a leaf entry, the self-referencing slot or an entry that led nowhere moves no reachable table |
| `PageTables.WalkStable` | kernel/src/mm/vmm.c:63-63 | changing a leaf entry that an address does not use keeps its translation |
| `PageTables.AddTable` | kernel/src/mm/vmm.c:36-40 | hanging in a fresh cleared table, writeable, keeps the tree, all paths writeable, and every translation |
| `PageTables.SetLeaf` | kernel/src/mm/vmm.c:62-63 | writing a leaf entry gives its page the new frame, writeable exactly if the entry is, and changes neither frame nor permission of any other page |
| `PageTables.LeafAccess` | kernel/src/mm/vmm.c:28-66 | below a writeable path, a page may be stored to exactly if its leaf entry is writeable |
| `PageTables.LeafKeepsTree` | kernel/src/mm/vmm.c:62-63 | writing a leaf entry keeps the tree, all tables where they are, and the path to the leaf writeable |
| `PageTables.AddTableNotLarge` | kernel/src/mm/vmm.c:36-42 | hanging in a table brings no large-page bit onto any path |
| `PageTables.SetSelfSlot` | kernel/src/mm/vmm.c:11-17 | setting slot 260 completes the tree and changes no translation outside the slot |
| `PageTables.NewRootShares` | kernel/src/mm/vmm.c:18-26 | a copied root with its lower half cleared maps what the old one maps above, and nothing below |
| `PageTables.MappingIsTranslationIff` | kernel/src/mm/vmm.c:94-97 | the frame that the processor uses is the reported page modulo 2^40; they are equal if and only if the leaf entry is below 2^52, that is, has none of its top twelve bits set |
| `PageTables.MappingOfNoExecute` | kernel/src/mm/vmm.c:94-97 | the concrete case: an entry with bit 63 set is reported as a page that does not exist |
| `AddressSpaces.MarkBehindFree` | kernel/src/mm/pmm.c:58-88 | marking one page that is not free takes exactly the page in front of it |
| `AddressSpaces.AddressSpace.constructor` | kernel/src/mm/vmm.c:11-17 | `vmm_init` establishes the tree, keeps all translations, and costs the page in front of the root if it was free |
| `AddressSpaces.AddressSpace.HangTable` | kernel/src/mm/vmm.c:36-40 | the new table is a free page, hung in with the entry frame * 0x1000 + 3, present and writeable, through slot 260, and cleared through the address read back; the tree, all its paths writeable, goes on |
| `AddressSpaces.AddressSpace.EnsureTable` | kernel/src/mm/vmm.c:34-42 | afterwards the entry leads to a table, no translation has changed, a present entry is left alone, and a large-page bit panics |
| `AddressSpaces.AddressSpace.EnsurePath` | kernel/src/mm/vmm.c:29-62 | tables down to the page; fails only for a large-page bit on the way or want of pages |
| `AddressSpaces.AddressSpace.Map` | kernel/src/mm/vmm.c:28-66 | the leaf entry is the frame with exactly the given flags and bit zero; the page translates to p, and may be stored to exactly if the flags say writeable; `vmm_mapping` agrees; every other page outside slot 260 keeps translation and permission; new tables come from free pages, the tables stay a tree with writeable paths; it fails only for want of pages or at a large-page bit, and brings none onto any path |
| `AddressSpaces.AddressSpace.NewSpace` | kernel/src/mm/vmm.c:18-26 | the second root is a free page, shares the upper half, maps nothing below, points to itself, and disturbs nothing else |
| `AddressSpaces.AddressSpace.FindMapping` | kernel/src/mm/vmm.c:67-98 | the walk through slot 260 computes the mapping defined on physical memory, and panics exactly on present large pages |
| `HeapSegments.HeadersMissPayloads` | kernel/src/mm/heap.c:54-154 | changes confined to headers change no word of a live block |
| `HeapSegments.MergeKeeps` | kernel/src/mm/heap.c:64-69 | the stores of a merge turn the list in memory into the merged list, tiling and double links intact, and touch headers only |
| `HeapSegments.SplitKeeps` | kernel/src/mm/heap.c:120-134 | the nine stores of a split do the same for the split list |
| `HeapSegments.AppendKeeps` | kernel/src/mm/heap.c:98-108 | the stores of a growth do the same for the list with a new last segment |
| `HeapSegments.MarkKeeps` | kernel/src/mm/heap.c:148-148 | setting or clearing the used flag keeps tiling and links |
| `HeapPolicy.TakeCoalesced` | kernel/src/mm/heap.c:169-184 | allocating keeps the list free of neighbouring free segments |
| `HeapPolicy.FreedCoalesced` | kernel/src/mm/heap.c:148-152 | so does freeing with both merges |
| `HeapPolicy.ExpandedCoalesced` | kernel/src/mm/heap.c:98-112 | so does growing, which leaves a free last segment of known size |
| `HeapPolicy.FreeUndoesTake` | kernel/src/mm/heap.c:141-184 | freeing what was just allocated restores the list of (address, size, used) exactly |
| `HeapPolicy.RecountMarked` | kernel/src/mm/heap.c:207-218 | taking or freeing changes the recount by the size of the segment |
| `HeapPolicy.RecountMerged` | kernel/src/mm/heap.c:207-218 | a merge of free segments lowers the recount by one header |
| `HeapPolicy.RecountSplit` | kernel/src/mm/heap.c:207-218 | a split of a free segment raises the recount by one header |
| `Heaps.Heap.CheckCanary` | kernel/src/mm/heap.c:23-29 | stops exactly on a damaged header |
| `Heaps.Heap.Poke` | kernel/src/mm/heap.c:43-49 | a store to a heap word goes through the page tables, which must allow it, changes that word only, and keeps mapping, backing and agreement of heap words and physical memory |
| `HeapBacking.BackedGrows` | kernel/src/mm/heap.c:93-97 | mapping one more page keeps all heap pages mapped writeable to frames of their own, none of them a table or free |
| `Heaps.Heap.MapHeapPage` | kernel/src/mm/heap.c:93-97 | the frame joins the heap with what it holds, the top moves by a page, no word below changes; fails only for want of pages or at a large-page bit |
| `Heaps.Heap.Init` | kernel/src/mm/heap.c:31-52 | one free segment of 0xffd0 bytes at 0xfffffff800000000, top 16 pages up, counters 0xffd0 free, 48 used and 48 overhead, and the whole invariant |
| `Heaps.Heap.CombineForward` | kernel/src/mm/heap.c:54-73 | merges with the next segment exactly if that is free: then used falls, free and overhead rise by 48; keeps list, last pointer, counters law and live blocks |
| `Heaps.Heap.CombineBackward` | kernel/src/mm/heap.c:75-83 | the same for the previous segment |
| `Heaps.Heap.HeapSplit` | kernel/src/mm/heap.c:115-139 | splits exactly if 16 bytes are left for another segment: then overhead rises by 48, used and free stay; keeps list, last pointer, counters law and live blocks |
| `Heaps.Heap.AppendSegment` | kernel/src/mm/heap.c:98-112 | the pages just mapped become a free last segment, merged into the old last one if that was free: used and overhead rise by 48, free by 8, and a merge counts besides |
| `Heaps.Heap.ExpandHeap` | kernel/src/mm/heap.c:85-113 | for any size, also zero: grows by the bytes asked for, rounded up to pages, with the counters moved for one growth and for the merge if there was one; keeps every live word and the backing of all pages; on failure says why |
| `Heaps.Heap.TryAllocate` | kernel/src/mm/heap.c:164-189 | takes the lowest segment that fits, splitting it if more than 96 bytes larger, finds one exactly if there is one; used rises and free falls by the bytes handed out, overhead by 48 exactly for a split |
| `Heaps.Heap.Search` | kernel/src/mm/heap.c:163-188 | the search stops at the first free segment that is large enough, and finds none exactly if there is none; reading changes nothing |
| `HeapLinks.GrowthBounds` | kernel/src/mm/heap.c:85-91 | a growth is of whole pages: the request and its header, and less than a page more |
| `HeapLinks.RoundUpSixteen` | kernel/src/mm/heap.c:157-160 | requests become multiples of sixteen, less than sixteen bytes larger |
| `HeapLinks.ExpandedFits` | kernel/src/mm/heap.c:85-113 | after growing, the last segment and only it fits the request, so the retry succeeds |
| `Heaps.Heap.KMalloc` | kernel/src/mm/heap.c:156-193 | first fit in the heap as it is or grown once, at most one retry, 16-aligned block, cut to the rounded size if the segment was more than 96 bytes larger and whole otherwise, new to the live blocks; used and free move by exactly its bytes, with a split, a growth and a merge counted exactly where the lists show them; keeps every live word and the invariant of all three layers, lock released; fails only if nothing fits and no page is left or a large-page bit is in the way |
| `Heaps.Heap.KFree` | kernel/src/mm/heap.c:141-154 | the block leaves the live set, free neighbours merge, every other live word is kept, lock released; used falls and free rises by its bytes, and each merge, as many as the list lost segments, moves 48 more; null changes nothing |
| `Heaps.Heap.StoreInBlock` | kernel/src/mm/heap.c:156-193 | a client's store inside a live block changes that word, through the page tables, and keeps the whole invariant |
| `HeapLinks.FreeUndoesMalloc` | kernel/src/mm/heap.c:141-193 | freeing a block just handed out restores the list as it was, or as growing left it |
| `HeapLinks.BlocksApart` | kernel/src/mm/heap.c:156-193 | live blocks do not overlap each other or any header of a live block, and lie inside the heap |
| `HeapLinks.HeaderLayout` | kernel/include/mm/heap.h:9-16 | the words of a header at offsets 0 to 40: canary, size, prev, next, used, canary; the payload behind them, and the next segment behind that |
| `Heaps.CounterSteps` | kernel/src/mm/heap.c:70-72 | each counter update as written keeps the drift law |
| `Heaps.Heap.GetCounters` | kernel/src/mm/heap.c:203-205 | the three counters modulo 2^64; used memory is the recount minus 48 per split (and minus bytes freed twice), used plus free is 0x10000 plus 56 per growth, overhead is 48 per segment plus 96 per merge |
| `Heaps.Heap.GetUsedOld` | kernel/src/mm/heap.c:207-218 | the walk over the list returns the recount modulo 2^32 |
| `Heaps.U32Fits` | kernel/src/mm/heap.c:207-218 | a total below 2^32 is returned as it is, any other differs from what is returned by a multiple of 2^32 |
| `HeapCounters.StartExact` | kernel/src/mm/heap.c:38-40 | the counters that `heap_init` sets are exact: recount, heap size and 48 bytes per segment |
| `HeapCounters.TakeExact` | kernel/src/mm/heap.c:169-184 | with the split's update corrected, allocating keeps all counters exact |
| `HeapCounters.FreeExact` | kernel/src/mm/heap.c:70-72 | with the merge's update corrected, freeing keeps all counters exact |
| `HeapCounters.ExpandExact` | kernel/src/mm/heap.c:109-112 | with the growth's update corrected, growing keeps all counters exact |
| `HeapBlocks.HeapClient.Malloc` | kernel/src/mm/heap.c:156-193 | a client gets a block at an address no live block has; all other blocks keep size and contents |
| `HeapBlocks.HeapClient.Free` | kernel/src/mm/heap.c:141-154 | exactly that block goes; all other blocks keep size and contents |
| `HeapBlocks.HeapClient.Write` | kernel/src/mm/heap.c:156-193 | a store inside a block changes that word of that block only, and harms no header |
| `HeapBlocks.HeapClient.Read` | kernel/src/mm/heap.c:156-193 | a load through the page tables gives a word as last written, whatever happened to other blocks since |
| `HeapBlocks.MallocCouples` | kernel/src/mm/heap.c:156-193 | a new live segment becomes a new block, and the contents of the others carry over |
| `HeapBlocks.FreeCouples` | kernel/src/mm/heap.c:141-154 | removing a live segment removes its block, and the contents of the others carry over |
| `HeapBacking.HeapWordLocation` | kernel/src/mm/heap.c:35-37 | each heap word has its physical word in the frame of its page |
| `HeapBacking.FlatStore` | kernel/src/mm/heap.c:93-97 | a store through the page tables changes that heap word, no other heap word, no table and no translation |
| `HeapBacking.GrowthKeepsWords` | kernel/src/mm/heap.c:93-97 | mapping further pages moves or changes no heap word |
| `HeapBacking.StoreReflects` | kernel/src/mm/heap.c:93-97 | after a store through the page tables all heap words still are what the processor reads |
| `HeapBacking.MapFacts` | kernel/src/mm/heap.c:93-97 | after a page is mapped all heap words, old and new, are what the processor reads, and the old ones are unchanged |
| `HeapProgram.SearchRuns` | kernel/src/mm/heap.c:164-189 | the search, header by header, stops at the first segment that fits, or learns that there is none |
| `HeapProgram.SplitRuns` | kernel/src/mm/heap.c:120-137 | the ten steps of a split, one store each, amount to the stores of `HeapSegments.SplitKeeps` and the new last pointer |
| `HeapProgram.AppendRuns` | kernel/src/mm/heap.c:98-108 | so do the nine steps of a growth |
| `HeapProgram.MergeRuns` | kernel/src/mm/heap.c:64-69 | and the four steps of a merge |
| `HeapProgram.ForwardRuns` | kernel/src/mm/heap.c:54-73 | the merge with the next segment happens exactly if that is free, and changes no word of a live block |
| `HeapProgram.BackwardRuns` | kernel/src/mm/heap.c:75-83 | the merge with the previous segment happens exactly if that is free, and changes no word of a live block |
| `HeapProgram.GrowRuns` | kernel/src/mm/heap.c:93-112 | mapping pages, appending and merging backwards step by step is the growth of the list, and changes no word of a live block |
| `HeapProgram.SectionEffect` | kernel/src/mm/heap.c:141-193 | a whole section, run store by store without interruption, leaves the list well formed and coalesced, with first fit taken, heap grown or segment freed |
| `HeapProgram.RoundServes` | kernel/src/mm/heap.c:156-193 | a round of `kmalloc`, store by store, that visits all segments: if one fits, the first that does is handed out, cut or whole, in register `seg`; if none does, the heap has grown and then fits, and the retry hands out a segment of it; one more block is live, no other block or word of one has changed; the lists are those that serial execution gives |
| `HeapProgram.FreeServes` | kernel/src/mm/heap.c:141-154 | a section of `kfree`, store by store: exactly that block goes, the list is coalesced, no word of another block has changed |
| `HeapLock.HeapIsSerializable` | kernel/src/mm/heap.c:143-191 | in every interleaving of the single stores of any number of CPUs, whenever the heap lock is clear the list in memory is what the sections give one after the other, in an order that keeps each CPU's own |
| `HeapLock.HeapWellFormedWhenClear` | kernel/src/mm/heap.c:143-191 | so the list is well formed and coalesced whenever the heap lock is clear |
| `HeapLock.HalfSplitBreaks` | kernel/src/mm/heap.c:123-130 | after the store to `next` in a split there is no list of segments that the memory could stand for |
| `HeapLock.BrokenWhileHeld` | kernel/src/mm/heap.c:163-171 | that state is reached, with the lock set, whenever a CPU allocates from a fresh heap, whatever the other CPUs have to do |
| `SpinLocks.StepKeepsGood` | libk/src/kipc/spinlock/spinlock.asm:1-10 | every instruction of every CPU keeps the protocol's invariant |
| `SpinLocks.MutualExclusion` | libk/src/kipc/spinlock/spinlock.asm:1-10 | in every reachable state at most one CPU is inside, and the lock word is set exactly while one is |
| `SpinLocks.Serializable` | libk/src/kipc/spinlock/spinlock.asm:1-10 | with the lock clear, the data is what the sections give one by one, in an order that respects each CPU's own |
| `SpinLocks.InvariantWhenClear` | libk/src/kipc/spinlock/spinunlock.asm:1-3 | an invariant that each section keeps alone holds whenever the lock is clear |
| `SpinLocks.NoDeadlock` | libk/src/kipc/spinlock/spinunlock.asm:1-3 | from every reachable state all CPUs can run to their ends |
| `Terminal.PrintInParts` | kernel/src/gfx/vt/vt.c:144-154 | on the paper, printing a string in parts is printing it whole |
| `Terminal.TextFillsLines` | kernel/src/gfx/vt/vt.c:132-140 | text without control characters fills the lines from the cursor on, wrapping at the width, in the current colours, and touches nothing else |
| `Terminal.TopOfNext` | kernel/src/gfx/vt/vt.c:116-119 | the window moves by four lines exactly when the cursor would leave it |
| `TerminalCodes.CodeChanges` | kernel/src/gfx/vt/vt.c:160-234 | BEL and a code: what each code does to dim, bold, reverse and the two colour numbers, and that nothing else changes |
| `TerminalCodes.InkShows` | kernel/src/gfx/vt/ansi.c:4-34 | the colours a character is drawn in, by the three colour tables: bold over dim over normal, exchanged in reverse; all other cells stay |
| `TerminalCodes.CodePrints` | kernel/src/gfx/vt/vt.c:160-277 | BEL, a code and a character print the character in the rendition that the code leaves |
| `TerminalCodes.CodesOnBlank` | kernel/src/gfx/vt/vt.c:160-277 | for each of the 23 codes, the glyph and the two colours that BEL, the code and a character leave on the screen of a fresh terminal |
| `TerminalCodes.ControlsMove` | kernel/src/gfx/vt/vt.c:237-265 | TAB goes eight columns right, onto the next line where it must, LF one line down in the same column, CR to the start of the line, BS one column left; none prints, erases or recolours |
| `TerminalCodes.BlankIsBlack` | kernel/src/gfx/vt/vt.c:52-77 | a cleared terminal is black, with the cursor in its corner |
| `Terminal.ScrollShows` | kernel/src/gfx/vt/vt.c:120-127 | moving the buffer up and clearing its end shows the paper four lines further down |
| `Terminal.Terminal.constructor` | kernel/src/gfx/vt/vt.c:37-51 | a blank window on blank paper, shown unless drawing is suppressed |
| `Terminal.Terminal.Clear` | kernel/src/gfx/vt/vt.c:52-62 | the same, keeping the rendition |
| `Terminal.Terminal.Flush` | kernel/src/gfx/vt/vt.c:78-104 | from any coherent state, dirty or redrawn in full, the screen becomes the picture of the buffer; a suppressed flush draws nothing |
| `Terminal.Terminal.Redraw` | kernel/src/gfx/vt/vt.c:106-111 | the same picture, whatever the screen held |
| `Terminal.Terminal.MoveUp` | kernel/src/gfx/vt/vt.c:120-123 | the move of the kept cells is a copy made at once |
| `Terminal.Terminal.Scroll` | kernel/src/gfx/vt/vt.c:120-127 | the buffer becomes the window four lines further down |
| `Terminal.Terminal.AdvanceDown` | kernel/src/gfx/vt/vt.c:113-131 | the cursor moves to the next line of the paper; the buffer stays the window on it |
| `Terminal.Terminal.AdvanceRight` | kernel/src/gfx/vt/vt.c:132-140 | the cursor moves right, or to the start of the next line |
| `Terminal.Terminal.Put` | kernel/src/gfx/vt/vt.c:266-277 | the character lands on the paper at the cursor in the current colours, within the dirty range |
| `Terminal.Terminal.Kprintc` | kernel/src/gfx/vt/vt.c:155-284 | every character keeps cursor range and coherence, and moves window and paper alike |
| `Terminal.Terminal.Kprint` | kernel/src/gfx/vt/vt.c:144-154 | after any string the buffer is the window on the paper fed the same string, and the screen shows it unless drawing is suppressed |
| `Raster.PlotLine` | kernel/src/gfx/drm/drm.c:96-141 | max(dx, dy) + 1 points, from (x0, y0) exactly to (x1, y1), point t on step t of the long axis, within half a pixel of the true line, a tie going to the side of the start, and between the two ends in both coordinates |
| `Raster.PointNear` | kernel/src/gfx/drm/drm.c:96-141 | in the plane: point t is t pixels along the longer axis, and its cross product with the line is at most half of that axis |
| `Raster.EndsExactly` | kernel/src/gfx/drm/drm.c:129-140 | an error term in range at the end means that the short axis has been walked exactly |
| `Raster.ShortAxis` | kernel/src/gfx/drm/drm.c:129-140 | the walk never leaves the short axis, so all coordinates stay between those of the ends |
| `Raster.PlotCircle` | kernel/src/gfx/drm/drm.c:150-183 | the points are the reflections of an octant that steps by one column and at most one row until it crosses the diagonal; with each point its mirror images in both axes and the diagonal are drawn; each octant point is off by at most its ordinate, each point drawn is a nearest one |
| `Raster.Step` | kernel/src/gfx/drm/drm.c:163-172 | the decision value stays (x+1)^2 + y^2 - y - r^2, and the next point is nearest to the circle |
| `Raster.Bounded` | kernel/src/gfx/drm/drm.c:163-172 | the decision value and its intermediate values stay within twice the radius and one |
| `Raster.SmallFits` | kernel/src/gfx/drm/drm.c:150-183 | which fits in 32 bits for every radius up to 2^30 - 1 |
| `Raster.NearestCoordinate` | kernel/src/gfx/drm/drm.c:163-172 | nearest means: the true coordinate in that row or column is less than half a pixel away |
| `Crc32.Crc32Poly` | libk/src/crypt/crc32.c:5-14 | eight shifts of the register |
| `Crc32.Crc` | libk/src/crypt/crc32.c:16-21 | the complement of the remainder of long division of the message, first 32 bits complemented and 32 zeros appended, by the generator 0xEDB88320 (section 8 of RFC 1952) |
| `Crc32.Generator` | libk/src/crypt/crc32.c:5-14 | the generator is x^32 + x^26 + x^23 + x^22 + x^16 + x^12 + x^11 + x^10 + x^8 + x^7 + x^5 + x^4 + x^2 + x + 1 |
| `Crc32.ByteAtOnce` | libk/src/crypt/crc32.c:18-19 | the bytewise step equals feeding the eight bits one by one |
| `Crc32.DivisionIsRegister` | libk/src/crypt/crc32.c:16-21 | bit-serial shifting computes the remainder of long division |
| `Crc32.DivisionAlgorithm` | libk/src/crypt/crc32.c:16-21 | quotient times generator plus remainder is the dividend |
| `Crc32.RemainderUnique` | libk/src/crypt/crc32.c:16-21 | and only this quotient and remainder do that |
| `Crc32.ChecksumAffine` | libk/src/crypt/crc32.c:16-21 | for messages of equal length, crc(a^b^c) = crc(a)^crc(b)^crc(c) |
| `Crc32.BurstDetected` | libk/src/crypt/crc32.c:16-21 | messages that differ only within 32 consecutive bits have different checksums |
| `MemoryCopy.CopiedInPieces` | libk/src/utils/memory/memcpy.c:10-33 | copying in two pieces, front first, is copying at once if the first piece spares the second's source |
| `MemoryCopy.CopyChunks` | libk/src/utils/memory/memcpy.c:10-15 | each chunked loop copies all but less than a chunk, as if at once |
| `MemoryCopy.Kmemcpy` | libk/src/utils/memory/memcpy.c:3-35 | the four loops copy exactly the range, also onto an overlapping range further down |
| `MemoryCopy.Kmemmove` | libk/src/utils/memory/memmove.c:4-16 | for any overlap the result is that of a copy made at once, and nothing else changes |
| `MemoryCopy.RecordsCopied` | kernel/src/gfx/vt/vt.c:120-123 | copying the bytes of whole records copies the records, as the scroll and the tag list rely on |
| `MemoryCopy.MoveRecords` | libk/src/utils/memory/memmove.c:4-16 | moving the bytes of records inside one memory is the copy made at once that the slide of the tags and the scroll of the cells state |
| `NumberText.DigitsValue` | libk/src/utils/string/ntos.c:44-57 | the digits produced stand for n modulo base^length |
| `NumberText.DigitsLength` | libk/src/utils/string/ntos.c:44-57 | all places are used exactly from base^(length-1) on, and a number that fits has no leading zero |
| `NumberText.NumeralReadsBack` | libk/src/utils/string/ntos.c:44-64 | read from left to right, with any zeros in front, the numeral is n modulo base^length, and n exactly if n fits |
| `NumberText.NoLeadingZero` | libk/src/utils/string/ntos.c:61-62 | unpadded numerals of numbers that fit do not start with zero |
| `NumberText.Alphabet` | libk/src/utils/string/ntos.c:48-55 | the digits are 0 to 9, then a to y, then A to Y |
| `NumberText.NumeralsDiffer` | libk/src/utils/string/ntos.c:44-64 | different numbers that fit have different numerals |
| `NumberText.Reverse` | libk/src/utils/string/reverse.c:4-15 | the swap loop reverses the range and leaves the rest |
| `NumberText.WriteDigits` | libk/src/utils/string/ntos.c:45-57 | the digit loop puts down the digits, least significant first |
| `NumberText.TurnedRound` | libk/src/utils/string/ntos.c:59-64 | reversing digits and sign, with or without the padding, gives sign, padding and numeral in their places |
| `NumberText.Ntos` | libk/src/utils/string/ntos.c:6-69 | all four result codes, the whole content of the buffer up to `length`, nothing else touched |
| `NumberText.ResultIsText` | libk/src/utils/string/ntos.c:24-64 | the string left in the buffer is padding, sign and digits; if they do not fit, the digits come before the sign |
| `NumberText.UnsignedReadsBack` | libk/src/utils/string/ntos.c:43-68 | for bases 2 to 60 the string left in the buffer reads back as the number modulo base^length, padded or not; padding fills all places |
| `NumberText.SignedReadsBack` | libk/src/utils/string/ntos.c:18-64 | the signed form of numbers that are not negative, padded or not: zero has no sign, otherwise padding, plus sign and digits, which read back modulo base^length; a sign that does not fit comes last |
| `NumberText.NegativesLookAlike` | libk/src/utils/string/ntos.c:24-42 | every negative number becomes a lone minus sign |
| `NumberText.OverflowIff` | libk/src/utils/string/ntos.c:65-68 | overflow is reported exactly from base^(length-1) on |
| `NumberText.Kstrlen` | libk/src/utils/string/strlen.c:4-12 | the number of characters before the first NUL |
| `Formatting.PiecesOfBoth` | libk/src/printing/kvprintf.c:33-106 | the state machine reads two format strings in a row as the first, then the second from the state it ends in |
| `Formatting.FormatOfBoth` | libk/src/printing/kvprintf.c:33-106 | formatting two complete format strings in a row is formatting each, and putting the texts in a row |
| `Formatting.LiteralText` | libk/src/printing/kvprintf.c:96-101 | text without a percent sign is copied out |
| `Formatting.FieldReadsBack` | libk/src/printing/kvprintf.c:35-69 | all unsigned fields read back as the 64-bit argument: the places always suffice |
| `Formatting.UnsignedFields` | libk/src/printing/kvprintf.c:35-69 | `%d` reads back in base 2, `%u` in base 10, `%x` and `%l` in base 16 as the argument modulo 2^64; `%l` has sixteen digits, the others no leading zero |
| `Formatting.SignedFields` | libk/src/printing/kvprintf.c:35-69 | `%i` is a plus sign and the decimal numeral, `%o` a plus sign and the octal one; zero is 0, and every negative number a lone minus sign |
| `Formatting.OtherFields` | libk/src/printing/kvprintf.c:81-95 | `%s` is the string; behind `%`, a character that is no directive, a second `%` among them, is passed over |
| `Formatting.ReadDirective` | libk/src/printing/kvprintf.c:36-63 | the fall-through of the cases gives each directive its base, sign, padding and places |
| `Formatting.Krealloc` | libk/src/utils/heap/krealloc.c:6-14 | a new buffer with the old contents and zeros behind, or the old one if the size is the same |
| `Formatting.StringOp` | libk/src/printing/kvprintf.c:15-23 | the buffer grows by sixteen until four bytes more than needed fit, contents kept |
| `Formatting.FormatNumber` | libk/src/printing/kvprintf.c:50-67 | the 129 bytes of the number buffer start with exactly the field's text, which a NUL ends |
| `Formatting.Emit` | libk/src/printing/kvprintf.c:34-105 | one character of the format appends exactly the text of its piece |
| `Formatting.Kvfprintf` | libk/src/printing/kvprintf.c:25-108 | for every format string and matching arguments, through all regrowths, the buffer holds the text of the pieces in a row and a final NUL, and no write leaves it |

## Left out

- Port I/O, interrupts, APIC, disks, USB, ACPI, PCI, the file systems and the configuration store: device registers, foreign code and linear lookups.
- `vga.c` and the rectangles of `drm.c`: they repeat the rasterisers modelled here.
- Panics and log messages have no effect of their own; a panic is `ok == false`.
- Machine words: page numbers and addresses are integers in the range their comments name; 32-bit and 64-bit wrap-around is modelled where the code meets it (`memory_tag_count - 1`, the counters, the 32-bit recount, `mm_fix`).
- The memory behind the 256 tags belongs to the allocator as raw tags, since long lists slide into and out of it. That the slides of a list of more than 129 tags may so change a page that somebody holds is not carried into the other layers.
- The comparison of `mm_is_virtual`, and the total `memory_size`, play no part in the allocator.
- The direct map (HHDM) is direct access to physical memory; the TLB and its flushing through CR3 are not modelled.
- PageAllocator.Pmm.FreePages: releasing pages that are already free is excluded; no caller in the kernel may do so, and the tags would overlap.
- AddressSpaces.AddressSpace.Map: addresses under slot 260 itself are excluded, since mapping there rewrites the tables as tables; pages are given by number, so the low twelve bits that VMM_ADDRESS clears do not occur; flags are those of the low twelve bits, the only ones the kernel passes.
- Heaps.Heap.KMalloc: requests whose growth would carry `heap_top` past the end of the address space, or whose rounding would wrap, are excluded; clients must not overwrite headers.
- Heaps.Heap.KFree: freeing an address whose header has been merged away is excluded; freeing a current segment twice is included, and only upsets the counters.
- AddressSpaces.AddressSpace.constructor: the tables that the boot loader hands over must be writeable, since stores to read-only pages fault; the user and execute permissions of a page are stored as given but play no part in the walk.
- HeapLock.HeapIsSerializable: the counters, the canary checks and the mapping of pages inside `expand_heap`, which only moves `heap_top` here, are left to `Heaps.Heap`; one action reads the header of one segment; a round of `kmalloc` visits up to a number of segments fixed in advance, and `kfree` names its block by the position of its segment, for all numbers and positions.
- `kcalloc` and `kzalloc`: a heap block filled byte by byte; in `Formatting` a new buffer is zero, and memory never runs out.
- SpinLocks.MutualExclusion: sequentially consistent steps with an atomic test-and-set; weak memory and fairness are not modelled.
- Terminal.Terminal.Kprintc: a backspace in column zero, where the cursor wraps below zero, is excluded, and so are screens of fewer than four lines; the ANSI state is never entered by this code, the serial log and the terminal's own lock have no effect here, and the scroll step is the built-in 4, not one read from the configuration.
- Terminal.Terminal.Kprint: strings that back up at column zero are excluded likewise.
- Terminal.Terminal.Flush: the screen is a grid of cells, each showing a glyph or a filled rectangle; the pixels of the font are not modelled, nor what a process draws while it owns the screen, after which only `Redraw` is promised to be right.
- Raster.PlotLine: points are returned in the order of drawing, over unbounded integers; the clipping and the frame buffer address of `drm_plot` are not modelled, nor coordinates whose difference overflows 32 bits.
- Raster.PlotCircle: the same, for radii up to 2^30 - 1, where `Raster.SmallFits` applies.
- Crc32.Crc: words are sequences of bits, lowest first.
- MemoryCopy.Kmemcpy: copying onto an overlapping range further up, which the C contract of a memory copy forbids, is excluded; `Kmemmove` covers it.
- PageAllocator.Pmm.Slide: the move is stated on tags, and that of `Terminal.Terminal.MoveUp` on cells; `MemoryCopy.MoveRecords` gives both for the bytes.
- NumberText.UnsignedReadsBack: bases above 60 have no digits left and print question marks; `NumberText.Ntos` states what they leave in the buffer.
- Formatting.Krealloc: the old buffer is not given back to a heap, and an allocation that fails is not modelled.
- Formatting.Kvfprintf: `%w` is excluded, since its four-byte buffer has no room for the final NUL that `ntos` stores; variable arguments are a list whose kinds must match the directives.
