# Verified models of the uCore labs' allocators, data structures and text routines

A Dafny model of the algorithmic core of a set of RISC-V teaching-kernel labs, with proofs of the properties
those parts are for. Each line of the table below follows one part of the source. Code that changes state in place is
a class or a method over arrays, proved against a specification on values; what the source promises is then proved of
that specification.

| module | models |
|---|---|
| BuddyPmm | the power-of-two buddy page allocator |
| ExactBuddy, BuddyMarks, BuddyTiles | the buddy allocator that hands out exactly n pages |
| BestFit, LinkedList | the best-fit allocator on a circular linked list, and the list operations under it |
| Slub, SlabPages | the small-object allocator, with free lists threaded through the pages it hands out |
| SkewHeap | the pointer skew heap with parent links |
| Mksfs, FreeMap, ImageTree | the SFS image builder: block maps, free bitmap, directory tree |
| Numbers, Numerals, Printfmt, Escapes | `strtol`, `printnum`, the format interpreter and `vsnprintf`; what numerals mean, and what each escape prints |
| Dtb | the device tree walker |
| Sched | the round-robin scheduler |
| Rand | the 48-bit generator |
| Bits, Sets, Ranges, FreeBlocks, PageFrames, Lists, Options | shared definitions: aligned blocks, page ranges, list contents |

How the main specifications read:

- **Buddies.** `FreeBlocks.MaxBlock(F, M, i, o)`: block `i` of order `o` is aligned, free, and either of the largest
  order `M` or not contained in a free block of the next order. Both allocators keep `Canonical`: list `o` holds
  exactly the maximal blocks of order `o`, once each. Everything else (partition, counters, NULL exactly when nothing
  fits, lists that depend only on the set of allocated pages) follows from that.
- **Stale marks.** Neither buddy clears the `PG_property` bit of every head it absorbs. In the power-of-two buddy
  this never matters: `BuddyPmm.BuddyTestExact` shows that a head under inspection is never a stale one. In the
  exact-size buddy it can. The code is kept as it is; the model's flag `repair` stands for the one line that would
  clear the bit. From every well-formed state a release passes the assertion at Lab2_Challenge1_buddy_pmm.c:277 exactly when its range carries
  no bit, and then leaves exact lists if and only if no growing tile meets a page that is not free but carries the bit
  and the matching size (`Clash`). `StaleBitReachesClient` hands out such a page in five calls, and in
  `HeldPageMerged` the next release merges it while it is held, no assertion failing. When clients give back exactly
  what they were granted, `WholeRangeRight` rules that out: then a release is right exactly when its range carries no
  bit, and `Run` ends early nowhere else. With the repair nothing ends early, and `RunRepaired` covers clients that
  give back any part of what they hold.
- **Best fit.** The insertion loop has no `break` in its tail case, so an entry that belongs at the end is inserted
  a second time after itself. The loop is kept. A release leaves a well-formed list if and only if the list was empty
  or the released pages lie below its last block; otherwise no list at all fits the links left behind. A new region
  takes the same loop and is not coalesced: it must touch no free page besides.
- **Device tree.** The walker's `in_memory_node` flag is cleared only by the end of some node, so a memory node's
  first child still counts as memory. `ForestVisits` lists the nodes in pre-order with the flag as it stands at each.
  The first memory node with a usable `reg` is the one chosen if and only if no other node with the flag up and a
  usable `reg` comes before it; `ChildRegTaken` is a blob on which one does. Every tree with NUL-free names
  that fits into four gigabytes has a flattening (`FlattenIsFlattened`), so these results are about all such trees.
- **Link counts.** The image's `nlinks` has sixteen bits, and nothing checks it. Directories stay far below that, files
  need not: `LinkCountWraps` builds an image in which a file with 98299 names has 32763 links. `WhenExact` says exactly
  when the counts are right.

- **Text.** `Numerals` says what a numeral stands for and what `strtol` is documented to read by the places of digits in
  the alphabet, and `Escapes` says what each escape prints of the printed text itself; neither uses the functions that
  follow the code. `EscapeThen` and `TextThen` take a longer format apart into escapes and text.

Code and comments disagree in two places, and the model follows the code: `rand` is documented to return values in
[0, RAND_MAX] but the unparenthesised macro argument makes that [1, RAND_MAX]; `strtol` is documented to accept an
`0X` prefix in base 16 but tests only for `0x`, so it does what is documented exactly when the number is not written
with `0X` (`MeetsDocumented`).

Results about whole runs are methods that perform an arbitrary sequence of calls. They return the moments between the
calls, and their contracts tie each moment to the next by what that call has to do, so a run cannot skip or change one.

## Model

| member | source | states |
|---|---|---|
| FreeBlocks.MaxDisjoint | lab2_Dou/kern/mm/buddy_pmm.c:63-133 | two maximal free blocks that share a page are the same block: the listed blocks never overlap |
| FreeBlocks.MaxExists | lab2_Dou/kern/mm/buddy_pmm.c:63-133 | every free aligned block lies in a maximal one of the same or a larger order, so free memory is never unlisted |
| FreeBlocks.PutMax | lab2_Dou/kern/mm/buddy_pmm.c:107-130 | freeing a block whose buddy is not free adds exactly that block to the maximal ones and removes none |
| FreeBlocks.TakeMax | lab2_Dou/kern/mm/buddy_pmm.c:76-79 | taking a maximal block removes exactly that block from the maximal ones |
| FreeBlocks.CanonicalSplit | lab2_Dou/kern/mm/buddy_pmm.c:81-91 | listing the right half of a block in hand keeps the lists exact for the pages that are then free |
| FreeBlocks.ListsDependOnPages | lab2_Dou/kern/mm/buddy_pmm.c:63-133 | two exact lists for the same free pages are permutations of each other, whatever calls led to them |
| FreeBlocks.CountsFreePages | lab2_Dou/kern/mm/buddy_pmm.c:138-143 | the sum over all orders of list length times block size is the number of free pages |
| PageFrames.XorFindsBuddy | lab2_Dou/kern/mm/buddy_pmm.c:108-109 | exclusive or on the physical page number, whose base is a multiple of every block size, gives the other half of the parent block |
| BuddyPmm.BuddyTestExact | lab2_Dou/kern/mm/buddy_pmm.c:111-112 | the bit-and-order test on the buddy succeeds exactly when the buddy is a listed free block of that very order, disjoint from the block in hand, stale bits notwithstanding |
| BuddyPmm.TakePages | lab2_Dou/kern/mm/buddy_pmm.c:76-94 | granting a free block removes exactly its pages from the free ones and keeps allocated blocks disjoint |
| BuddyPmm.ReleasePages | lab2_Dou/kern/mm/buddy_pmm.c:99-105 | releasing a granted block adds exactly its pages |
| BuddyPmm.SamePagesSameLists | lab2_Dou/kern/mm/buddy_pmm.c:63-133 | the lists depend only on which pages are allocated |
| BuddyPmm.NextBlock | lab2_Dou/kern/mm/buddy_pmm.c:44-57 | in a region whose first block is aligned to its size, each next block is aligned and has no free buddy below it |
| BuddyPmm.Buddy.Init | lab2_Dou/kern/mm/buddy_pmm.c:26-31 | every list empty, every counter zero |
| BuddyPmm.Buddy.InitMemmap | lab2_Dou/kern/mm/buddy_pmm.c:34-59 | any region is cut into the blocks of `Layout`, all listed and counted; they are its maximal blocks, marked, exactly when the first of them is aligned to its own size |
| BuddyPmm.LayoutInOrder | lab2_Dou/kern/mm/buddy_pmm.c:44-57 | whatever the base, the blocks a region is cut into follow one another inside it |
| BuddyPmm.LayoutCovers | lab2_Dou/kern/mm/buddy_pmm.c:44-57 | and leave no page of it out |
| BuddyPmm.UnalignedRegion | lab2_Dou/kern/mm/buddy_pmm.c:44-57 | the region of pages 1 and 2 becomes one block that is not aligned to its size |
| BuddyPmm.Buddy.NoneFree | lab2_Dou/kern/mm/buddy_pmm.c:71-74 | the lists from an order up are all empty exactly when no aligned block of that order is free |
| BuddyPmm.Buddy.AllocPages | lab2_Dou/kern/mm/buddy_pmm.c:64-95 | NULL exactly when the request is zero, above 512 pages, or no aligned free block of its order exists; else the head of the first non-empty list, and the invariant is kept |
| BuddyPmm.Buddy.TryMerge | lab2_Dou/kern/mm/buddy_pmm.c:108-124 | one round merges with the buddy exactly when the whole buddy is free, and the lists stay exact around the block in hand |
| BuddyPmm.Buddy.FreePages | lab2_Dou/kern/mm/buddy_pmm.c:100-133 | a release of any granted block ends with lists that hold exactly the maximal blocks of the larger free set |
| BuddyPmm.Buddy.NrFreePages | lab2_Dou/kern/mm/buddy_pmm.c:138-143 | the count reported is the number of unallocated pages, and with the sizes of the allocated blocks it makes up the region |
| BuddyPmm.PagesConserved | lab2_Dou/kern/mm/buddy_pmm.c:63-143 | in every well-formed state the listed pages and the allocated blocks add up to the region |
| BuddyPmm.Buddy.Run | lab2_Dou/kern/mm/buddy_pmm.c:63-133 | in every run of requests and matching releases each request is met exactly when an aligned free block of its order exists, the invariant holds throughout, listed and allocated pages make up the region at every moment, and a run that ends with nothing held restores every list it started from |
| ExactBuddy.FindUpperNumber | Lab2_Challenge1_buddy_pmm.c:87-97 | the least order whose block holds n pages |
| BuddyTiles.MaskTest | Lab2_Challenge1_buddy_pmm.c:197 | the mask test on the page number says exactly whether the page is aligned to the block size |
| BuddyTiles.LargestAligned | Lab2_Challenge1_buddy_pmm.c:286-291 | the loop picks the largest order that is aligned there and fits what is left |
| BuddyTiles.NextTile | Lab2_Challenge1_buddy_pmm.c:190-207 | no greedy tile of a range has a free buddy at the time it is laid, whatever the alignment of the range |
| BuddyTiles.TilesStayMax | Lab2_Challenge1_buddy_pmm.c:190-207 | tiles laid earlier stay maximal when the next is laid |
| BuddyMarks.BuddyTestExact | Lab2_Challenge1_buddy_pmm.c:243-247 | in every well-formed state the bounds check, bit and size test together succeed exactly when the buddy is a listed block of that size or a stale one |
| ExactBuddy.AllocBits | Lab2_Challenge1_buddy_pmm.c:344-370 | a grant keeps accurate bits accurate, changes no bit behind the first granted page, and leaves no bit on an unfree page exactly when none of those was set |
| BuddyMarks.EndMerge | Lab2_Challenge1_buddy_pmm.c:237-265 | merges with free buddies end in a maximal block; bits then lie on free pages, and they are accurate when the merged block starts at the block given back or the repair is on |
| ExactBuddy.AllocTidy | Lab2_Challenge1_buddy_pmm.c:344-370 | a grant keeps every bit on a free page either on a listed head or left behind on the upper half of a free block |
| ExactBuddy.GrantTidy | Lab2_Challenge1_buddy_pmm.c:344-370 | a stale bit that is handed out lies in one grant with the whole lower half beside it |
| ExactBuddy.WholeRangeRight | Lab2_Challenge1_buddy_pmm.c:228-301 | so the release of a whole grant without bits never meets a stale buddy |
| ExactBuddy.Buddy.InitMemmap | Lab2_Challenge1_buddy_pmm.c:176-208 | any range, of any alignment, becomes free; its maximal blocks are exactly its greedy tiles, with accurate bits and count |
| ExactBuddy.Buddy.SplitBlock | Lab2_Challenge1_buddy_pmm.c:306-335 | returns the head of the block and lists exactly the maximal blocks of what lies behind the first n pages; no bit is cleared, only listed heads are set |
| ExactBuddy.Buddy.PopBlock | Lab2_Challenge1_buddy_pmm.c:132-143 | takes a listed head off, unmarks it, keeps the lists exact for the remaining pages |
| ExactBuddy.Buddy.AllocPages | Lab2_Challenge1_buddy_pmm.c:344-370 | costs exactly n pages at the front of a block of the least sufficient order, the head of the first list that has one; NULL exactly when no aligned free block holds n; says exactly when the grant carries a stale bit |
| ExactBuddy.Buddy.FreeOneBlockAndMerge | Lab2_Challenge1_buddy_pmm.c:228-266 | from exact lists: if the growing block meets no stale buddy, the block's pages join the free ones and the lists become their maximal blocks; if it meets one, a listed block spans a page that is not free |
| ExactBuddy.Buddy.FreePages | Lab2_Challenge1_buddy_pmm.c:269-301 | from every well-formed state and for every unfree range, granted in one piece or not: it goes on exactly when no page of the range carries a bit, and then ends with exact lists and count if and only if no tile meets a stale buddy; accurate bits stay accurate exactly when every tile ended as the head of a listed block, or with the repair |
| ExactBuddy.Buddy.Run | Lab2_Challenge1_buddy_pmm.c:269-370 | in every run of requests and releases of whole grants, stale bits handed out or not, each request is met exactly when a maximal block holds it, each release gives back its range with exact lists, held ranges and free pages partition the region; it ends early only at a release whose range carries a bit, and with the repair never |
| ExactBuddy.Buddy.RunRepaired | Lab2_Challenge1_buddy_pmm.c:254-370 | with the absorbed upper head's bit cleared, clients may give back any ranges they hold, across grants too: the lists stay exact, bits mark exactly their heads, no assertion fails and no page is lost |
| ExactBuddy.StaleBitReachesClient | Lab2_Challenge1_buddy_pmm.c:254-262 | a run of five calls on two pages after which a granted page carries a stale bit |
| ExactBuddy.HeldPageMerged | Lab2_Challenge1_buddy_pmm.c:243-277 | the release of the other page after it passes the assertion and merges the page that is still held |
| Ranges.HoldsMore | Lab2_Challenge1_buddy_pmm.c:344-370 | granting free pages keeps held ranges disjoint and free plus held pages constant |
| Ranges.HoldsLess | Lab2_Challenge1_buddy_pmm.c:269-301 | so does taking a held range back |
| LinkedList.ListAdd | lab2_Dou/libs/list.h:54-56 | on any well-formed circle, insertion after a node is insertion into the sequence it represents |
| LinkedList.ListAddBefore | lab2_Dou/libs/list.h:67-69 | the same before a node |
| LinkedList.ListDel | lab2_Dou/libs/list.h:92-94 | deletion of an entry deletes it from the sequence, both link directions staying inverse |
| LinkedList.InsertRing | lab2_Dou/libs/list.h:142-146 | the four link writes of an insertion between neighbours give a circle of one more entry |
| LinkedList.DeleteRing | lab2_Dou/libs/list.h:155-158 | the two link writes of a deletion give a circle of one less |
| LinkedList.NoSelfLoop | lab2_Dou/libs/list.h:142-158 | no entry of a well-formed circle points back at itself |
| BestFit.BlocksAreRuns | lab2_Dou/kern/mm/best_fit_pmm.c:145-202 | in address order, without touching neighbours, the listed blocks are exactly the maximal runs of free pages, in both directions |
| BestFit.InsertBlock | lab2_Dou/kern/mm/best_fit_pmm.c:156-173 | inserting a block in address order covers exactly the old free pages and the new ones |
| BestFit.MergeBlocks | lab2_Dou/kern/mm/best_fit_pmm.c:185-200 | merging two touching neighbours covers the same pages |
| BestFit.CutBlock | lab2_Dou/kern/mm/best_fit_pmm.c:129-140 | cutting pages off the front of a block removes exactly those |
| BestFit.BestIsRun | lab2_Dou/kern/mm/best_fit_pmm.c:113-127 | the block the scan settles on is the smallest run that is large enough, the lowest of its size |
| BestFit.NoRunThatLong | lab2_Dou/kern/mm/best_fit_pmm.c:108-110 | when fewer pages are free than asked for, no run is long enough |
| BestFit.Allocator.InitMemmap | lab2_Dou/kern/mm/best_fit_pmm.c:70-103 | a region, first or later, becomes one marked block of a well-formed list if and only if the list was empty or the region lies below its last block, and it touches no free page; otherwise no list fits what is left |
| BestFit.Neighbours | lab2_Dou/kern/mm/best_fit_pmm.c:160-173 | the entries around an insertion touch the new block exactly when the pages next to it are free |
| BestFit.Allocator.InsertSorted | lab2_Dou/kern/mm/best_fit_pmm.c:160-173 | with the missing `break` kept: a sorted insertion when the list is empty or the pages lie below its last entry, and an entry that points back at itself otherwise |
| BestFit.Allocator.FindBest | lab2_Dou/kern/mm/best_fit_pmm.c:111-127 | the scan, early exit included, finds the smallest sufficient block, the first of its size, or that there is none |
| BestFit.Allocator.AllocPages | lab2_Dou/kern/mm/best_fit_pmm.c:106-142 | takes exactly n pages off the front of the smallest sufficient maximal run, the lowest on ties; NULL exactly when no run has n pages |
| BestFit.Allocator.FreePages | lab2_Dou/kern/mm/best_fit_pmm.c:145-202 | two-sided coalescing restores blocks that are exactly the maximal runs, if and only if the list was empty or the pages lie below its last block; otherwise no sequence fits the links and marks left |
| BestFit.Allocator.Run | lab2_Dou/kern/mm/best_fit_pmm.c:106-202 | from any free pages, every run serves each request by best fit and each release by coalescing, with held ranges disjoint and pages conserved, and stops exactly at the first release of pages that lie above all free ones |
| BestFit.TailReleaseBreaks | lab2_Dou/kern/mm/best_fit_pmm.c:169-170 | a short run whose last release leaves links that no list fits |
| Slub.LiveObject | lab2_Dou/kern/mm/slub.c:170-188 | a live object is at least the size asked for, lies in one held page, and is clear of its header |
| Slub.BucketSizes | lab2_Dou/kern/mm/slub.c:122-123 | the buckets double from 8 to 2048 bytes, so that the least sufficient one is less than twice too large |
| SlabPages.PageLayout | lab2_Dou/kern/mm/slub.c:170-188 | object k begins k object sizes behind the six header words, and a page holds as many as fit into the other 506 |
| Slub.LiveDisjoint | lab2_Dou/kern/mm/slub.c:199-241 | different live objects do not overlap, across sizes and pages |
| Slub.OwnWords | lab2_Dou/kern/mm/slub.c:129-135 | no word of a live object is a header word of any held page or a free-list entry |
| Slub.UserWrites | lab2_Dou/kern/mm/slub.c:199-294 | whatever clients write inside live objects, the allocator's whole invariant stands |
| SlabPages.FullChain | lab2_Dou/kern/mm/slub.c:277-293 | a free list as long as the page's capacity means that no object of the page is live |
| Slub.SomeLive | lab2_Dou/kern/mm/slub.c:277-293 | every cached page holds a live object |
| Slub.AllFreed | lab2_Dou/kern/mm/slub.c:277-293 | with nothing live every cache is empty and every page is back |
| Slub.PagesConserved | lab2_Dou/kern/mm/slub.c:224-294 | pages on the caches plus pages left to the page allocator is constant |
| Slub.Allocator.Init | lab2_Dou/kern/mm/slub.c:190-197 | the nine caches start empty |
| Slub.Allocator.SizeToBucket | lab2_Dou/kern/mm/slub.c:163-168 | the least bucket that holds the size; none exactly above 2048 bytes |
| Slub.Allocator.SlabPageInit | lab2_Dou/kern/mm/slub.c:170-188 | the free list threads every slot of the page once, and the header counts them |
| Slub.Allocator.FindPage | lab2_Dou/kern/mm/slub.c:213-222 | the first held page of the cache with a free object, or none has one |
| Slub.Allocator.Kmalloc | lab2_Dou/kern/mm/slub.c:199-241 | NULL, changing nothing, exactly for size zero or when no page is left and no held page of the least sufficient bucket has a free object; else (`Granted`) a fresh object of that bucket: the first free one of the first such page, no page moving, or one of a new page that leaves the page allocator for the head of that cache's list alone; no word of any live object changes |
| Slub.Allocator.OnFreeList | lab2_Dou/kern/mm/slub.c:263-270 | the walk terminates and finds the pointer exactly when it is a free object of the page |
| Slub.Allocator.Kfree | lab2_Dou/kern/mm/slub.c:243-294 | (`Freed`) exactly that object stops being live and becomes the first free one of its page; other live objects keep their words; the page leaves its list for the page allocator exactly when it holds no live object; freeing a free object of a held page changes nothing |
| Slub.Allocator.UserWrite | lab2_Dou/kern/mm/slub.c:199-294 | a client's write to an object it holds changes that word and keeps the invariant |
| Slub.Allocator.Run | lab2_Dou/kern/mm/slub.c:199-294 | in every interleaving of small requests, frees and client writes a request is refused exactly when it is empty, or no page is left and no held page of its bucket has a free object; every other call does what `Granted`, `Freed` or the write says; the invariant holds at every moment, and with nothing held every page is back |
| SkewHeap.MergeElems | lab8/libs/skew_heap.h:29-59 | the merged tree holds exactly the nodes of both, each once |
| SkewHeap.MergeOrdered | lab8/libs/skew_heap.h:29-59 | for a total preorder, merging heaps gives a heap |
| SkewHeap.RootIsFirst | lab8/libs/skew_heap.h:29-59 | the root of a heap is before or equal to every node |
| SkewHeap.MergeHeaps | lab8/libs/skew_heap.h:29-59 | the pointer recursion computes that tree with exact child and parent links, leaves the root's own parent link alone, and makes the calls counted |
| SkewHeap.Insert | lab8/libs/skew_heap.h:61-67 | insertion merges with the reset node; the root has no parent |
| SkewHeap.RemoveElems | lab8/libs/skew_heap.h:69-85 | removing any member removes exactly that node |
| SkewHeap.RemoveOrdered | lab8/libs/skew_heap.h:69-85 | and keeps the heap order |
| SkewHeap.RemoveNode | lab8/libs/skew_heap.h:69-85 | the pointer code computes that removal for any member of the heap, root or not, and makes the calls counted |
| SkewHeap.MergeCost | lab8/libs/skew_heap.h:29-59 | amortised cost: calls plus potential after is at most potential before plus three logarithms plus one, for every comparison |
| SkewHeap.RemoveCost | lab8/libs/skew_heap.h:69-85 | the same for the removal of any member with one logarithm more: above the removed node the potential rises by at most that |
| SkewHeap.RunCost | lab8/libs/skew_heap.h:29-85 | over every run of insertions and removals, of the first entry or of any member, the calls are at most logarithmic per operation |
| Mksfs.WalkIsLog | lab8/tools/mksfs.c:398-426 | reading entry i through direct, indirect and double-indirect blocks gives the i-th number appended |
| Mksfs.WalkDiskIsLog | lab8/tools/mksfs.c:337-348 | so does reading it from an image that holds the inode and the index blocks |
| Mksfs.AppendLeaf | lab8/tools/mksfs.c:409-421 | a number written into the cached index block extends the walk by one |
| Mksfs.DoubleStep | lab8/tools/mksfs.c:415-421 | so does one behind the double-indirect block, a new index block being linked first where needed |
| Mksfs.FileFrame | lab8/tools/mksfs.c:383-426 | changes to other index blocks leave a file's walk alone |
| Mksfs.Sfs.constructor | lab8/tools/mksfs.c:223-254 | superblock, root and bitmap blocks are reserved, and unused blocks plus next number is the number of blocks: that of the image, cut to 32 bits and then capped |
| Mksfs.Sfs.BlocksCapped | lab8/tools/mksfs.c:227-231 | which is the smaller of image size and cap exactly when the cut changes nothing or leaves at least the cap |
| Mksfs.Sfs.AllocIno | lab8/tools/mksfs.c:173-180 | numbers are handed out once each, in order, until the image is full; the counters stay in balance |
| Mksfs.Sfs.AllocCacheBlock | lab8/tools/mksfs.c:182-190 | a zeroed index block under a fresh number, put on the chain of the argument 0 and not of its number |
| Mksfs.Sfs.SearchCacheBlock | lab8/tools/mksfs.c:192-199 | consequently the search finds only a block whose number happens to hash to 0 |
| Mksfs.Sfs.UpdateCache | lab8/tools/mksfs.c:382-395 | for every call the builder makes, the branch that searches the chains is dead |
| Mksfs.Sfs.AppendBlock | lab8/tools/mksfs.c:397-426 | appends the number to the file's walk and to no other file's; fails exactly when the file is full or its index blocks do not fit |
| Mksfs.Sfs.OpenFile | lab8/tools/mksfs.c:516-530 | a file of any length gets one block per 4096 bytes or part of it, and its exact size; it fails exactly when the file gets too big or its blocks and index blocks do not fit |
| Mksfs.Sfs.AddEntry | lab8/tools/mksfs.c:428-437 | one more block for the directory, one more link for the file, counted in sixteen bits; the exact condition on room |
| Mksfs.Sfs.CloseFreeMap | lab8/tools/mksfs.c:312-335 | bit b is set exactly when block b was never handed out, and the population count is the superblock's unused count |
| Mksfs.Sfs.CloseSfs | lab8/tools/mksfs.c:312-349 | bitmap, super block, index blocks and inodes all end up on the image, each inode field by field, none overwriting another, and every other block behind the bitmap stays as it was |
| Mksfs.Sfs.Run | lab8/tools/mksfs.c:382-426 | every interleaving of new files and appends: entry j of file i is the j-th number appended to it, each file has one entry per append, no number is used twice, and the program ends only for want of space |
| Mksfs.Sfs.BuildImage | lab8/tools/mksfs.c:312-426 | after any such run and the final flush, reading entry j of file i from the image gives the j-th number appended to it, what was written to that block is still there, and the inode on the image has exactly as many blocks as were appended and 4096 bytes for each |
| Mksfs.OwnedDistinct | lab8/tools/mksfs.c:173-180 | when every number has one owner, no two entries of any files and no inode share a number |
| FreeMap.MapBlock | lab8/tools/mksfs.c:317-332 | one bitmap block, partial first and last ones included, has exactly the free blocks' bits |
| FreeMap.WriteFreeMap | lab8/tools/mksfs.c:312-335 | the bitmap over all blocks |
| FreeMap.PopulationIsUnused | lab8/tools/mksfs.c:173-180 | the number of set bits is the number of blocks never handed out |
| ImageTree.MirrorsFrame | lab8/tools/mksfs.c:466-514 | a directory that mirrors its host keeps doing so while other directories grow and files gain links |
| ImageTree.MirroredShows | lab8/tools/mksfs.c:471-512 | a mirrored directory begins with "." and ".." and then shows, in order and under their names, exactly those host entries that are no special files and whose names do not start with a dot; so does every directory below |
| ImageTree.NewOnesTrans | lab8/tools/mksfs.c:449-457 | as entries are added, every new file has the blocks for its length where it was first met |
| ImageTree.FillStep | lab8/tools/mksfs.c:474-512 | one more entry extends the mirror by one |
| ImageTree.DirDone | lab8/tools/mksfs.c:439-447 | add_dir: a mirrored subdirectory with exactly two links and one from each of its subdirectories, and one more link for the parent |
| ImageTree.Image.AddFile | lab8/tools/mksfs.c:449-457 | a host file met before shares its inode, a new one gets its own; exactly that file gains one link, counted in sixteen bits; the exact condition on format and room, and the numbers taken |
| ImageTree.Image.AddDir | lab8/tools/mksfs.c:439-447 | the entry names a fresh directory that mirrors its host; the exact condition for that and the numbers taken; or the reason why the program ends |
| ImageTree.WhyUp | lab8/tools/mksfs.c:466-514 | the reason an entry's work ends the program is one of its directory: a name or link target too long there or below, a directory number met twice, no room, a file too big |
| ImageTree.Image.SearchInode | lab8/tools/mksfs.c:214-221 | an inode with the host number, or there is none |
| ImageTree.Image.AddEntry | lab8/tools/mksfs.c:428-437 | the entry, the link in sixteen bits and the exact condition on room |
| ImageTree.Image.OpenDir | lab8/tools/mksfs.c:466-514 | the directory shows its host recursively, in order: no name that starts with a dot and every other one that is no special file (`Pictured`); directories' link counts are exact, files' are the numbers of their names modulo 65536, files have the blocks they need and links one; it succeeds exactly when the tree fits the format and its price the room, and when it ends instead, the reason it gives is true |
| ImageTree.Image.CreateImg | lab8/tools/mksfs.c:544-559 | the root shows the host tree with exact links; every file's link count is the number of its names modulo 65536, so that all are exact if and only if no file has 65536 names; every file has the blocks its length needs, every directory one per entry; exactly `Price` numbers are taken; it succeeds if and only if names, link targets, files and directories fit the format, directory numbers are distinct, and the price is at most the room |
| ImageTree.WhenExact | lab8/tools/mksfs.c:436 | the stored link counts are the numbers of names if and only if every host number has fewer than 65536 names |
| ImageTree.CrowdedFits | lab8/tools/mksfs.c:466-514 | a tree of one file with 98299 names, different within each directory, that fits the format and the largest image |
| ImageTree.LinkCountWraps | lab8/tools/mksfs.c:436 | on which the program succeeds and stores 32763 links |
| ImageTree.FewSubdirs | lab8/tools/mksfs.c:466-514 | a directory that fits has fewer than 32768 entries, so that its own count never wraps |
| ImageTree.EachDirOnce | lab8/tools/mksfs.c:439-447 | of a tree that fits, every directory number is met once and none was met before |
| ImageTree.TooMuch | lab8/tools/mksfs.c:466-514 | when one entry does not fit the format or the room, its directory does not |
| Numbers.Strtol | lab8/libs/string.c:215-271 | blanks, sign, base prefix and digits: value and end position, which are the documented ones exactly when no `0X` stands before a number in base 16 |
| Numbers.MeetsDocumented | lab8/libs/string.c:185-271 | value and end are the documented ones (`Numerals.Documented`: digits by their places in the alphabet in either case, optional sign, prefix) exactly when no `0X` stands before a number in base 16; there it reads the zero and stops at the letter |
| Numbers.UpperPrefixStops | lab8/libs/string.c:234-236 | any text behind `0X` is left unread |
| Numbers.LowerPrefixRead | lab8/libs/string.c:234-265 | behind `0x` all hexadecimal digits are read, with their value |
| Numbers.OctalRead | lab8/libs/string.c:237-239 | in base 0 octal digits behind a zero are read to the end, with their value in base 8 |
| Numbers.DecimalRead | lab8/libs/string.c:240-242 | in base 0 decimal digits that start with 1 to 9 are read to the end in base 10 |
| Numbers.PlainRead | lab8/libs/string.c:220-265 | in a given base, blanks and tabs, a sign of either kind or none, and digits in either case are read to the end |
| Numbers.DigitsAreNumeral | lab8/libs/printfmt.c:53-69 | the digits that `printnum` puts are the usual numeral: 0 to f, no zero in front, the right value |
| Numerals.DocumentedOnce | lab8/libs/string.c:185-214 | the documentation leaves no choice of value or end |
| Numbers.RoundTrip | lab8/libs/printfmt.c:53-69 | `printnum`'s text in base 8, 10 or 16, any width, zero or blank padding, is read back by `strtol` to its last character |
| Numbers.SignedRoundTrip | lab8/libs/printfmt.c:245-252 | so is a signed decimal, padded with zeros or not at all |
| Printfmt.Literal | lab8/libs/printfmt.c:142-148 | text without percent signs is printed as it stands |
| Printfmt.UnknownEchoed | lab8/libs/printfmt.c:287-293 | an unrecognised escape is echoed verbatim, flags included, even when the format's end cuts it short |
| Escapes.FlagsRead | lab8/libs/printfmt.c:155-200 | an escape with '#', padding, width, precision and any number of l in their usual order has exactly those flags |
| Escapes.StarRead | lab8/libs/printfmt.c:179-195 | '*' takes the next argument, as an int, for the width, or for the precision behind a point |
| Escapes.StringPrinted | lab8/libs/printfmt.c:222-242 | %s with any flags prints its argument up to a NUL or the precision, unprintable characters masked under '#', filled up to the width on the left with the padding character or on the right with blanks after '-'; a null pointer prints as (null) |
| Escapes.PlainString | lab8/libs/printfmt.c:222-242 | in particular a NUL-free text printed with "%s" is that text |
| Escapes.CharPrinted | lab8/libs/printfmt.c:203-205 | %c with any flags prints the one character |
| Escapes.ErrorPrinted | lab8/libs/printfmt.c:208-219 | %e prints the message of the error whichever its sign, or its number if it has none |
| Escapes.SignedPrinted | lab8/libs/printfmt.c:245-280 | %d prints the sign, the padding and the usual numeral of the two's complement value |
| Escapes.UnsignedPrinted | lab8/libs/printfmt.c:255-280 | %u, %o and %x print the padding and the usual numeral of the argument modulo 2^32, or 2^64 after an l |
| Escapes.PointerPrinted | lab8/libs/printfmt.c:267-280 | %p prints 0x and the 64 bits in hexadecimal |
| Escapes.PercentPrinted | lab8/libs/printfmt.c:283-285 | %% prints one percent sign |
| Escapes.OtherPrinted | lab8/libs/printfmt.c:287-293 | any other letter is printed with its percent sign |
| Escapes.EscapeThen | lab8/libs/printfmt.c:135-295 | an escape in front of any format prints what it prints alone, and the format goes on with the arguments that are left |
| Escapes.TextThen | lab8/libs/printfmt.c:142-148 | text in front of any format is printed as it stands, and the format goes on with all arguments |
| Printfmt.UnsignedReadsBack | lab8/libs/printfmt.c:255-280 | whatever the flags and widths of a single %u, %o or %x, '*' included, except the '-' flag, the output reads back to the argument |
| Printfmt.SignedReadsBack | lab8/libs/printfmt.c:245-252 | the same for %d with zero padding or none |
| Printfmt.StrNLenLoop | lab8/libs/string.c:33-40 | the length up to a NUL, capped |
| Printfmt.ReadFlags | lab8/libs/printfmt.c:155-203 | the jumps between flag states end at the first character that is no flag, with the flags' joint effect |
| Printfmt.BackToPercent | lab8/libs/printfmt.c:290-292 | the backward scan stops at the escape's own percent sign |
| Printfmt.SprintBuf.Putch | lab8/libs/printfmt.c:309-315 | counts every character, stores only those that fit, touches nothing else |
| Printfmt.SprintBuf.PrintNum | lab8/libs/printfmt.c:53-69 | the recursion emits exactly the padded digits |
| Printfmt.SprintBuf.PrintString | lab8/libs/printfmt.c:222-243 | precision, masking and padding on either side |
| Printfmt.SprintBuf.VPrintFmt | lab8/libs/printfmt.c:135-295 | terminates on every format despite the backward scan and emits its meaning `Format` |
| Printfmt.VSnprintf | lab8/libs/printfmt.c:347-358 | -3 for a null or empty buffer; else the full output length, the first min(length, size - 1) characters and a NUL stored, the rest of the buffer unchanged |
| Dtb.Word | lab2_Dou/kern/driver/dtb.c:29-32 | the byte swap of a little-endian load is the big-endian number |
| Dtb.DoubleWord | lab2_Dou/kern/driver/dtb.c:34-37 | the same for 64 bits |
| Dtb.ExtractMemoryInfo | lab2_Dou/kern/driver/dtb.c:40-101 | the pointer loop stops on every blob and returns what `Walk` finds |
| Dtb.WalkProps | lab2_Dou/kern/driver/dtb.c:72-91 | over flattened properties the walk stops at the first usable `reg`, or passes them all |
| Dtb.WalkTree | lab2_Dou/kern/driver/dtb.c:53-96 | on a flattened node the walk is the search in the tree |
| Dtb.WalkIsSearch | lab2_Dou/kern/driver/dtb.c:40-101 | on every flattened tree the walker returns exactly the search's result |
| Dtb.FirstMemoryNodeFound | lab2_Dou/kern/driver/dtb.c:40-101 | if the first memory node in pre-order has a `reg` of 16 bytes or more, its first such `reg` is returned as two big-endian numbers |
| Dtb.MemoryNodeRead | lab2_Dou/kern/driver/dtb.c:40-101 | if node k is the first whose name begins with "memory", and property i its first one called "reg" of 16 bytes or more, the walker returns the two big-endian numbers there |
| Dtb.MemoryNames | lab2_Dou/kern/driver/dtb.c:57-66 | the memory nodes are those whose names are "memory" with anything or nothing behind it |
| Dtb.NoMemoryNodeNone | lab2_Dou/kern/driver/dtb.c:92-99 | without a memory node nothing is found |
| Dtb.MemoryRegFound | lab2_Dou/kern/driver/dtb.c:40-101 | the `reg` returned is that of the chosen node, and this is the first memory node with a usable `reg` if and only if no adopted node - no memory node, flag up, usable `reg` - comes before it; nodes are compared, not values |
| Dtb.ChosenIsMemory | lab2_Dou/kern/driver/dtb.c:64-85 | over any visits, the node chosen is the first memory node with a usable `reg` exactly when no adopted node precedes it |
| Dtb.FlattenIsFlattened | lab2_Dou/kern/driver/dtb.c:40-101 | every tree with NUL-free names that fits 32-bit offsets is the tree of some blob |
| Dtb.ChildRegTaken | lab2_Dou/kern/driver/dtb.c:68-70 | a blob, for every value, on which the `reg` of a memory node's child is returned though no memory node has one |
| Sched.ChoiceUnique | lab4/kern/schedule/sched.c:13-40 | there is exactly one first runnable process after a position |
| Sched.Nearer | lab4/kern/schedule/sched.c:13-40 | choosing another process brings each runnable one nearer |
| Sched.NoStarvation | lab4/kern/schedule/sched.c:13-40 | a process runnable at n calls in a row on a list of n is chosen by one of them, whatever the others do |
| Sched.Scheduler.WakeupProc | lab4/kern/schedule/sched.c:7-11 | exactly that process becomes runnable |
| Sched.Scheduler.Search | lab4/kern/schedule/sched.c:20-32 | the do-while walk over the links finds the first runnable process after the current one, the current one last, idle only if there is none |
| Sched.Scheduler.Schedule | lab4/kern/schedule/sched.c:13-40 | that process becomes current and has run once more; nothing else changes |
| Sched.Scheduler.Run | lab4/kern/schedule/sched.c:13-40 | with arbitrary state changes between calls a process kept runnable is served within n calls |
| Rand.PowerStep | lab8/libs/rand.c:13 | 2^k steps are one affine map, with factor 1 mod 4 |
| Rand.Period | lab8/libs/rand.c:13 | modulo every power of two an orbit closes exactly at multiples of that power |
| Rand.FullPeriod | lab8/libs/rand.c:11-16 | from every state, the state returns after n calls exactly when 2^48 divides n |
| Rand.NoEarlyRepeat | lab8/libs/rand.c:11-16 | two moments of a run share a state exactly when they are a multiple of 2^48 calls apart |
| Rand.OneCycle | lab8/libs/rand.c:11-16 | every state leads to every other within 2^48 calls |
| Rand.EveryOutput | lab8/libs/rand.c:14-15 | from every seed each value from 1 to RAND_MAX is returned by one of the next 2^48 calls, and zero by none |
| Rand.Generator.Rand | lab8/libs/rand.c:11-16 | the masked 64-bit product is x * 0x5DEECE66D + 0xB modulo 2^48, and the result is the state over 4096, modulo 2147483647, plus one |
| Rand.Generator.Srand | lab8/libs/rand.c:22-25 | the seed is the state |

## Left out

- Slub.Allocator.Kmalloc: does not model requests above 2048 bytes, which take whole pages; `kfree` has no path that returns those, and reads a size from client data when one is passed to it. For the same reason the runs contain small requests only.
- Slub.Allocator.Kfree: does not model pointers that are neither NULL, nor live, nor free objects of a held page; the source reads whatever lies at the page's start.
- BuddyPmm.Buddy.InitMemmap: asks for descriptors up to the next multiple of 512 pages, which the merging code reads without a check; the region is given once. A region whose first block is not aligned to its size, as lab2_Dou/kern/mm/pmm.c:98-101 may pass, leaves listed blocks that partition it but are not maximal; the other results are about regions without that defect.
- BuddyPmm.Buddy.FreePages: asks for a granted base with a size of the same order, as the source does silently.
- ExactBuddy.Buddy.FreePages: says of a release that meets a stale buddy that the lists are wrong, and not what they are: list_del of a page that is on no list follows whatever links that page holds, and the model leaves the lists alone there. The upper bound of line 243 is taken to be the length of the descriptor array, which has fewer entries than `npage`.
- Numbers.Strtol: does not model overflow of `long`, which the source does not detect.
- Printfmt.SignedReadsBack: leaves out the least 64-bit number, '-' as the padding character and blanks before a sign, which do not read back.
- Escapes.ErrorPrinted: takes the least 32-bit number to have a magnitude, where the source negates it in an `int` and then indexes its table with the result.
- Printfmt.VSnprintf: does not model the overflow of the `int` that counts the output, at 2^31 characters.
- Printfmt.SprintBuf.VPrintFmt: reads zero or "(null)" where the format asks for more arguments than there are or for one of another kind (undefined in C), and does not wrap widths that overflow an `int`.
- Dtb.ExtractMemoryInfo: reads zero behind the blob, where the source reads on, and takes the blob's address to be a multiple of four.
- Mksfs.Sfs.OpenFile: takes the length instead of reading; contents of data blocks and of directory entry records are not modelled.
- ImageTree.Image.AddFile: takes a host number to belong to one kind of thing, as in any file system; so do the other steps of the tree.
- ImageTree.Image.OpenFile: counts blocks by the rule that `Mksfs.Sfs` is proved to follow, but does not repeat its block maps; the hash chains of inodes are one list.
- Mksfs.Sfs.CloseSfs: takes the inodes in the order they were created and computes their hash chains; the image is a map from block numbers to contents, not bytes.
- Sched.Scheduler.Schedule: takes the idle process to be off the list and `proc_run` to set `current`; interrupts are off throughout in the source. Does not model the overflow of the `int` that counts a process's runs, at 2^31.
- The lists of both buddies and of the slab caches are sequences with the effect of the list operations; their links are modelled in LinkedList, BestFit and Sched.
- Reserved bits and reference counts of pages, page contents outside the slabs, virtual addresses: pages are indices, and slab pages are words.
- The first-fit allocator and the copies of best fit in other labs: they repeat the best-fit core.
- Host system calls, console, traps, interrupts, context switches, tests and user programs.
