# MeringueOS: a Dafny model of its allocators and text routines

MeringueOS is a small AArch64 kernel.  This project models three parts of it and
proves what they keep over whole runs:

* the **kernel heap** (`src/memory/kheap.c`), a first-fit allocator over two
  interleaved doubly linked lists, with splitting, coalescing and growth by
  4 KB frames;
* the **frame allocator** (`src/memory/frame_alloc.c`), a byte-packed bitmap with
  running counters, which is the heap's only source of memory;
* the **text routines**: the number parser (`src/lib/stdlib_stubs.c`), `kprintf`
  (`src/lib/stdio.c`), `strtok` (`src/lib/string.c`), the shell's line editor and
  argument vector (`src/shell/shell.c`) and the boot-time size text
  (`src/boot/kernel.c`).

`dafny verify dfyconfig.toml` checks the whole project.

## How the model is built

Each imperative part is a class or a method with loops, proved against a
specification on values; the theorems over all runs are about the specification.

| file | contents |
|---|---|
| `FrameSpec.dfy`, `FrameAllocator.dfy` | frames as a set of used indices; the bitmap class that refines it |
| `HeapSpec.dfy` | the heap as a chain of blocks and disjoint free fragments |
| `HeapInvariant.dfy` | the invariant, kept by every step |
| `HeapMemory.dfy`, `KHeap.dfy` | headers in memory keyed by address, every pointer write, and the class that refines `HeapSpec` |
| `HeapPointers.dfy` | what the invariant says about walks along the raw pointers |
| `HeapRuns.dfy`, `HeapLayout.dfy` | runs from boot, what clients hold, memory layout with consecutive frames |
| `HeapInside.dfy`, `HeapGap.dfy` | when blocks stay in the heap's own frames, and two short runs on which they do not |
| `HeapSpared.dfy`, `HeapSafety.dfy` | writes that keep out of the frames reserved at boot, for one call and for runs |
| `HeapExact.dfy`, `HeapReach.dfy` | exact heaps, a run from boot that reaches one, and runs that stay exact |
| `HeapListed.dfy`, `HeapSurvival.dfy`, `HeapService.dfy` | which listed blocks survive a call or a run, and which requests are granted |
| `HeapCalls.dfy` | each call on the chain and the list in closed form, and the calls that change nothing |
| `KernelRuns.dfy` | driving both classes through whole runs |
| `NumberText.dfy`, `Strtoull.dfy`, `Kprintf.dfy`, `TextRoundTrip.dfy`, `BootText.dfy` | numbers as text |
| `StrtoullShape.dfy`, `Formats.dfy` | what the parser makes of the parts of a string, and `kprintf` of the parts of a format |
| `Tokens.dfy`, `Shell.dfy` | words, `strtok`, the line editor and `argv` |

Facts about the code that shape the model:

* Expansion flags every new page free but lists only the first one, so free
  blocks form several fragments.  `Frags` holds the list and the orphans;
  unlinking the front of an orphan makes its tail the list and orphans the old
  list.  This is deterministic, so `Kmalloc` and `Kfree` are functions and the
  class is proved to compute exactly them.
* The heap is the allocator's only caller and never returns a frame, so frames
  arrive in ascending order.  Blocks therefore never overlap in any run.  They
  tile the heap's own frames exactly when the frames are consecutive, because
  merging trusts chain order and never compares addresses.
* Memory holds headers only.  Zeroing a payload removes every header it touches,
  so keeping the chain intact through it is a theorem, not an assumption.  A
  split leaves the new block's free links arbitrary until it is listed.
* The bitmap lies in the memory that it describes, in a frame that init reserves,
  and the kernel's own variables lie in reserved frames too.  `kmalloc` zeroes the
  whole payload it grants, so `Finish` also zeroes the bitmap bytes the payload
  covers.  Memory is proved to follow the specification for every run whose
  grants and headers keep out of the frames reserved at boot (`RunSpares`).  Every
  run in which all merges touch is one (`TouchingRunSpares`), and so is every run
  of at most 256 frames of the kernel as linked (`KernelBoot`).  The theorems in
  `HeapRuns.dfy`, `HeapLayout.dfy`, `HeapExact.dfy` and their companions are about
  the specification and speak for the code on those runs.
* 64-bit wrap-around of the requested size is modelled.  Sizes above 2^64 - 8
  round to 0 and are granted a block smaller than asked.

## Properties that turned out false, with their exact conditions

* "Every free block is listed" fails after `kheap_init` on any machine with
  memory (`BootListsAllIff`), and after exactly those `kmalloc` calls on a heap
  without orphans that expand it by two pages or more and find a frame
  (`KmallocListsAllIff`).  Together with "no two free neighbours" it holds
  throughout a run from an exact heap if and only if every `kmalloc` avoids that
  (`RunExactIff`), as all requests of at most 4000 bytes do.
* "A listed block stays listed until it is taken or merged away" fails when a call
  unlinks the front of an orphan, which drops the whole list.  An expansion does
  that when the last block is such a front (`ExpandKeepsListedIff`,
  `KmallocKeepsListedIff` for every size); on every machine with seven clear
  frames `kmalloc(5000)` right after boot is such a call (`ListDroppedAtBoot`).
  `kfree` does it beside an orphan (`KfreeDropsList`, `KfreeKeepsListedIff`).  Over
  a whole run from boot the property holds if and only if every call meets its
  condition (`BootRunKeepsListedIff`), and it cannot fail without orphans
  (`ExactRunSurvives`).
* "Any legal sequence of calls leaves memory representing a sound heap" fails when
  a grant covers a reserved frame.  `BitmapLost` gives a boot on which
  `kmalloc(5000)` zeroes the bitmap, so that the frame of the heap's first block
  reads as clear.  From a heap inside its own frames a `kmalloc` reaches a frame
  used at boot if and only if it merges across a gap and cuts beyond the old end of
  the last block (`KmallocSparesIff`).  Zeroing a stretch of memory leaves the frame
  allocator sound if and only if it covers no byte with the bit of a used frame
  (`Wipe`).  On runs that spare the reserved frames the property holds
  (`BootAndRun`); what else a run may overwrite there is not modelled.
* "Every block lies in the heap's own frames" fails exactly when a merge joins two
  blocks that do not touch.  That can be the merge of an expansion
  (`ExpandInsideIff`) or either merge of `kfree` (`KfreeInsideIff`), and over a
  whole run from boot the property holds if and only if every merge touched
  (`BootRunInsideIff`).  `ReservedFrameHandedOut` gives a boot on which
  `kmalloc(5000)` hands out a reserved frame, `ReservedFrameFreedInto` one on
  which `kfree` grows a block over a reserved frame.  With the kernel and the
  bitmap from 0x40100000 up, runs of at most 256 frames are safe
  (`KernelRunTiles`).
* "A granted block has the bytes asked for" fails exactly for the last seven
  64-bit sizes (`GrantCoversIff`), and each of them is granted after a boot with
  five clear frames (`WrappedSizeGrantedAtBoot`).
* "The pages asked for hold the request" fails exactly when the 64-bit sum wraps
  (`PagesNeededMeaning`).
* "Range marking marks the frames that meet the range" fails for ranges starting
  below RAM, for some empty ranges and for almost all ranges whose end wraps at
  2^64 (`MarksExactlyMeeting`).
* "The boot text is the decimal text of the size" fails from 2^31 on
  (`SizeTextRightIff`).

## Model

| member | source | states |
|---|---|---|
| `Bits.SetAndClear` | src/memory/frame_alloc.c:24-36 | setting or clearing bit k of a byte changes bit k and no other |
| `FrameAllocation.FrameAllocator.SetBit` | src/memory/frame_alloc.c:24-26 | over the whole bitmap only the given bit changes, to set |
| `FrameAllocation.FrameAllocator.ClearBit` | src/memory/frame_alloc.c:29-31 | over the whole bitmap only the given bit changes, to clear |
| `FrameAllocation.FrameAllocator.TestBit` | src/memory/frame_alloc.c:34-36 | true if and only if the set of used frames holds that frame |
| `FrameAllocation.FrameAllocator.MarkRangeUsed` | src/memory/frame_alloc.c:39-62 | rounding, cap and loop refine the set-level marking, counters and guards included |
| `FrameAllocation.FrameAllocator.MarkRangeFree` | src/memory/frame_alloc.c:65-90 | the same for freeing, with the highest usable address |
| `FrameAllocation.FrameAllocator.Init` | src/memory/frame_alloc.c:92-139 | all used, then RAM freed, then the kernel (from the parameters or the linker) and the bitmap reserved |
| `FrameAllocation.FrameAllocator.Wipe` | src/memory/kheap.c:262 | zeroing a stretch of memory clears the bitmap bytes in it, and the allocator stays sound if and only if none of them holds the bit of a used frame |
| `FrameAllocation.FrameAllocator.AllocFrame` | src/memory/frame_alloc.c:141-160 | the linear bit search returns and marks what the set-level allocation does |
| `FrameAllocation.FrameAllocator.FreeFrame` | src/memory/frame_alloc.c:162-196 | for any address: NULL, out of range, unaligned and double frees change nothing |
| `FrameSpec.AllocGivesLowest` | src/memory/frame_alloc.c:141-160 | NULL exactly when no frame is clear; otherwise the lowest clear frame, which alone becomes used |
| `FrameSpec.FreeUndoesAlloc` | src/memory/frame_alloc.c:141-196 | freeing what was just allocated restores bitmap and counters |
| `FrameSpec.FreeIgnores` | src/memory/frame_alloc.c:162-190 | freeing anything but the address of a used managed frame, NULL, out-of-range, unaligned and clear addresses included, changes nothing |
| `FrameSpec.FreeClears` | src/memory/frame_alloc.c:193-195 | freeing a used managed frame clears that frame alone and adds 4096 to the free counter |
| `FrameSpec.RunAccounting` | src/memory/frame_alloc.c:141-196 | in every run, whatever is freed: free memory is 4096 times the clear frames, never negative, and the total does not move |
| `FrameSpec.InitRunAccounting` | src/memory/frame_alloc.c:92-208 | the same from init on, for any two reserved ranges |
| `FrameSpec.LawfulRunOwnership` | src/memory/frame_alloc.c:141-196 | when only held frames are freed, used frames are exactly the reserved and the held ones, and these are disjoint |
| `FrameSpec.AllocsAscend` | src/memory/frame_alloc.c:143-159 | without frees the results strictly ascend and stay NULL once memory has run out |
| `FrameSpec.MarksExactlyMeeting` | src/memory/frame_alloc.c:40-49 | for every 64-bit base and size, wrapping ends included: the loops visit exactly the frames meeting the range if and only if the range rounds right |
| `FrameSpec.MarkUsedIsUnion` | src/memory/frame_alloc.c:54-61 | the marking loop is one set union and its counter guards never bite during init |
| `FrameSpec.MarkFreeIsDifference` | src/memory/frame_alloc.c:65-90 | the freeing loop is one set difference, keeps the counters in step, and raises the highest address to the end of the last frame it freed |
| `FrameSpec.FreeingAllOfRam` | src/memory/frame_alloc.c:100-114 | init's first marking call frees every managed frame and sets all three counters |
| `FrameSpec.InitReservesExactly` | src/memory/frame_alloc.c:92-139 | after init the used frames are exactly those meeting the kernel or the bitmap |
| `FrameSpec.InitAccounted` | src/memory/frame_alloc.c:92-139 | for any two ranges at all, the used frames are those the marking loops visit and the counters agree |
| `KernelRuns.RunFrames` | src/memory/frame_alloc.c:141-196 | over any call sequence the bitmap class follows the set-level run, and its free counter is 4096 times the clear bits |
| `HeapMemory.PushSound` | src/memory/kheap.c:29-37 | the writes of add_to_free_list represent listing the block in front |
| `HeapMemory.UnlinkSound` | src/memory/kheap.c:39-51 | the writes of remove_from_free_list bypass the block in its own fragment and leave every other fragment alone |
| `HeapMemory.PageSound` | src/memory/kheap.c:72-90 | the writes for a new frame append one block and orphan it |
| `HeapMemory.AbsorbSound` | src/memory/kheap.c:129-138 | the merge writes remove one block from the chain and keep both lists |
| `HeapMemory.SplitSound` | src/memory/kheap.c:227-244 | the split writes insert one block, whatever the payload bytes held |
| `HeapMemory.ScrubSound` | src/memory/kheap.c:259-262 | zeroing a block's payload destroys no header of the chain |
| `HeapMemory.ListingCompletes` | src/memory/kheap.c:285-301 | listing what coalesce returns gives the fully merged heap |
| `KernelHeap.KHeap.AddToFreeList` | src/memory/kheap.c:29-37 | refines flagging and pushing |
| `KernelHeap.KHeap.RemoveFromFreeList` | src/memory/kheap.c:39-51 | refines Unlink, head movement included |
| `KernelHeap.KHeap.GrowPages` | src/memory/kheap.c:62-91 | the frame loop, stopping at the first failed frame |
| `KernelHeap.KHeap.ExpandHeap` | src/memory/kheap.c:55-114 | refines Expand, partly failed expansions included |
| `KernelHeap.KHeap.Coalesce` | src/memory/kheap.c:118-161 | NULL and allocated blocks come back unchanged; a free block is merged once each way and the result is unlisted |
| `KernelHeap.KHeap.Init` | src/memory/kheap.c:165-174 | refines Boot over any frame allocator whose bitmap lies in reserved frames |
| `KernelHeap.KHeap.Search` | src/memory/kheap.c:189-199 | the walk along next_free ends and finds the first fit in list order |
| `KernelHeap.KHeap.Finish` | src/memory/kheap.c:254-262 | zeroing the payload keeps every header, clears the bitmap bytes it covers, and keeps the frame allocator sound if there are none |
| `KernelHeap.KHeap.Kmalloc` | src/memory/kheap.c:176-266 | for every 64-bit size: chain and result are those of the specification, the payload's bitmap bytes are zero, and memory represents the new heap if grant and headers keep out of the frames reserved at boot; size 0 touches nothing |
| `KernelHeap.KHeap.Kfree` | src/memory/kheap.c:268-302 | for NULL and any chain pointer: the heap is that of the specification; for NULL and free blocks no header and no static pointer changes |
| `HeapInvariant.UnlinkOK` | src/memory/kheap.c:39-51 | unlinking removes exactly that block and keeps all fragments disjoint and repetition-free |
| `HeapInvariant.MergeOK` | src/memory/kheap.c:124-139 | merging keeps order, alignment, bounds and total bytes |
| `HeapInvariant.SplitOK` | src/memory/kheap.c:227-244 | splitting keeps order, alignment, bounds and total bytes |
| `HeapInvariant.GrowIs` | src/memory/kheap.c:62-91 | the frame loop in closed form: separate, free, unlisted pages |
| `HeapInvariant.GrowSucceedsIff` | src/memory/kheap.c:62-70 | the frame loop finds its frames if and only if that many are clear |
| `HeapInvariant.ExpandBlocks` | src/memory/kheap.c:95-108 | the chain after an expansion: only the first page is merged |
| `HeapInvariant.FirstFitMeaning` | src/memory/kheap.c:193-199 | the block found fits and none listed before it does |
| `HeapInvariant.RoundUpMeaning` | src/memory/kheap.c:183-184 | rounding to 8 covers the size exactly up to 2^64 - 8 and wraps to 0 above |
| `HeapInvariant.PagesNeededMeaning` | src/memory/kheap.c:57-58 | the pages hold the request and two headers if and only if the sum does not wrap, and then they are the fewest |
| `HeapInvariant.ExpandInv` | src/memory/kheap.c:55-114 | expansion keeps the whole invariant, failed or not |
| `HeapInvariant.KmallocInv` | src/memory/kheap.c:176-266 | kmalloc keeps the whole invariant |
| `HeapInvariant.KfreeInv` | src/memory/kheap.c:268-302 | kfree keeps the whole invariant |
| `HeapPointers.ChainWalks` | src/memory/kheap.c:81-90 | next from heap_start and prev from heap_end visit every block once, in opposite orders, and end in NULL |
| `HeapPointers.FreeLinksMutual` | src/memory/kheap.c:29-51 | every free block's links, listed or not, are NULL or lead to a free chain block that links back |
| `HeapPointers.FreeWalkEnds` | src/memory/kheap.c:193-199 | next_free from any free block ends in NULL |
| `HeapPointers.HeadIsFront` | src/memory/kheap.c:36-44 | free_list_head is NULL or a free block without predecessor |
| `HeapRuns.KmallocLive` | src/memory/kheap.c:223-265 | kmalloc adds one fresh allocated block of at least the rounded size and less than 96 bytes more, or none; all other allocated blocks keep address and size |
| `HeapRuns.KfreeLive` | src/memory/kheap.c:268-302 | kfree gives up exactly its own block; all other allocated blocks keep address and size |
| `HeapRuns.GrantCoversIff` | src/memory/kheap.c:183-187 | a granted block has the bytes asked for if and only if the size is at most 2^64 - 8 |
| `HeapRuns.WrappedSizeGranted` | src/memory/kheap.c:183-199 | with anything listed, each of the last seven sizes is granted a block of less than 96 bytes |
| `HeapRuns.WrappedSizeGrantedAtBoot` | src/memory/kheap.c:165-199 | so they are right after kheap_init on every machine with five clear frames |
| `HeapRuns.RunKeeps` | src/memory/kheap.c:176-302 | every legal run of the specification keeps the invariant, and pointers held are exactly the allocated blocks at their recorded sizes |
| `HeapLayout.BootRun` | src/memory/kheap.c:165-302 | every legal run of the specification from boot: invariant, books, byte conservation (48 plus size summed is 4096 per frame), and frames used are those used at boot and those obtained |
| `HeapLayout.HeldBlocksDisjoint` | src/memory/kheap.c:229-260 | any two held blocks, headers included, are disjoint |
| `HeapLayout.PayloadMeetsNoHeader` | src/memory/kheap.c:259-262 | a held payload is aligned and overlaps no header of the chain |
| `HeapLayout.TilesIffConsecutive` | src/memory/kheap.c:72-103 | the chain tiles the memory from first to last frame if and only if the frames were consecutive |
| `HeapLayout.ConsecutiveInside` | src/memory/kheap.c:72-103 | with consecutive frames every byte of every block lies in a frame of the heap |
| `HeapLayout.HeldAvoidsReserved` | src/memory/frame_alloc.c:131-135 | then no held byte lies in a frame reserved at boot |
| `HeapLayout.EarlyRunTiles` | src/linker.ld:9 | with nothing reserved below frame 256, every run of at most 256 frames tiles its own frames |
| `HeapLayout.KernelRunTiles` | src/linker.ld:9 | init with the kernel at 0x40100000 and the bitmap above, boot and any run of at most 256 frames: the chain tiles its frames and no block byte lies in a reserved frame |
| `HeapInside.InsideIffStraight` | src/memory/kheap.c:72-90 | blocks lie in the heap's frames if and only if the n-th byte of the chain is the n-th byte of the frames, for every n |
| `HeapInside.MergeInsideIff` | src/memory/kheap.c:129-133 | a merge keeps the blocks inside if and only if the two blocks touch |
| `HeapInside.KfreeInsideIff` | src/memory/kheap.c:118-161 | kfree of any pointer keeps them inside if and only if every free neighbour it merges touches |
| `HeapInside.ExpandInsideIff` | src/memory/kheap.c:95-108 | an expansion does if and only if it failed, the last block is not free, or the next frame starts where that block ends |
| `HeapInside.KmallocInsideIff` | src/memory/kheap.c:201-247 | the same for kmalloc of every 64-bit size |
| `HeapInside.BootRunInsideIff` | src/memory/kheap.c:165-302 | after any legal run from boot the blocks are inside if and only if every merge of the run touched |
| `HeapInside.TouchingRunAvoidsReserved` | src/memory/frame_alloc.c:131-135 | in such a run no held byte lies in a frame reserved at boot |
| `HeapInside.GapAllocationEscapes` | src/memory/kheap.c:95-108 | when the expansion does not touch, an allocation that outgrows the last block is granted bytes of a frame the heap never obtained |
| `HeapGap.ReservedFrameHandedOut` | src/memory/kheap.c:165-265 | a concrete boot on which kmalloc(5000) runs into a reserved frame |
| `HeapGap.ReservedFrameFreedInto` | src/memory/kheap.c:118-139 | a concrete boot on which freeing a page joins it across a reserved frame, though all blocks were inside before |
| `HeapSpared.KfreeGuarded` | src/memory/kheap.c:118-161 | kfree of any pointer leaves no header in a reserved frame if there was none |
| `HeapSpared.ExpandGuarded` | src/memory/kheap.c:62-111 | nor does an expansion, failed or not, and it takes no reserved frame |
| `HeapSpared.AvoidsBitmap` | src/memory/frame_alloc.c:17 | bytes of managed memory outside the reserved frames are no bytes of the bitmap |
| `HeapSpared.InitKeepsBitmap` | src/memory/frame_alloc.c:134-135 | init reserves every managed frame holding a byte of the bitmap whenever its range rounds right |
| `HeapSafety.TouchingRunSpares` | src/memory/kheap.c:176-302 | in every run from boot whose merges touch, every payload zeroed and every header left, at every step, keeps out of all frames used at boot |
| `HeapSafety.KmallocSparesIff` | src/memory/kheap.c:201-262 | from a heap inside its frames, for every 64-bit size: payload and headers keep out of the frames used at boot if and only if the expansion touches, or the cut stays in the last block as it was, or it is made elsewhere |
| `HeapSafety.EarlyRunSpares` | src/linker.ld:9 | so does every run of at most 256 frames when nothing below frame 256 is reserved |
| `HeapSurvival.ExpandKeepsListedIff` | src/memory/kheap.c:95-111 | an expansion keeps every listed block listed if and only if the last block is not free, fronts no orphan, or the list is empty; otherwise it loses all of them |
| `HeapSurvival.KmallocKeepsListedIff` | src/memory/kheap.c:176-266 | for every 64-bit size kmalloc keeps every listed block but the one taken if and only if the size is 0, a block fits, frames are too few, or the expansion keeps them |
| `HeapSurvival.ListDroppedAtBoot` | src/memory/kheap.c:165-221 | with seven clear frames kmalloc(5000) right after boot drops page 0, which it neither takes nor merges |
| `HeapSurvival.BootRunKeepsListedIff` | src/memory/kheap.c:165-302 | in a legal run from boot no call loses a listed block if and only if every call meets its condition |
| `HeapSurvival.ExactRunSurvives` | src/memory/kheap.c:39-51 | a run that stays exact loses no listed block |
| `HeapListed.KfreeKeepsListedIff` | src/memory/kheap.c:39-51 | freeing a block keeps every other listed block listed if and only if no free neighbour it merges fronts an orphan, with the two exceptions spelled out |
| `HeapListed.KfreeDropsList` | src/memory/kheap.c:118-139 | beside a lone orphaned page the list becomes that block alone and the old list an orphan |
| `HeapReach.ExactHeapReached` | src/memory/kheap.c:165-302 | with five clear frames, eight calls from kheap_init lead to an exact heap of one five-page block |
| `HeapReach.RunExactIff` | src/memory/kheap.c:176-302 | a legal run from an exact heap stays exact if and only if every kmalloc finds a fit, needs one page, or finds no frame |
| `HeapReach.SmallRunExact` | src/memory/kheap.c:176-302 | requests of at most 4000 bytes keep an exact heap exact, whatever is freed in between |
| `HeapReach.ExactFromThere` | src/memory/kheap.c:165-302 | with five clear frames eight calls from kheap_init lead to a heap that every run of small requests keeps exact |
| `HeapExact.KfreeKeepsExact` | src/memory/kheap.c:118-161 | listed exactly when free and no two free neighbours: kfree keeps both, so one merge each way is enough |
| `HeapExact.KmallocExactIff` | src/memory/kheap.c:201-247 | kmalloc keeps both if and only if a block fits, one page is enough, or no frame is left |
| `HeapExact.KmallocListsAllIff` | src/memory/kheap.c:201-247 | the same for "every free block is listed" alone, on every heap without orphans |
| `HeapExact.BootListsAllIff` | src/memory/kheap.c:165-174 | every free block is listed after init if and only if there is no memory |
| `HeapExact.BootExactIff` | src/memory/kheap.c:165-174 | the heap is exact after init if and only if there is no memory |
| `HeapExact.ExpandShape` | src/memory/kheap.c:55-114 | n pages on a heap without orphans: n - 1 separate free blocks of 4048 bytes off the list, and the first page, merged with a free predecessor, at its head |
| `HeapExact.MallocThenFree` | src/memory/kheap.c:223-301 | on an exact heap kfree undoes a kmalloc from the list: same chain, and the block moves to the front |
| `HeapService.SmallMallocSucceedsIff` | src/memory/kheap.c:184-221 | on every heap 1 to 4000 bytes are granted if and only if a listed block fits or a frame is left, and the last failure branch is dead |
| `HeapService.AllocateSucceedsIff` | src/memory/kheap.c:201-221 | up to 4048 bytes are granted if and only if a block fits or all the pages asked for are found, and then from the new list head |
| `HeapService.LargeMallocSucceedsIff` | src/memory/kheap.c:201-221 | on every heap more than 4048 bytes are granted if and only if a listed block fits, or enough frames are clear and a free last block either fits with one page more or fronts an orphan with a block that fits |
| `HeapCalls.KfreeIgnores` | src/memory/kheap.c:269-280 | kfree of NULL or of a block that is already free, listed or not, changes nothing |
| `HeapCalls.KmallocZero` | src/memory/kheap.c:177-179 | kmalloc of 0 gives NULL and changes nothing |
| `HeapCalls.FailedExpansion` | src/memory/kheap.c:62-70 | an expansion short of frames keeps the pages it found as unlisted free blocks |
| `HeapCalls.KfreeChain` | src/memory/kheap.c:118-161 | kfree joins the block and its free neighbours into one free block with all their bytes, and no other block changes |
| `HeapCalls.KfreeHeadsList` | src/memory/kheap.c:285-301 | the joined block heads the list; if its free neighbours were listed the others follow in their old order |
| `HeapCalls.KmallocTakesFirstFit` | src/memory/kheap.c:189-247 | the first listed block that fits is cut to the rounded size if 96 bytes or more remain, the rest heading the list, and taken whole otherwise; every other block keeps its place |
| `KernelRuns.RunHeap` | src/memory/kheap.c:176-302 | while grants and headers keep out of the reserved frames, the pointer-level class follows the specified run and stays valid |
| `KernelRuns.BootAndRun` | src/memory/kheap.c:165-302 | from kheap_init on, any legal sequence of calls that spares the frames reserved by then leaves memory representing the specified heap |
| `KernelRuns.KernelBoot` | src/linker.ld:9 | frame_alloc_init with the kernel at 0x40100000 and the bitmap above, kheap_init and any legal run of at most 256 frames leave memory representing the specified heap |
| `KernelRuns.BitmapLost` | src/memory/kheap.c:259-262 | eight frames with the bitmap in the sixth: kmalloc(5000) after boot zeroes it, and the frame of the heap's first block reads as clear |
| `KernelRuns.PointersOfValid` | src/memory/kheap.c:29-51 | after any such run, for the pointers in memory: both chain walks, mutual free links, an ending next_free walk from every free block, and a front block at the head |
| `NumberText.ValueOfDigits` | src/lib/stdio.c:109-112 | the digits printed for a value are worth that value |
| `NumberText.WritesIff` | src/lib/stdio.c:109-141 | the text printed is the only one in the digit table of that case without leading zero that is worth the value |
| `NumberText.DigitMeaning` | src/lib/stdlib_stubs.c:43-58 | a digit of a base is a character from the front of either table, worth its place there |
| `NumberText.ValueAppend` | src/lib/stdlib_stubs.c:76 | one more digit makes the value times the base plus that digit |
| `NumberText.DigitsFit` | src/lib/stdio.c:10-11 | every 64-bit value has at most 20 decimal and 16 hexadecimal digits |
| `NumberText.DigitCharIsTable` | src/lib/stdio.c:136-141 | digit characters are those of the two lookup tables |
| `StringToNumber.CutoffIsExact` | src/lib/stdlib_stubs.c:40-62 | the overflow test holds if and only if the next value would exceed 2^64 - 1 |
| `StringToNumber.ScanDigits` | src/lib/stdlib_stubs.c:43-78 | both digit loops together give the saturated value and the end of the run, overflow or not |
| `StringToNumber.Strtoull` | src/lib/stdlib_stubs.c:8-90 | for every string and base: saturated value of the run after space, ignored sign and prefix, and its end; 0 and the start for a bad base |
| `StrtoullShape.ParseOfParts` | src/lib/stdlib_stubs.c:8-90 | space, sign, prefix, digits, rest: the result is the saturated value of the digits and the index of the first character after them, whatever space and sign were |
| `StrtoullShape.EveryStringHasParts` | src/lib/stdlib_stubs.c:14-58 | every string can be cut into such parts |
| `StrtoullShape.BadBase` | src/lib/stdlib_stubs.c:35-38 | a base other than 0 and 2 to 16 gives 0 and the start of the string |
| `StringToNumber.ParseIsLongestRun` | src/lib/stdlib_stubs.c:43-82 | the run reported is all digits and stops at a non-digit |
| `StringToNumber.PointerRoundTrip` | src/lib/stdio.c:150-179 | full pointer text parsed in base 0 gives the pointer back |
| `Printing.FillNumber` | src/lib/stdio.c:95-120 | the back-filling loop writes the digits and never leaves its 21 bytes |
| `Printing.FillSigned` | src/lib/stdio.c:61-94 | the same with a sign in front, for every value but the most negative |
| `Printing.FillPointer` | src/lib/stdio.c:159-171 | always sixteen zero-padded digits |
| `Printing.Strlen` | src/lib/string.c:24-30 | the length is the distance to the first NUL |
| `Printing.Append` | src/lib/stdio.c:88-92 | clamp and memcpy add as much text as fits before byte 1023 |
| `Printing.NextPiece` | src/lib/stdio.c:28-194 | one turn of the format loop emits the next piece of the unbounded rendering and leaves the rest |
| `Printing.Kprintf` | src/lib/stdio.c:22-207 | the buffer holds the first min(1023, n) characters of the n-character rendering, then a NUL, and that count is returned |
| `Formats.LiteralFormat` | src/lib/stdio.c:189-191 | a format without a percent sign renders as itself |
| `Formats.RenderConcat` | src/lib/stdio.c:28-194 | formats compose: the text of the first with the arguments it takes, then the text of the second with the rest |
| `Formats.PercentSign` | src/lib/stdio.c:180-182 | a doubled percent sign renders as one and takes no argument |
| `Formats.CharacterPrinted` | src/lib/stdio.c:48-50 | a character renders as itself |
| `Formats.StringPrinted` | src/lib/stdio.c:51-60 | a string renders as itself and NULL as (null) |
| `Formats.SignedPrinted` | src/lib/stdio.c:61-94 | %d and %i with any length modifier: a minus sign for negative values, then the one decimal text of the magnitude, and nothing else |
| `Formats.UnsignedPrinted` | src/lib/stdio.c:95-149 | %u, %x and %X with any length modifier: the one text in the table of that base and case |
| `StrtoullShape.PaddedFromTable` | src/lib/stdio.c:166-171 | pointer digits are sixteen characters of the lower-case table |
| `TextRoundTrip.PrintedDecimalParses` | src/lib/stdio.c:95-120 | every 64-bit value printed with %llu parses back in base 0 or 10, to the end of the text |
| `TextRoundTrip.PrintedHexParses` | src/lib/stdio.c:121-149 | the same for %llx and %llX in base 16 |
| `TextRoundTrip.BootTextIsPrintedText` | src/boot/kernel.c:32-54 | below 2^31 the boot text is the %d text |
| `BootText.WriteSize` | src/boot/kernel.c:32-54 | for every size: the text of the 32-bit cast, terminated inside its 16 bytes |
| `BootText.ReverseInPlace` | src/boot/kernel.c:49-53 | the swap loop reverses the text and touches nothing after it |
| `BootText.SizeTextIs` | src/boot/kernel.c:34-46 | for every size the text is the one decimal text of its low 32 bits, or empty if the highest of these is set |
| `BootText.SizeTextRightIff` | src/boot/kernel.c:34-46 | the text is the decimal text of the size if and only if the size is below 2^31 |
| `Tokens.WordsAreMaximal` | src/lib/string.c:55-85 | the words are exactly the maximal delimiter-free stretches, in order, none missed |
| `Tokens.Tokeniser.Found` | src/lib/string.c:95-100 | the inner loop reports whether the character is one of those given |
| `Tokens.Tokeniser.Strspn` | src/lib/string.c:88-108 | counts the leading delimiters of what is left |
| `Tokens.Tokeniser.Strpbrk` | src/lib/string.c:111-122 | finds the first delimiter, or NULL |
| `Tokens.Tokeniser.Strtok` | src/lib/string.c:55-85 | returns the next word, terminated in place; changes one byte at most; the rest stays readable from strtok_last |
| `Shell.TypedFits` | src/shell/shell.c:354-370 | whatever is typed, the line is printable and at most 127 characters |
| `Shell.PrintableTyped` | src/shell/shell.c:364-366 | up to 127 keys from 32 to 126 give themselves, in order |
| `Shell.FullLineEnds` | src/shell/shell.c:354 | keys after the 127th character are lost |
| `Shell.EnterEnds` | src/shell/shell.c:356-358 | Enter ends the line as it stands |
| `Shell.EndsIff` | src/shell/shell.c:354-358 | a line ends with Enter or its 127th character, and with nothing else |
| `Shell.BackspaceCancels` | src/shell/shell.c:359-363 | a character and the backspace or delete after it cancel, anywhere in an open line |
| `Shell.ControlIgnored` | src/shell/shell.c:359-369 | any other control key, and backspace or delete on an empty line, changes nothing |
| `Shell.TypedResumes` | src/shell/shell.c:354-356 | keys that arrive later are ignored once the line has ended and otherwise continue it where it stood |
| `Shell.ReadLine` | src/shell/shell.c:350-370 | the buffer reads as the stack reading of the keys |
| `Shell.ParseArgs` | src/shell/shell.c:376-382 | argv is the first ten words in order, each still intact after all strtok calls |
| `Shell.ReadCommand` | src/shell/shell.c:347-382 | the same from keystrokes to arguments |

## Left out

- Kprintf: does not cover %p, unsupported specifiers, widths or a trailing percent sign, and takes arguments that match their conversions.
- FillSigned: excludes the most negative 64-bit value, whose negation C leaves undefined.
- Kfree: takes NULL or a pointer to a block of the chain; other pointers read a header that memory does not hold.
- Kmalloc: once a grant or a header reaches a frame reserved at boot, only the zeroing of the bitmap is modelled; the kernel's variables and code there, and headers written over the bitmap, are not, so no result speaks for the code after such a call.
- BootRun: is about the specification; on runs that do not spare the reserved frames the code may depart from it.
- BootAndRun: does not model what clients write into their payloads; `PayloadMeetsNoHeader` is the fact that makes such writes harmless.
- ReadLine: does not model waiting for keys; it stops where the given keys end, and `TypedResumes` says how later keys continue. The echo and the clearing of the buffer beforehand are left out.
- Strtok: does not model switching buffers between calls; one tokeniser works on one buffer.
- RoundUpMeaning: the mask that rounds a size to 8 is written as division and multiplication by 8.
- FillNumber: masks and shifts on unsigned values are written as remainder and quotient by 16.
- UART registers, busy-waiting, the terminal interface and the exception code: device registers and processor state have no counterpart in the model.
- Diagnostics printed by the allocators, and the zeroing of whole frames beyond their headers.
- The commands memdump, peek, poke, alloc and free of the shell, and `is_address_valid`: raw memory access or single branches.
- The UEFI memory map, which the code does not parse.
