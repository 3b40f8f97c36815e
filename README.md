# ToyMalloc's explicit free-list allocator, in Dafny

This project models `mm.c`, an allocator for the classic malloc lab. It
keeps one contiguous arena that grows with `mem_sbrk`. Every block carries
a 4-byte header and a 4-byte footer, each holding the payload size (a
multiple of 8) with the allocated flag in bit 0. Free blocks are kept on a
circular, doubly linked list. Its `prev` and `next` words sit in the first
16 bytes of each free payload, and the prologue block's payload
(`heap_listp`) is the sentinel. `malloc` rounds a request up to a multiple
of 8, at least 16. `find_fit` takes the first listed block that is large
enough, in list order; when none is, `extend_heap` appends a fresh block.
`place` splits a block when more than 32 bytes would be left over. `free`
clears the allocated bit and merges the block with free neighbours
(`coalesce`). `realloc` and `calloc` are built on `malloc` and `free`.

The model has five modules:

- `Codec`: the tag and alignment macros (`ALIGN`, `PACK`, `GET_SIZE`,
  `GET_ALLOC`, `HDBP`, `FTBP`, the neighbour offsets), over integers, with
  bit-vector lemmas for the masks.
- `FreeList`: the link words as a map, what it means for a sequence of
  nodes to be linked from the sentinel, the effect of `add_free_block` and
  `remove_free_block`, and the search loop of `find_fit`.
- `Layout`: the block chain that tiles the arena, and facts about it.
- `AbstractHeap`: each public operation as a function from one abstract
  heap (blocks, free list in list order, break) to the next, and the
  lemmas that say what the operations promise.
- `Mm`: the `Allocator` class. Its fields are the arena's tag words and
  link words, the break and the sentinel. It has one method per C
  function, each proved to move the abstract heap as the matching
  `AbstractHeap` function does.

`mem_sbrk` is the `Sbrk` method. It moves the `brk` field and fails past the
fixed bound `hi` (the size of the arena `memlib` reserves). `NULL` is 0.

## Model

| member | source | states |
|---|---|---|
| Codec.Align | mm.c:44-45 | ALIGN without wrap-around: the result is a multiple of 8, at least n and less than n + 8, so it is the least such multiple |
| Codec.AdjustedSize | mm.c:275-276 | the size malloc asks find_fit for is a multiple of 8, at least 16 and at least n, and it exceeds n by less than 8 unless it is the 16-byte minimum |
| Codec.AlignAsWrittenAgrees | mm.c:45 | below 2^64 - 8 the wrapping macro and the integer rounding agree |
| Codec.AlignWrapsNearLimit | mm.c:45 | above 2^64 - 8 the macro's sum wraps: ALIGN gives 0, and malloc's adjusted size becomes 16, less than the request |
| Codec.MaxRequestGetsMinBlock | mm.c:274-276 | malloc(2^64 - 1) asks for a 16-byte block as written, and for 2^64 bytes with corrected rounding |
| Codec.PackRoundTrip | mm.c:61-69 | GET_SIZE and GET_ALLOC give back the size and the flag PACK stored, for an 8-aligned size and a 0/1 flag |
| Codec.PackIsBitwiseOr | mm.c:69 | on a 32-bit word `size \| alloc` equals `size + alloc` when the low three bits of size are clear |
| Codec.MasksAreRemainders | mm.c:61-63 | on a 32-bit word the masks of GET_SIZE and GET_ALLOC subtract the remainder modulo 8 and take the remainder modulo 2 |
| Codec.AlignMaskIsRemainder | mm.c:45 | on `size_t` ALIGN's mask is the wrapped sum minus its remainder modulo 8 |
| FreeList.EraseProps | mm.c:104-109 | unlinking x from a repetition-free list keeps it repetition-free, removes exactly x from its elements and shortens it by one when x was listed |
| FreeList.AddLinked | mm.c:87-100 | add_free_block's four link writes put bp at the head of a list that stays circular and doubly linked |
| FreeList.RemoveLinked | mm.c:104-109 | remove_free_block of the k-th node leaves the other nodes linked, in their order |
| FreeList.RemoveErased | mm.c:104-109 | remove_free_block of a listed node leaves exactly the list without that node, still linked |
| FreeList.FirstFit | mm.c:228-233 | the first index, in list order, whose size is at least asize: every earlier node is smaller; the list length when there is none |
| FreeList.Walk | mm.c:223-230 | the search loop follows `next` from the sentinel and stops at the first fit, or at the sentinel when no listed block fits |
| Layout.ChainOrdered | mm.c:130 | blocks lie in increasing address order without overlap |
| Layout.ChainBounds | mm.c:130 | every block lies between the first payload, lo + 32, and the break |
| Layout.ArenaAccounting | mm.c:247-254 | the arena holds 32 bytes of padding, prologue and epilogue, plus size + 8 bytes per block |
| Layout.ChainUnique | mm.c:130 | no two blocks share a payload address |
| AbstractHeap.ExtendedOk | mm.c:166-185 | extend_heap keeps the heap invariant; on success it returns the old break, 8-aligned, as an allocated, unlisted block of the adjusted size; the arena grows by exactly that size plus 8 and the earlier blocks stay as they were; on failure nothing changes |
| AbstractHeap.AppendedOk | mm.c:174-178 | a block of at least 16 bytes appended at the old break keeps the heap invariant and adds size + 8 bytes; the old break is 8-aligned and not listed |
| AbstractHeap.PlacedOk | mm.c:189-208 | place keeps the heap invariant and the total block bytes; the placed block is allocated, of asize bytes when it splits and of its whole size otherwise; a split leaves a free block of at least 32 bytes right after it |
| AbstractHeap.PlacedSplitOk | mm.c:193-202 | with more than 32 bytes of slack, place leaves an allocated block of asize bytes and, right after it, a free block of the remaining bytes minus 8 at the head of the list |
| AbstractHeap.CoalescedIsMerge | mm.c:134-160 | freeing block i replaces the run of it and its free neighbours by one free block spanning exactly their bytes, headers and footers included |
| AbstractHeap.CoalescedFreeOk | mm.c:133-160 | after coalescing, the free list holds exactly the free blocks, once each |
| AbstractHeap.CoalescedOk | mm.c:121-162 | coalescing keeps the heap invariant and the total block bytes; the list changes length by one minus the number of absorbed neighbours; in the previous-only case the list is unchanged, otherwise the merged block heads it |
| AbstractHeap.FitStepOk | mm.c:212-238 | find_fit returns the first listed block, in list order, of at least asize bytes, or what extend_heap returns when none fits; a non-NULL result is the 8-aligned payload of an allocated, unlisted block of asize to asize + 32 bytes; NULL leaves the heap as it was |
| AbstractHeap.FitPlacedOk | mm.c:223-236 | when a listed block fits, find_fit returns that block, placed, and never NULL |
| AbstractHeap.MallocStepOk | mm.c:269-278 | malloc(0) returns NULL and changes nothing; a failed malloc changes nothing; malloc keeps the heap invariant; a non-NULL result is an 8-aligned, unlisted, allocated block holding at least n bytes |
| AbstractHeap.MallocKeepsAllocated | mm.c:269-278 | malloc never disturbs a block in use |
| AbstractHeap.LiveAfterMalloc | mm.c:269-278 | a pointer in use before malloc is still in use after it |
| AbstractHeap.MallocFresh | mm.c:269-278 | malloc never returns a payload already in use |
| AbstractHeap.MallocAsWrittenAgrees | mm.c:274-277 | for requests up to 2^64 - 8, malloc with the wrapping ALIGN and malloc with the corrected rounding are the same step |
| AbstractHeap.ExtendWrapsNearLimit | mm.c:166-178 | a request of 2^64 - 15 to 2^64 - 8 bytes is rounded to 2^64 - 8, no listed block fits, and extend_heap as written asks mem_sbrk for 0 bytes: it returns the unmoved break as a block whose tags say 2^32 - 8 bytes, with its footer past the arena; the corrected malloc returns NULL and changes nothing |
| AbstractHeap.MallocWrapsNearLimit | mm.c:274-277 | on a fresh heap, malloc(2^64 - 1) as written returns a 16-byte block, while the corrected malloc returns NULL and changes nothing |
| AbstractHeap.FreeStepOk | mm.c:285-305 | free(NULL) and free of a block already free change nothing; otherwise free keeps the heap invariant, the break and the total block bytes, p is no longer in use, and the list gains one entry less the number of absorbed neighbours |
| AbstractHeap.FreedNotLive | mm.c:295-304 | after free no block in use starts at the freed address |
| AbstractHeap.FreeKeepsAllocated | mm.c:285-305 | free never disturbs a block in use other than p's |
| AbstractHeap.ReallocStepOk | mm.c:313-350 | realloc(p, 0) frees p and returns NULL, and changes nothing when p is NULL or already free; realloc(NULL, n) is malloc(n); when malloc fails the heap, and p's block with it, is left as it was; otherwise the result is a malloc result for n and p is no longer in use; the heap invariant holds throughout |
| AbstractHeap.CallocStepOk | mm.c:355-364 | calloc keeps the heap invariant; a non-NULL result is an allocated, unlisted block of at least nmemb * size bytes; an overflowing product or a failed malloc changes nothing |
| AbstractHeap.CallocProductWraps | mm.c:357-359 | as written, calloc(2^63 + 1, 2) asks malloc for 2 bytes and gets at most 48 where 2^64 + 2 were requested; the checked product returns NULL and changes nothing |
| Mm.HeaderTag | mm.c:61-71 | in a well-formed arena a block's header decodes to its size and allocated flag |
| Mm.PrevTag | mm.c:75-79 | the word before a block's header is its predecessor's footer, or the allocated prologue footer for the first block |
| Mm.NextTag | mm.c:77-81 | the word after a block's footer is its successor's header, or the allocated epilogue for the last block |
| Mm.LiveWordsApart | mm.c:52-59 | in a well-formed heap the 4 bytes of every tag word and the 8 bytes of every link word are disjoint, so two maps describe the one arena |
| Mm.ListSpaced | mm.c:87-109 | listed blocks lie at least 16 bytes apart and past the sentinel, so their link words never overlap |
| Mm.ExtendInv | mm.c:176-184 | extend_heap's header, footer and epilogue writes leave the invariant and the state ExtendStep describes |
| Mm.InitInv | mm.c:249-255 | mm_init's six writes establish the invariant for the empty heap |
| Mm.FitPrep | mm.c:216-228 | the sentinel's `next` word is the sentinel exactly when the list is empty, and the headers of listed blocks hold the sizes find_fit compares |
| Mm.FreePrep | mm.c:291 | free reads block i's header and finds its size and allocated flag |
| Mm.CoalescePrep | mm.c:125-131 | coalesce's reads of the neighbouring tags tell whether each neighbour is free and how large it is |
| Mm.PlaceSplitInv | mm.c:194-202 | place's split writes restore the invariant for the placed heap |
| Mm.PlaceWholeInv | mm.c:205-206 | place's unsplit writes restore the invariant for the placed heap |
| Mm.FreeAloneInv | mm.c:295-304 | freeing a block with no free neighbour and pushing it on the list restores the invariant |
| Mm.CoalesceNextInv | mm.c:134-141 | the merge with the next neighbour restores the invariant |
| Mm.CoalescePrevInv | mm.c:142-152 | the merge into the previous neighbour restores the invariant and keeps the list order |
| Mm.CoalesceBothInv | mm.c:153-160 | the merge of both neighbours restores the invariant, the merged block heading the list |
| Mm.Allocator.Sbrk | mm.c:174 | mem_sbrk returns the old break and moves it by incr, or returns -1 and leaves it when the arena cannot grow that far |
| Mm.Allocator.AddFreeBlock | mm.c:87-100 | the link map after add_free_block's writes, and bp at the head of the list |
| Mm.Allocator.RemoveFreeBlock | mm.c:104-109 | the link map after remove_free_block's two writes, and the list without bp |
| Mm.Allocator.UpdateHF | mm.c:113-117 | the header is written first and the footer at the place the new header names |
| Mm.Allocator.Place | mm.c:189-208 | place keeps the invariant and leaves the placed heap: split exactly when the slack exceeds 32 bytes |
| Mm.Allocator.PlaceSplit | mm.c:193-202 | the split branch's tag and list writes give the placed heap |
| Mm.Allocator.PlaceWhole | mm.c:203-207 | the unsplit branch unlinks the block and marks it allocated |
| Mm.Allocator.ExtendHeap | mm.c:166-185 | extend_heap moves the heap as ExtendStep does: a new allocated, unlisted block, or NULL with nothing changed |
| Mm.Allocator.NewBlock | mm.c:176-184 | the writes after a successful mem_sbrk give the extended heap |
| Mm.Allocator.FindFit | mm.c:212-238 | find_fit moves the heap as FitStep does: first fit in list order, placed, or extend_heap |
| Mm.Allocator.MergeNext | mm.c:136-141 | the two tag writes of the next-only merge, the next block unlinked and bp pushed |
| Mm.Allocator.MergePrev | mm.c:146-149 | the two tag writes of the previous-only merge; the list is not touched |
| Mm.Allocator.MergeBoth | mm.c:153-159 | the two tag writes of the three-way merge, both neighbours unlinked and the previous block pushed |
| Mm.Allocator.AbsorbNext | mm.c:134-141 | the next-only merge leaves the coalesced heap and the invariant |
| Mm.Allocator.AbsorbPrev | mm.c:142-152 | the previous-only merge leaves the coalesced heap and the invariant |
| Mm.Allocator.AbsorbBoth | mm.c:152-160 | the three-way merge leaves the coalesced heap and the invariant |
| Mm.Allocator.Coalesce | mm.c:121-162 | returns 1, changing nothing, exactly when neither neighbour is free; otherwise 0, with the coalesced heap and the invariant |
| Mm.Allocator.Free | mm.c:285-305 | free moves the heap as FreeStep does: nothing for NULL or a free block; otherwise mark free, coalesce, and push the block when nothing merged |
| Mm.Allocator.Malloc | mm.c:269-278 | malloc moves the heap as MallocStep does: NULL for 0, otherwise find_fit of the adjusted size |
| Mm.Allocator.Realloc | mm.c:313-350 | realloc moves the heap as ReallocStep does |
| Mm.Allocator.Calloc | mm.c:355-364 | calloc moves the heap as CallocStep does: malloc of the product, NULL when the product overflows |
| Mm.Allocator.Init | mm.c:243-263 | mm_init returns 0 with the empty heap and the invariant, or -1 with the break unchanged when the arena cannot hold 32 bytes |

## Left out

- AbstractHeap.ArenaOk: the arena is bounded by 2^32 bytes, so every block the model builds has a size below 2^32 and fits the `unsigned int` that `PUT` (mm.c:52) and `updateHF`'s size parameter (mm.c:113) truncate to. The bound does not limit requests: a request whose adjusted size reaches 2^32 is refused in the model because the arena cannot grow that far. In the code its size would be truncated by updateHF, and whether mem_sbrk refuses it first depends on the increment mem_sbrk receives (next lines). An arena larger than 2^32 bytes is not modelled.
- Mm.Allocator.Sbrk: the model hands mem_sbrk the increment untruncated. memlib's declaration of `mem_sbrk` is not part of this model. If its parameter is narrower than `size_t` (an `int incr`, say), increments above its range would be truncated too, and that is not modelled.
- Mm.LiveWordsApart: tag words and link words are two maps, and the lemma proves that they are byte-disjoint in every well-formed heap, that is, between calls. The positions written in the middle of one call are not checked against the other map. An example is place's new footer at bp + asize while bp is still listed. Reads of a word through the other kind of access, such as `SIZE_PTR` below, are not modelled either.
- Mm.Allocator.Realloc: the copy of the payload (mm.c:342-344) is not modelled, because payload bytes are not part of the model. The copy length `*SIZE_PTR(oldptr)` reads the 8 bytes before the payload, a footer and a header, as one `size_t`; that value is not modelled either. The `mm_checkheap()` calls (mm.c:318, 325, 348) are left out: they only print.
- Mm.Allocator.Calloc: the `memset` that zeroes the payload (mm.c:361) is not modelled, and neither is the `memset(NULL, 0, bytes)` the code runs when malloc fails. The model returns NULL on an overflowing product where mm.c:357 wraps it (see Findings).
- Mm.Allocator.Malloc: rounds with the corrected ALIGN and uses the corrected extend_heap. For requests above 2^64 - 8 it returns NULL, where the code returns a 16-byte block. For requests of 2^64 - 15 to 2^64 - 8 bytes it returns NULL, where the code returns the unmoved break with a truncated header and a footer written past the arena (see Findings).
- Mm.Allocator.ExtendHeap: computes `size + 8` without wrap-around. For a size of 2^64 - 8 it returns NULL when the arena cannot grow that far, where the code passes 0 to mem_sbrk, which succeeds, and writes the footer and epilogue 2^32 - 8 bytes past the payload (mm.c:174-178; see Findings). ExtendAsWritten and ExtendWrapsNearLimit model that path.
- MallocAsWrittenAgrees: the malloc step it compares uses the wrapping ALIGN but the corrected extend_heap, so it is the code's malloc only up to requests of 2^64 - 16 bytes. For requests of 2^64 - 15 to 2^64 - 8 bytes the code returns a block through the wrap at mm.c:174, and both steps return NULL; ExtendWrapsNearLimit covers that range.
- Mm.Allocator.Free: demands NULL or the payload of a current block. The code also accepts any other address and reads whatever word lies before it (mm.c:291). An example is a second free of a block that has merged into its predecessor. That case is undefined and is not modelled.
- Mm.Allocator.Realloc: for a non-zero size it demands NULL or a block in use, as the C library contract does. realloc of an already-free block with a non-zero size is not modelled.
- `mm_checkheap` (mm.c:370-381), `dbg_printf` and the `debug`/`debugfree` counters only print or count, and are left out.
- `CHUNKSIZE`, `SIZE_T_SIZE` and `SIZE_PTR` are not used by the modelled operations. `SIZE_PTR` appears only in realloc's copy.
- `memlib` (`mem_init`, `mem_sbrk`) is not part of this model. The constructor and `Sbrk` stand in for it with a fixed upper bound `hi`.
- Thread safety: the allocator is single-threaded and so is the model.

## Findings

| source | as written | input that shows it | evidently intended | confidence | as-written member | corrected member |
|---|---|---|---|---|---|---|
| mm.c:45 | `ALIGN(size)` adds 7 on `size_t`, so the sum wraps and the rounded size is 0; malloc raises it to 16 and serves a 16-byte block | malloc(2^64 - 1) on a fresh heap returns a 16-byte block | a request that cannot be rounded without overflow fails with NULL | not executed | AbstractHeap.MallocWrapsNearLimit | AbstractHeap.MallocStepOk |
| mm.c:174 | `size + 8` is computed on `size_t` and wraps to 0 for a size of 2^64 - 8; mem_sbrk(0) succeeds, updateHF cuts the size to 2^32 - 8, and the footer and epilogue are written 2^32 - 8 bytes past the payload | malloc(2^64 - 8): no listed block fits, extend_heap returns the unmoved break, whose footer lies past the arena | a request the arena cannot hold fails with NULL and changes nothing | not executed | AbstractHeap.ExtendWrapsNearLimit | AbstractHeap.ExtendedOk |
| mm.c:357-359 | `nmemb * size` is computed on `size_t` and wraps; malloc is called on the wrapped product | calloc(2^63 + 1, 2) asks malloc for 2 bytes and returns a block of at most 48 bytes | an overflowing product fails with NULL, as calloc is specified to | not executed | AbstractHeap.CallocProductWraps | AbstractHeap.CallocStepOk |
