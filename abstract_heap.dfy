/**
 * The allocator's operations on the abstract heap: the block chain, the
 * free list in list order and the arena top.  Each public operation of
 * mm.c is described here as a function from one abstract heap to the next;
 * the Allocator class is proved to follow these functions, and the lemmas
 * below prove what the operations promise about them.
 */
module AbstractHeap {
  import opened Codec
  import opened FreeList
  import opened Layout

  datatype Heap = Heap(blocks: seq<Block>, free: seq<int>, brk: int)

  /** The arena starts at lo, is 8-aligned and never grows past hi; it is
      small enough for every block size to fit a 32-bit tag. */
  ghost predicate ArenaOk(lo: int, hi: int)
  {
    0 < lo && lo % 8 == 0 && hi - lo <= WordLimit
  }

  /** The heap invariant: the blocks tile the arena, no two neighbours are
      both free, and the free list holds exactly the free blocks, once each. */
  ghost predicate AbsOk(lo: int, hi: int, h: Heap)
  {
    ArenaOk(lo, hi) &&
    Chain(lo, h.blocks, h.brk) && h.brk <= hi &&
    NoAdjacentFree(h.blocks) &&
    Distinct(h.free) && Elems(h.free) == FreeAddrs(h.blocks)
  }

  // ---------------------------------------------------------------------
  // place (mm.c:189-208)

  /** The split test of place: more than 32 bytes of slack. */
  predicate Splits(bsize: int, asize: int)
  {
    bsize - asize > 32
  }

  /** The blocks after placing a request of asize bytes in free block i:
      either a front part of asize bytes and a free remainder after it, or
      the whole block. */
  function Placed(bs: seq<Block>, i: int, asize: int): (bs': seq<Block>)
    requires 0 <= i < |bs|
  {
    var b := bs[i];
    if Splits(b.size, asize) then
      Splice(bs, i, i + 1, SplitParts(b, asize))
    else
      Splice(bs, i, i + 1, [Block(b.bp, b.size, true)])
  }

  /** The free list after place: block i is unlinked and a remainder goes
      to the head. */
  function PlacedFree(bs: seq<Block>, fl: seq<int>, i: int, asize: int): (fl': seq<int>)
    requires 0 <= i < |bs|
  {
    if Splits(bs[i].size, asize) then [NextBp(bs[i].bp, asize)] + Erase(fl, bs[i].bp)
    else Erase(fl, bs[i].bp)
  }

  // ---------------------------------------------------------------------
  // coalesce (mm.c:121-162) after free marks block i free (mm.c:295)

  predicate PrevFree(bs: seq<Block>, i: int)
    requires 0 <= i < |bs|
  {
    0 < i && !bs[i - 1].alloc
  }

  predicate NextFree(bs: seq<Block>, i: int)
    requires 0 <= i < |bs|
  {
    i + 1 < |bs| && !bs[i + 1].alloc
  }

  /** The blocks after freeing block i and merging it with its free
      neighbours; every absorbed header/footer pair adds 8 bytes. */
  function Coalesced(bs: seq<Block>, i: int): (bs': seq<Block>)
    requires 0 <= i < |bs|
  {
    var b := bs[i];
    if !PrevFree(bs, i) && !NextFree(bs, i) then
      Splice(bs, i, i + 1, [Block(b.bp, b.size, false)])
    else if !PrevFree(bs, i) then
      Splice(bs, i, i + 2, [Block(b.bp, b.size + bs[i + 1].size + ALIGNMENT, false)])
    else if !NextFree(bs, i) then
      Splice(bs, i - 1, i + 1, [Block(bs[i - 1].bp, bs[i - 1].size + b.size + ALIGNMENT, false)])
    else
      Splice(bs, i - 1, i + 2, [Block(bs[i - 1].bp, bs[i - 1].size + b.size + bs[i + 1].size + 2 * ALIGNMENT, false)])
  }

  /** The free list after free: the freed block goes to the head; a merged
      next neighbour is unlinked; a free previous neighbour absorbs the block
      and keeps its place, unless the next one is absorbed as well, in which
      case it is unlinked and re-inserted at the head. */
  function CoalescedFree(bs: seq<Block>, fl: seq<int>, i: int): (fl': seq<int>)
    requires 0 <= i < |bs|
  {
    if !PrevFree(bs, i) && !NextFree(bs, i) then [bs[i].bp] + fl
    else if !PrevFree(bs, i) then [bs[i].bp] + Erase(fl, bs[i + 1].bp)
    else if !NextFree(bs, i) then fl
    else [bs[i - 1].bp] + Erase(Erase(fl, bs[i + 1].bp), bs[i - 1].bp)
  }

  /** The number of neighbours a free of block i absorbs. */
  function Merges(bs: seq<Block>, i: int): (m: int)
    requires 0 <= i < |bs|
  {
    (if PrevFree(bs, i) then 1 else 0) + (if NextFree(bs, i) then 1 else 0)
  }

  // ---------------------------------------------------------------------
  // Lemmas

  lemma DistinctCons(x: int, s: seq<int>)
    requires Distinct(s) && x !in s
    ensures Distinct([x] + s)
  {
    forall i, j | 0 <= i < j < |s| + 1 ensures ([x] + s)[i] != ([x] + s)[j] {
      if i == 0 {
        assert ([x] + s)[j] == s[j - 1];
      } else {
        assert ([x] + s)[i] == s[i - 1] && ([x] + s)[j] == s[j - 1];
      }
    }
  }

  /** A block address is free exactly when its block is free. */
  lemma FreeAddrIff(lo: int, bs: seq<Block>, brk: int, i: int)
    requires Chain(lo, bs, brk) && 0 <= i < |bs|
    ensures bs[i].bp in FreeAddrs(bs) <==> !bs[i].alloc
  {
    FreeAddrsMember(bs, bs[i].bp);
    if bs[i].bp in FreeAddrs(bs) {
      var j :| 0 <= j < |bs| && bs[j].bp == bs[i].bp && !bs[j].alloc;
      ChainUnique(lo, bs, brk, i, j);
    }
  }

  lemma FreeAddrsOne(b: Block)
    ensures FreeAddrs([b]) == if b.alloc then {} else {b.bp}
  {
    assert [b][1..] == [];
  }

  lemma FreeAddrsTwo(b: Block, c: Block)
    ensures FreeAddrs([b, c]) == FreeAddrs([b]) + FreeAddrs([c])
  {
    FreeAddrsConcat([b], [c]);
    assert [b] + [c] == [b, c];
  }

  lemma FreeAddrsThree(b: Block, c: Block, d: Block)
    ensures FreeAddrs([b, c, d]) == FreeAddrs([b]) + FreeAddrs([c]) + FreeAddrs([d])
  {
    FreeAddrsConcat([b], [c, d]);
    assert [b] + [c, d] == [b, c, d];
    FreeAddrsTwo(c, d);
  }

  /** No block starts strictly inside block i. */
  lemma InsideNoBlock(lo: int, bs: seq<Block>, brk: int, i: int, x: int)
    requires Chain(lo, bs, brk) && 0 <= i < |bs| && bs[i].bp < x < End(bs[i])
    ensures x !in FreeAddrs(bs)
  {
    FreeAddrsMember(bs, x);
    if x in FreeAddrs(bs) {
      var j :| 0 <= j < |bs| && bs[j].bp == x && !bs[j].alloc;
      if j < i {
        ChainOrdered(lo, bs, brk, j, i);
      } else if j > i {
        ChainOrdered(lo, bs, brk, i, j);
      }
    }
  }

  /** Blocks mid tile the bytes from the payload at start to end. */
  ghost predicate Tiles(mid: seq<Block>, start: int, end: int)
  {
    mid != [] && mid[0].bp == start && End(mid[|mid| - 1]) == end &&
    (forall j :: 0 <= j < |mid| ==> WellSized(mid[j].size)) &&
    (forall j :: 0 < j < |mid| ==> Follows(mid, j))
  }

  /** Replacing blocks a..b-1 by blocks mid that cover the same bytes keeps
      the heap invariant, given a free list that trades the free blocks of
      the old range for those of the new one, and keeps the accounting. */
  lemma SpliceOk(lo: int, hi: int, h: Heap, a: int, b: int, mid: seq<Block>, fl: seq<int>)
    requires AbsOk(lo, hi, h) && 0 <= a < b <= |h.blocks|
    requires Tiles(mid, h.blocks[a].bp, End(h.blocks[b - 1])) && NoAdjacentFree(mid)
    requires 0 < a && !mid[0].alloc ==> h.blocks[a - 1].alloc
    requires b < |h.blocks| && !mid[|mid| - 1].alloc ==> h.blocks[b].alloc
    requires Distinct(fl) && Elems(fl) == (Elems(h.free) - FreeAddrs(h.blocks[a..b])) + FreeAddrs(mid)
    ensures AbsOk(lo, hi, Heap(Splice(h.blocks, a, b, mid), fl, h.brk))
    ensures Total(Splice(h.blocks, a, b, mid)) == Total(h.blocks)
  {
    ChainSplice(lo, h.blocks, h.brk, a, b, mid);
    NoAdjacentFreeSplice(h.blocks, a, b, mid);
    FreeAddrsSplice(lo, h.blocks, h.brk, a, b, mid);
    ArenaAccounting(lo, h.blocks, h.brk);
    ArenaAccounting(lo, Splice(h.blocks, a, b, mid), h.brk);
  }

  /** place keeps the heap invariant and the arena accounting, and leaves
      block i allocated with asize bytes, or with the whole block when the
      slack is at most 32 bytes; a split-off remainder is free and at least
      32 bytes. */
  lemma {:induction false} PlacedOk(lo: int, hi: int, h: Heap, i: int, asize: int)
    requires AbsOk(lo, hi, h) && 0 <= i < |h.blocks| && !h.blocks[i].alloc
    requires asize % 8 == 0 && MinBlock <= asize <= h.blocks[i].size
    ensures AbsOk(lo, hi, Heap(Placed(h.blocks, i, asize), PlacedFree(h.blocks, h.free, i, asize), h.brk))
    ensures Total(Placed(h.blocks, i, asize)) == Total(h.blocks)
    ensures Placed(h.blocks, i, asize)[i] ==
            Block(h.blocks[i].bp, if Splits(h.blocks[i].size, asize) then asize else h.blocks[i].size, true)
    ensures Splits(h.blocks[i].size, asize) ==>
            i + 1 < |Placed(h.blocks, i, asize)| && !Placed(h.blocks, i, asize)[i + 1].alloc &&
            Placed(h.blocks, i, asize)[i + 1].size >= 32
  {
    var bs, fl, b := h.blocks, h.free, h.blocks[i];
    FreeAddrIff(lo, bs, h.brk, i);
    EraseProps(fl, b.bp);
    assert bs[i..i + 1] == [b];
    FreeAddrsOne(b);
    if Splits(b.size, asize) {
      PlacedSplitOk(lo, hi, h, i, asize);
    } else {
      var mid := [Block(b.bp, b.size, true)];
      FreeAddrsOne(mid[0]);
      assert NoAdjacentFree(mid);
      SpliceOk(lo, hi, h, i, i + 1, mid, Erase(fl, b.bp));
      assert Splice(bs, i, i + 1, mid)[i] == mid[0];
    }
  }

  /** The two blocks a split of block i leaves behind. */
  function SplitParts(b: Block, asize: int): (parts: seq<Block>)
  {
    [Block(b.bp, asize, true), Block(NextBp(b.bp, asize), b.size - asize - ALIGNMENT, false)]
  }

  lemma SplitPartsTile(b: Block, asize: int)
    requires WellSized(b.size) && asize % 8 == 0 && MinBlock <= asize && Splits(b.size, asize)
    ensures Tiles(SplitParts(b, asize), b.bp, End(b)) && NoAdjacentFree(SplitParts(b, asize))
  {
    var mid := SplitParts(b, asize);
    assert Follows(mid, 1);
    assert NotBothFree(mid, 1);
  }

  lemma SplitFreeList(lo: int, bs: seq<Block>, brk: int, fl: seq<int>, i: int, asize: int)
    requires Chain(lo, bs, brk) && Distinct(fl) && Elems(fl) == FreeAddrs(bs)
    requires 0 <= i < |bs| && !bs[i].alloc && MinBlock <= asize && Splits(bs[i].size, asize)
    ensures Distinct(PlacedFree(bs, fl, i, asize))
    ensures Elems(PlacedFree(bs, fl, i, asize)) ==
            (Elems(fl) - FreeAddrs(bs[i..i + 1])) + FreeAddrs(SplitParts(bs[i], asize))
  {
    var b := bs[i];
    var rem := SplitParts(b, asize)[1];
    FreeAddrIff(lo, bs, brk, i);
    EraseProps(fl, b.bp);
    assert bs[i..i + 1] == [b];
    FreeAddrsOne(b);
    FreeAddrsTwo(SplitParts(b, asize)[0], rem);
    FreeAddrsOne(SplitParts(b, asize)[0]);
    FreeAddrsOne(rem);
    InsideNoBlock(lo, bs, brk, i, rem.bp);
    assert rem.bp !in Elems(Erase(fl, b.bp));
    DistinctCons(rem.bp, Erase(fl, b.bp));
    ElemsCons(rem.bp, Erase(fl, b.bp));
  }

  lemma {:induction false} PlacedSplitOk(lo: int, hi: int, h: Heap, i: int, asize: int)
    requires AbsOk(lo, hi, h) && 0 <= i < |h.blocks| && !h.blocks[i].alloc
    requires asize % 8 == 0 && MinBlock <= asize && Splits(h.blocks[i].size, asize)
    ensures AbsOk(lo, hi, Heap(Placed(h.blocks, i, asize), PlacedFree(h.blocks, h.free, i, asize), h.brk))
    ensures Total(Placed(h.blocks, i, asize)) == Total(h.blocks)
    ensures Placed(h.blocks, i, asize)[i] == SplitParts(h.blocks[i], asize)[0]
    ensures Placed(h.blocks, i, asize)[i + 1] == SplitParts(h.blocks[i], asize)[1]
  {
    var bs, b := h.blocks, h.blocks[i];
    var mid := SplitParts(b, asize);
    SplitPartsTile(b, asize);
    if i + 1 < |bs| {
      assert NotBothFree(bs, i + 1);
    }
    SplitFreeList(lo, bs, h.brk, h.free, i, asize);
    SpliceOk(lo, hi, h, i, i + 1, mid, PlacedFree(bs, h.free, i, asize));
    assert Placed(bs, i, asize) == Splice(bs, i, i + 1, mid);
  }

  // coalesce

  /** The first and last index of the run of blocks a free of block i
      merges into one. */
  function MergeFirst(bs: seq<Block>, i: int): (j: int)
    requires 0 <= i < |bs|
  {
    if PrevFree(bs, i) then i - 1 else i
  }

  function MergeLast(bs: seq<Block>, i: int): (k: int)
    requires 0 <= i < |bs|
  {
    if NextFree(bs, i) then i + 1 else i
  }

  /** One free block spanning exactly the bytes of blocks j..k, their
      headers and footers included. */
  function Merged(bs: seq<Block>, j: int, k: int): (b: Block)
    requires 0 <= j <= k < |bs|
  {
    Block(bs[j].bp, End(bs[k]) - bs[j].bp - ALIGNMENT, false)
  }

  lemma MergedTiles(lo: int, hi: int, bs: seq<Block>, brk: int, j: int, k: int)
    requires ArenaOk(lo, hi) && Chain(lo, bs, brk) && brk <= hi && 0 <= j <= k < |bs|
    ensures Tiles([Merged(bs, j, k)], bs[j].bp, End(bs[k])) && NoAdjacentFree([Merged(bs, j, k)])
  {
    var m := Merged(bs, j, k);
    ChainBounds(lo, bs, brk, j);
    ChainBounds(lo, bs, brk, k);
    ChainAligned(lo, bs, brk, j);
    ChainAligned(lo, bs, brk, k);
    if j < k {
      ChainOrdered(lo, bs, brk, j, k);
    }
    assert WellSized(bs[j].size) && WellSized(bs[k].size);
    assert WellSized(m.size);
  }

  /** Merging a run of blocks between allocated neighbours into one free
      block keeps the heap invariant, given a free list that swaps the run's
      free blocks for the merged one. */
  lemma MergeOk(lo: int, hi: int, h: Heap, j: int, k: int, fl: seq<int>)
    requires AbsOk(lo, hi, h) && 0 <= j <= k < |h.blocks|
    requires 0 < j ==> h.blocks[j - 1].alloc
    requires k + 1 < |h.blocks| ==> h.blocks[k + 1].alloc
    requires Distinct(fl) && Elems(fl) == (Elems(h.free) - FreeAddrs(h.blocks[j..k + 1])) + {h.blocks[j].bp}
    ensures AbsOk(lo, hi, Heap(Splice(h.blocks, j, k + 1, [Merged(h.blocks, j, k)]), fl, h.brk))
    ensures Total(Splice(h.blocks, j, k + 1, [Merged(h.blocks, j, k)])) == Total(h.blocks)
  {
    var m := Merged(h.blocks, j, k);
    MergedTiles(lo, hi, h.blocks, h.brk, j, k);
    FreeAddrsOne(m);
    SpliceOk(lo, hi, h, j, k + 1, [m], fl);
  }

  /** The free list after coalesce trades the run's free blocks for the
      merged block and grows by one entry less per absorbed neighbour. */
  lemma CoalescedFreeOk(lo: int, bs: seq<Block>, brk: int, fl: seq<int>, i: int)
    requires Chain(lo, bs, brk) && NoAdjacentFree(bs) && Distinct(fl) && Elems(fl) == FreeAddrs(bs)
    requires 0 <= i < |bs| && bs[i].alloc
    ensures Distinct(CoalescedFree(bs, fl, i))
    ensures Elems(CoalescedFree(bs, fl, i)) ==
            (Elems(fl) - FreeAddrs(bs[MergeFirst(bs, i)..MergeLast(bs, i) + 1])) + {bs[MergeFirst(bs, i)].bp}
    ensures |CoalescedFree(bs, fl, i)| == |fl| + 1 - Merges(bs, i)
  {
    FreeAddrIff(lo, bs, brk, i);
    FreeAddrsOne(bs[i]);
    if PrevFree(bs, i) {
      FreeAddrIff(lo, bs, brk, i - 1);
      FreeAddrsOne(bs[i - 1]);
    }
    if NextFree(bs, i) {
      FreeAddrIff(lo, bs, brk, i + 1);
      FreeAddrsOne(bs[i + 1]);
      if PrevFree(bs, i) {
        ChainOrdered(lo, bs, brk, i - 1, i + 1);
      }
    }
    CoalescedFreeCases(bs, fl, i);
  }

  /** CoalescedFreeOk once the list membership of block i and of its free
      neighbours is known. */
  lemma CoalescedFreeCases(bs: seq<Block>, fl: seq<int>, i: int)
    requires Distinct(fl) && 0 <= i < |bs| && bs[i].alloc
    requires bs[i].bp !in Elems(fl) && FreeAddrs([bs[i]]) == {}
    requires PrevFree(bs, i) ==> bs[i - 1].bp in Elems(fl) && FreeAddrs([bs[i - 1]]) == {bs[i - 1].bp}
    requires NextFree(bs, i) ==> bs[i + 1].bp in Elems(fl) && FreeAddrs([bs[i + 1]]) == {bs[i + 1].bp}
    requires PrevFree(bs, i) && NextFree(bs, i) ==> bs[i - 1].bp != bs[i + 1].bp
    ensures Distinct(CoalescedFree(bs, fl, i))
    ensures Elems(CoalescedFree(bs, fl, i)) ==
            (Elems(fl) - FreeAddrs(bs[MergeFirst(bs, i)..MergeLast(bs, i) + 1])) + {bs[MergeFirst(bs, i)].bp}
    ensures |CoalescedFree(bs, fl, i)| == |fl| + 1 - Merges(bs, i)
  {
    if !PrevFree(bs, i) && !NextFree(bs, i) {
      assert bs[i..i + 1] == [bs[i]];
      DistinctCons(bs[i].bp, fl);
      ElemsCons(bs[i].bp, fl);
    } else if !PrevFree(bs, i) {
      CoalescedFreeNext(bs, fl, i);
      EraseProps(fl, bs[i + 1].bp);
    } else if !NextFree(bs, i) {
      assert bs[i - 1..i + 1] == [bs[i - 1], bs[i]];
      FreeAddrsTwo(bs[i - 1], bs[i]);
    } else {
      CoalescedFreeBoth(bs, fl, i);
      MoveAfterErase(fl, bs[i - 1].bp, bs[i + 1].bp);
    }
  }

  /** Pushing x after unlinking y, as coalesce does when it absorbs the
      next neighbour. */
  lemma PushAfterErase(fl: seq<int>, x: int, y: int)
    requires Distinct(fl) && x !in fl && y in fl
    ensures Distinct([x] + Erase(fl, y))
    ensures Elems([x] + Erase(fl, y)) == Elems(fl) - {y} + {x}
    ensures |Erase(fl, y)| == |fl| - 1
  {
    EraseProps(fl, y);
    assert x !in Elems(Erase(fl, y));
    DistinctCons(x, Erase(fl, y));
    ElemsCons(x, Erase(fl, y));
  }

  /** Unlinking y and x and pushing x back, as coalesce does when it absorbs
      both neighbours. */
  lemma MoveAfterErase(fl: seq<int>, x: int, y: int)
    requires Distinct(fl) && x in fl && y in fl && x != y
    ensures Distinct([x] + Erase(Erase(fl, y), x))
    ensures Elems([x] + Erase(Erase(fl, y), x)) == Elems(fl) - {y}
    ensures |Erase(Erase(fl, y), x)| == |fl| - 2
  {
    var e1 := Erase(fl, y);
    EraseProps(fl, y);
    assert x in Elems(e1);
    var e2 := Erase(e1, x);
    EraseProps(e1, x);
    assert x !in Elems(e2);
    DistinctCons(x, e2);
    ElemsCons(x, e2);
  }

  lemma RunOfTwo(bs: seq<Block>, a: int)
    requires 0 <= a && a + 2 <= |bs|
    ensures FreeAddrs(bs[a..a + 2]) == FreeAddrs([bs[a]]) + FreeAddrs([bs[a + 1]])
  {
    assert bs[a..a + 2] == [bs[a], bs[a + 1]];
    FreeAddrsTwo(bs[a], bs[a + 1]);
  }

  lemma RunOfThree(bs: seq<Block>, a: int)
    requires 0 <= a && a + 3 <= |bs|
    ensures FreeAddrs(bs[a..a + 3]) == FreeAddrs([bs[a]]) + FreeAddrs([bs[a + 1]]) + FreeAddrs([bs[a + 2]])
  {
    assert bs[a..a + 3] == [bs[a], bs[a + 1], bs[a + 2]];
    FreeAddrsThree(bs[a], bs[a + 1], bs[a + 2]);
  }

  lemma CoalescedFreeNext(bs: seq<Block>, fl: seq<int>, i: int)
    requires Distinct(fl) && 0 <= i && i + 1 < |bs|
    requires bs[i].bp !in Elems(fl) && bs[i + 1].bp in Elems(fl)
    requires FreeAddrs([bs[i]]) == {} && FreeAddrs([bs[i + 1]]) == {bs[i + 1].bp}
    ensures Distinct([bs[i].bp] + Erase(fl, bs[i + 1].bp))
    ensures Elems([bs[i].bp] + Erase(fl, bs[i + 1].bp)) == (Elems(fl) - FreeAddrs(bs[i..i + 2])) + {bs[i].bp}
  {
    var b, n := bs[i], bs[i + 1];
    RunOfTwo(bs, i);
    PushAfterErase(fl, b.bp, n.bp);
  }

  lemma CoalescedFreeBoth(bs: seq<Block>, fl: seq<int>, i: int)
    requires Distinct(fl) && 0 < i && i + 1 < |bs| && bs[i - 1].bp != bs[i + 1].bp
    requires bs[i - 1].bp in Elems(fl) && bs[i + 1].bp in Elems(fl)
    requires FreeAddrs([bs[i - 1]]) == {bs[i - 1].bp} && FreeAddrs([bs[i]]) == {} && FreeAddrs([bs[i + 1]]) == {bs[i + 1].bp}
    ensures Distinct([bs[i - 1].bp] + Erase(Erase(fl, bs[i + 1].bp), bs[i - 1].bp))
    ensures Elems([bs[i - 1].bp] + Erase(Erase(fl, bs[i + 1].bp), bs[i - 1].bp)) ==
            (Elems(fl) - FreeAddrs(bs[i - 1..i + 2])) + {bs[i - 1].bp}
  {
    var p, b, n := bs[i - 1], bs[i], bs[i + 1];
    RunOfThree(bs, i - 1);
    MoveAfterErase(fl, p.bp, n.bp);
  }

  /** Coalesced is the merge of the run MergeFirst..MergeLast, and every
      absorbed neighbour adds its size plus 8 bytes of header and footer. */
  lemma CoalescedIsMerge(lo: int, bs: seq<Block>, brk: int, i: int)
    requires Chain(lo, bs, brk) && 0 <= i < |bs|
    ensures Coalesced(bs, i) ==
            Splice(bs, MergeFirst(bs, i), MergeLast(bs, i) + 1, [Merged(bs, MergeFirst(bs, i), MergeLast(bs, i))])
  {
    if PrevFree(bs, i) {
      assert Follows(bs, i);
    }
    if NextFree(bs, i) {
      assert Follows(bs, i + 1);
    }
    MergedSizes(bs, i);
  }

  /** The size Coalesced gives the merged block is the span of the run
      MergeFirst..MergeLast less one header and footer pair. */
  lemma MergedSizes(bs: seq<Block>, i: int)
    requires 0 <= i < |bs|
    requires PrevFree(bs, i) ==> Follows(bs, i)
    requires NextFree(bs, i) ==> Follows(bs, i + 1)
    ensures Coalesced(bs, i) ==
            Splice(bs, MergeFirst(bs, i), MergeLast(bs, i) + 1, [Merged(bs, MergeFirst(bs, i), MergeLast(bs, i))])
  {
  }

  /** free followed by coalesce keeps the heap invariant and the arena
      accounting, leaves one free block spanning exactly the freed block and
      its free neighbours, and adds one free-list entry less per absorbed
      neighbour.  The merged block heads the list unless only the previous
      neighbour was absorbed, which keeps its place. */
  lemma {:induction false} CoalescedOk(lo: int, hi: int, h: Heap, i: int)
    requires AbsOk(lo, hi, h) && 0 <= i < |h.blocks| && h.blocks[i].alloc
    ensures AbsOk(lo, hi, Heap(Coalesced(h.blocks, i), CoalescedFree(h.blocks, h.free, i), h.brk))
    ensures Total(Coalesced(h.blocks, i)) == Total(h.blocks)
    ensures Coalesced(h.blocks, i) ==
            Splice(h.blocks, MergeFirst(h.blocks, i), MergeLast(h.blocks, i) + 1,
                   [Merged(h.blocks, MergeFirst(h.blocks, i), MergeLast(h.blocks, i))])
    ensures |CoalescedFree(h.blocks, h.free, i)| == |h.free| + 1 - Merges(h.blocks, i)
    ensures PrevFree(h.blocks, i) && !NextFree(h.blocks, i) ==> CoalescedFree(h.blocks, h.free, i) == h.free
    ensures !PrevFree(h.blocks, i) || NextFree(h.blocks, i) ==>
            CoalescedFree(h.blocks, h.free, i)[0] == h.blocks[MergeFirst(h.blocks, i)].bp
  {
    var bs := h.blocks;
    var j, k := MergeFirst(bs, i), MergeLast(bs, i);
    CoalescedIsMerge(lo, bs, h.brk, i);
    CoalescedFreeOk(lo, bs, h.brk, h.free, i);
    if 0 < j {
      assert NotBothFree(bs, j);
    }
    if k + 1 < |bs| {
      assert NotBothFree(bs, k + 1);
    }
    MergeOk(lo, hi, h, j, k, CoalescedFree(bs, h.free, i));
  }

  // ---------------------------------------------------------------------
  // The public operations

  const NULL := 0

  /** The heap mm_init leaves: no blocks, an empty list, the epilogue at
      lo + 28 (mm.c:247-255). */
  function InitHeap(lo: int): (h: Heap)
  {
    Heap([], [], FirstBp(lo))
  }

  /** The index of the first block whose payload is at x, |bs| if none. */
  function IndexOf(bs: seq<Block>, x: int): (i: nat)
    ensures i <= |bs|
    ensures i < |bs| ==> bs[i].bp == x
    ensures i == |bs| <==> !IsBlockAddr(bs, x)
  {
    if bs == [] then 0
    else if bs[0].bp == x then 0
    else
      var r := 1 + IndexOf(bs[1..], x);
      assert IsBlockAddr(bs, x) ==> IsBlockAddr(bs[1..], x) by {
        if IsBlockAddr(bs, x) {
          var j :| 0 <= j < |bs| && bs[j].bp == x;
          assert bs[1..][j - 1].bp == x;
        }
      }
      r
  }

  /** The header sizes of the listed blocks, in list order: what the
      search loop of find_fit reads. */
  function ListSizes(bs: seq<Block>, fl: seq<int>): (sizes: seq<int>)
    ensures |sizes| == |fl|
    ensures forall k :: 0 <= k < |fl| && IndexOf(bs, fl[k]) < |bs| ==> sizes[k] == bs[IndexOf(bs, fl[k])].size
  {
    seq(|fl|, k requires 0 <= k < |fl| => if IndexOf(bs, fl[k]) < |bs| then bs[IndexOf(bs, fl[k])].size else 0)
  }

  /** extend_heap(bytes) (mm.c:166-185): grow the arena by a new block of
      AdjustedSize(bytes) bytes plus header and footer, marked allocated and
      not listed; NULL when the arena cannot grow that far. */
  function ExtendStep(hi: int, h: Heap, bytes: nat): (step: (Heap, int))
  {
    var size := AdjustedSize(bytes);
    if h.brk + size + ALIGNMENT > hi then (h, NULL)
    else (Heap(h.blocks + [Block(h.brk, size, true)], h.free, h.brk + size + ALIGNMENT), h.brk)
  }

  /** find_fit(asize) (mm.c:212-238): place the request in the first listed
      block that is large enough, or extend the heap. */
  function FitStep(hi: int, h: Heap, asize: int): (step: (Heap, int))
    requires 0 <= asize
  {
    var k := FirstFit(ListSizes(h.blocks, h.free), asize);
    if k < |h.free| && IndexOf(h.blocks, h.free[k]) < |h.blocks| then
      var i := IndexOf(h.blocks, h.free[k]);
      (Heap(Placed(h.blocks, i, asize), PlacedFree(h.blocks, h.free, i, asize), h.brk), h.free[k])
    else
      ExtendStep(hi, h, asize)
  }

  /** malloc(n) (mm.c:269-278). */
  function MallocStep(hi: int, h: Heap, n: SizeT): (step: (Heap, int))
  {
    if n == 0 then (h, NULL) else FitStep(hi, h, AdjustedSize(n))
  }

  /** malloc(n) with the source's wrapping ALIGN (mm.c:45, mm.c:275): a
      request within 7 bytes of 2^64 asks find_fit for 16 bytes.  The
      extend_heap it falls back on is the corrected ExtendStep; the wrap of
      the sbrk increment at mm.c:174 is modelled apart, by ExtendAsWritten. */
  function MallocStepAsWritten(hi: int, h: Heap, n: SizeT): (step: (Heap, int))
  {
    if n == 0 then (h, NULL) else FitStep(hi, h, AdjustedSizeAsWritten(n))
  }

  /** free(p) (mm.c:285-305): nothing for NULL or a block already free;
      otherwise the block is freed and coalesced with free neighbours. */
  function FreeStep(h: Heap, p: int): (h': Heap)
    requires p == NULL || IsBlockAddr(h.blocks, p)
  {
    if p == NULL then h
    else
      var i := IndexOf(h.blocks, p);
      if !h.blocks[i].alloc then h
      else Heap(Coalesced(h.blocks, i), CoalescedFree(h.blocks, h.free, i), h.brk)
  }

  /** p is NULL or the payload of an allocated block: what realloc demands
      of its first argument. */
  ghost predicate Live(h: Heap, p: int)
  {
    p == NULL || exists i :: 0 <= i < |h.blocks| && h.blocks[i].bp == p && h.blocks[i].alloc
  }

  /** What realloc demands of its first argument: for size 0 it is handed
      to free, which accepts NULL and any block, allocated or already free;
      otherwise it must be NULL or a block in use. */
  ghost predicate ReallocArg(h: Heap, p: int, n: int)
  {
    (n == 0 ==> p == NULL || IsBlockAddr(h.blocks, p)) &&
    (n != 0 ==> Live(h, p))
  }

  /** realloc(p, n) (mm.c:313-350), without the copy of the payload. */
  function ReallocStep(lo: int, hi: int, h: Heap, p: int, n: SizeT): (step: (Heap, int))
    requires AbsOk(lo, hi, h) && ReallocArg(h, p, n)
  {
    if n == 0 then
      (FreeStep(h, p), NULL)
    else if p == NULL then MallocStep(hi, h, n)
    else
      var (h1, q) := MallocStep(hi, h, n);
      if q == NULL then (h, NULL)
      else
        LiveAfterMalloc(lo, hi, h, n, p);
        LiveIsBlock(h1, p);
        (FreeStep(h1, p), q)
  }

  // ---------------------------------------------------------------------
  // What the operations promise

  lemma LiveIsBlock(h: Heap, p: int)
    requires Live(h, p)
    ensures p == NULL || IsBlockAddr(h.blocks, p)
  {
  }

  /** In an 8-aligned arena brk is 8-aligned. */
  lemma BrkAligned(lo: int, bs: seq<Block>, brk: int)
    requires Chain(lo, bs, brk) && lo % 8 == 0
    ensures brk % 8 == 0
  {
    if bs != [] {
      PayloadAligned(lo, bs, brk, |bs| - 1);
      assert WellSized(bs[|bs| - 1].size);
    }
  }

  /** In an 8-aligned arena every payload is 8-aligned. */
  lemma PayloadAligned(lo: int, bs: seq<Block>, brk: int, i: int)
    requires Chain(lo, bs, brk) && lo % 8 == 0 && 0 <= i < |bs|
    ensures bs[i].bp % 8 == 0
  {
    ChainAligned(lo, bs, brk, i);
    var q, q0 := (bs[i].bp - lo) / 8, lo / 8;
    assert bs[i].bp == 8 * (q + q0);
  }

  /** Every listed address is the payload of a free block. */
  lemma ListedBlock(lo: int, hi: int, h: Heap, k: int)
    requires AbsOk(lo, hi, h) && 0 <= k < |h.free|
    ensures IndexOf(h.blocks, h.free[k]) < |h.blocks|
    ensures !h.blocks[IndexOf(h.blocks, h.free[k])].alloc
  {
    var x := h.free[k];
    assert x in Elems(h.free);
    FreeAddrsMember(h.blocks, x);
    var j :| 0 <= j < |h.blocks| && h.blocks[j].bp == x && !h.blocks[j].alloc;
    ChainUnique(lo, h.blocks, h.brk, j, IndexOf(h.blocks, x));
  }

  /** extend_heap keeps the heap invariant; on success it returns the old
      brk, 8-aligned, as the payload of a new allocated, unlisted block of
      AdjustedSize(bytes) bytes, and the arena grows by exactly that size
      plus 8; on failure nothing changes. */
  lemma ExtendedOk(lo: int, hi: int, h: Heap, bytes: nat)
    requires AbsOk(lo, hi, h)
    ensures AbsOk(lo, hi, ExtendStep(hi, h, bytes).0)
    ensures ExtendStep(hi, h, bytes).1 == NULL ==> ExtendStep(hi, h, bytes).0 == h
    ensures ExtendStep(hi, h, bytes).1 != NULL ==>
              var (h', r) := ExtendStep(hi, h, bytes);
              r == h.brk && r % 8 == 0 &&
              h'.brk - h.brk == AdjustedSize(bytes) + ALIGNMENT &&
              Total(h'.blocks) == Total(h.blocks) + AdjustedSize(bytes) + ALIGNMENT &&
              h'.blocks[..|h.blocks|] == h.blocks &&
              h'.blocks[|h'.blocks| - 1] == Block(r, AdjustedSize(bytes), true) &&
              h'.free == h.free && r !in h'.free
  {
    var size := AdjustedSize(bytes);
    if h.brk + size + ALIGNMENT <= hi {
      var bs' := h.blocks + [Block(h.brk, size, true)];
      assert ExtendStep(hi, h, bytes) == (Heap(bs', h.free, h.brk + size + ALIGNMENT), h.brk);
      AppendedOk(lo, hi, h, size);
      assert bs'[..|h.blocks|] == h.blocks;
      assert h.brk != NULL;
    }
  }

  /** Appending an allocated block at brk keeps the heap invariant. */
  lemma AppendedOk(lo: int, hi: int, h: Heap, size: int)
    requires AbsOk(lo, hi, h) && size % 8 == 0 && MinBlock <= size && h.brk + size + ALIGNMENT <= hi
    ensures AbsOk(lo, hi, Heap(h.blocks + [Block(h.brk, size, true)], h.free, h.brk + size + ALIGNMENT))
    ensures Total(h.blocks + [Block(h.brk, size, true)]) == Total(h.blocks) + size + ALIGNMENT
    ensures h.brk % 8 == 0 && h.brk !in h.free && FirstBp(lo) <= h.brk
  {
    var bs, b := h.blocks, Block(h.brk, size, true);
    var bs', brk' := bs + [b], h.brk + size + ALIGNMENT;
    BrkAligned(lo, bs, h.brk);
    ChainFirst(lo, bs, h.brk);
    assert WellSized(b.size);
    AppendedChain(lo, bs, h.brk, b);
    forall k | 0 < k < |bs'| ensures NotBothFree(bs', k) {
      if k < |bs| {
        assert NotBothFree(bs, k);
      }
    }
    FreeAddrsConcat(bs, [b]);
    FreeAddrsOne(b);
    ArenaAccounting(lo, bs, h.brk);
    ArenaAccounting(lo, bs', brk');
    FreeAddrsMember(bs, h.brk);
    assert h.brk !in Elems(h.free);
  }

  lemma AppendedChain(lo: int, bs: seq<Block>, brk: int, b: Block)
    requires Chain(lo, bs, brk) && b.bp == brk && WellSized(b.size)
    ensures Chain(lo, bs + [b], End(b))
  {
    var bs' := bs + [b];
    forall k | 0 < k < |bs'| ensures Follows(bs', k) {
      if k < |bs| {
        assert Follows(bs, k);
      }
    }
  }

  /** r is the payload of an allocated block of min to max bytes. */
  ghost predicate AllocatedAt(bs: seq<Block>, r: int, min: int, max: int)
  {
    exists j :: 0 <= j < |bs| && bs[j].bp == r && bs[j].alloc && min <= bs[j].size <= max
  }

  /** find_fit keeps the heap invariant.  It returns the first listed block,
      in list order, whose size is at least asize, placed; when no listed
      block is large enough it returns what extend_heap returns.  A
      non-NULL result is the 8-aligned payload of an allocated, unlisted
      block of asize to asize + 32 bytes; a NULL result leaves the heap as
      it was. */
  lemma FitStepOk(lo: int, hi: int, h: Heap, asize: int)
    requires AbsOk(lo, hi, h) && asize % 8 == 0 && MinBlock <= asize
    ensures AbsOk(lo, hi, FitStep(hi, h, asize).0)
    ensures FirstFit(ListSizes(h.blocks, h.free), asize) < |h.free| ==>
              FitStep(hi, h, asize).1 == h.free[FirstFit(ListSizes(h.blocks, h.free), asize)]
    ensures FirstFit(ListSizes(h.blocks, h.free), asize) == |h.free| ==>
              FitStep(hi, h, asize) == ExtendStep(hi, h, asize)
    ensures FitStep(hi, h, asize).1 == NULL ==> FitStep(hi, h, asize).0 == h
    ensures FitStep(hi, h, asize).1 != NULL ==>
              FitStep(hi, h, asize).1 % 8 == 0 && FitStep(hi, h, asize).1 !in FitStep(hi, h, asize).0.free &&
              AllocatedAt(FitStep(hi, h, asize).0.blocks, FitStep(hi, h, asize).1, asize, asize + 32)
  {
    var k := FirstFit(ListSizes(h.blocks, h.free), asize);
    if k < |h.free| {
      FitPlacedOk(lo, hi, h, asize);
    } else {
      ExtendedOk(lo, hi, h, asize);
      var (h', r) := FitStep(hi, h, asize);
      if r != NULL {
        assert h'.blocks[|h'.blocks| - 1].bp == r;
      }
    }
  }

  lemma FitPlacedOk(lo: int, hi: int, h: Heap, asize: int)
    requires AbsOk(lo, hi, h) && asize % 8 == 0 && MinBlock <= asize
    requires FirstFit(ListSizes(h.blocks, h.free), asize) < |h.free|
    ensures AbsOk(lo, hi, FitStep(hi, h, asize).0)
    ensures FitStep(hi, h, asize).1 == h.free[FirstFit(ListSizes(h.blocks, h.free), asize)] != NULL
    ensures FitStep(hi, h, asize).1 % 8 == 0 && FitStep(hi, h, asize).1 !in FitStep(hi, h, asize).0.free
    ensures AllocatedAt(FitStep(hi, h, asize).0.blocks, FitStep(hi, h, asize).1, asize, asize + 32)
  {
    var sizes := ListSizes(h.blocks, h.free);
    var k := FirstFit(sizes, asize);
    ListedBlock(lo, hi, h, k);
    var i := IndexOf(h.blocks, h.free[k]);
    assert asize <= sizes[k] == h.blocks[i].size;
    var h' := Heap(Placed(h.blocks, i, asize), PlacedFree(h.blocks, h.free, i, asize), h.brk);
    assert FitStep(hi, h, asize) == (h', h.free[k]);
    PlacedOk(lo, hi, h, i, asize);
    PayloadAligned(lo, h.blocks, h.brk, i);
    ChainFirst(lo, h.blocks, h.brk);
    assert h'.blocks[i].bp == h.free[k];
    FreeAddrIff(lo, h'.blocks, h'.brk, i);
    assert h.free[k] !in Elems(h'.free);
  }

  /** What malloc(n) promises of a non-NULL result r: an 8-aligned payload
      of an allocated, unlisted block of at least n bytes, at least 16 and a
      multiple of 8, at most 32 bytes beyond the rounded request. */
  ghost predicate MallocResult(h: Heap, r: int, n: nat)
  {
    r % 8 == 0 && r !in h.free &&
    exists j :: 0 <= j < |h.blocks| && h.blocks[j].bp == r && h.blocks[j].alloc &&
                n <= h.blocks[j].size && h.blocks[j].size % 8 == 0 &&
                MinBlock <= h.blocks[j].size <= AdjustedSize(n) + 32
  }

  /** malloc(0) returns NULL and changes nothing, and so does a malloc that
      fails; malloc keeps the heap invariant and a non-NULL result satisfies
      MallocResult. */
  lemma MallocStepOk(lo: int, hi: int, h: Heap, n: SizeT)
    requires AbsOk(lo, hi, h)
    ensures n == 0 ==> MallocStep(hi, h, n) == (h, NULL)
    ensures MallocStep(hi, h, n).1 == NULL ==> MallocStep(hi, h, n).0 == h
    ensures AbsOk(lo, hi, MallocStep(hi, h, n).0)
    ensures MallocStep(hi, h, n).1 != NULL ==> MallocResult(MallocStep(hi, h, n).0, MallocStep(hi, h, n).1, n)
  {
    if n != 0 {
      FitStepOk(lo, hi, h, AdjustedSize(n));
      var (h', r) := MallocStep(hi, h, n);
      if r != NULL {
        var j :| 0 <= j < |h'.blocks| && h'.blocks[j].bp == r && h'.blocks[j].alloc &&
                 AdjustedSize(n) <= h'.blocks[j].size <= AdjustedSize(n) + 32;
        assert WellSized(h'.blocks[j].size);
        assert MallocResult(h', r, n);
      }
    }
  }

  /** malloc never disturbs an allocated block. */
  lemma MallocKeepsAllocated(lo: int, hi: int, h: Heap, n: SizeT)
    requires AbsOk(lo, hi, h)
    ensures forall j :: 0 <= j < |h.blocks| && h.blocks[j].alloc ==> h.blocks[j] in MallocStep(hi, h, n).0.blocks
  {
    var bs := h.blocks;
    var bs' := MallocStep(hi, h, n).0.blocks;
    if n != 0 {
      var asize := AdjustedSize(n);
      var k := FirstFit(ListSizes(bs, h.free), asize);
      if k < |h.free| {
        ListedBlock(lo, hi, h, k);
        var i := IndexOf(bs, h.free[k]);
        forall j | 0 <= j < |bs| && bs[j].alloc ensures bs[j] in bs' {
          if j < i {
            assert bs[j] == bs[..i][j];
          } else {
            assert bs[j] == bs[i + 1..][j - i - 1];
          }
        }
      } else {
        forall j | 0 <= j < |bs| && bs[j].alloc ensures bs[j] in bs' {
          assert bs' == bs || bs'[j] == bs[j];
        }
      }
    }
  }

  lemma LiveAfterMalloc(lo: int, hi: int, h: Heap, n: SizeT, p: int)
    requires AbsOk(lo, hi, h) && Live(h, p)
    ensures Live(MallocStep(hi, h, n).0, p)
  {
    if p != NULL {
      var i :| 0 <= i < |h.blocks| && h.blocks[i].bp == p && h.blocks[i].alloc;
      MallocKeepsAllocated(lo, hi, h, n);
      var bs' := MallocStep(hi, h, n).0.blocks;
      var j :| 0 <= j < |bs'| && bs'[j] == h.blocks[i];
    }
  }

  /** free(NULL) and free of a block that is already free change nothing.
      Otherwise free keeps the heap invariant and the arena accounting, p is
      no longer the payload of an allocated block, and the list gains one
      entry less than one per absorbed neighbour. */
  lemma FreeStepOk(lo: int, hi: int, h: Heap, p: int)
    requires AbsOk(lo, hi, h) && (p == NULL || IsBlockAddr(h.blocks, p))
    ensures AbsOk(lo, hi, FreeStep(h, p))
    ensures !Live(h, p) || p == NULL ==> FreeStep(h, p) == h
    ensures p != NULL && Live(h, p) ==>
              var i := IndexOf(h.blocks, p);
              !Live(FreeStep(h, p), p) &&
              FreeStep(h, p).brk == h.brk && Total(FreeStep(h, p).blocks) == Total(h.blocks) &&
              |FreeStep(h, p).free| == |h.free| + 1 - Merges(h.blocks, i)
  {
    if p != NULL {
      var i := IndexOf(h.blocks, p);
      if Live(h, p) {
        var j :| 0 <= j < |h.blocks| && h.blocks[j].bp == p && h.blocks[j].alloc;
        ChainUnique(lo, h.blocks, h.brk, i, j);
        CoalescedOk(lo, hi, h, i);
        FreedNotLive(lo, hi, h, i);
      } else {
        assert !h.blocks[i].alloc;
      }
    }
  }

  /** After freeing block i, no allocated block starts where it did. */
  lemma FreedNotLive(lo: int, hi: int, h: Heap, i: int)
    requires AbsOk(lo, hi, h) && 0 <= i < |h.blocks| && h.blocks[i].alloc
    ensures !Live(Heap(Coalesced(h.blocks, i), CoalescedFree(h.blocks, h.free, i), h.brk), h.blocks[i].bp)
  {
    var bs := h.blocks;
    CoalescedIsMerge(lo, bs, h.brk, i);
    ChainBounds(lo, bs, h.brk, i);
    var j, k := MergeFirst(bs, i), MergeLast(bs, i);
    var bs' := Coalesced(bs, i);
    forall m | 0 <= m < |bs'| && bs'[m].alloc ensures bs'[m].bp != bs[i].bp {
      if m < j {
        assert bs'[m] == bs[m];
        ChainOrdered(lo, bs, h.brk, m, i);
      } else if m > j {
        assert bs'[m] == bs[m - j + k];
        ChainOrdered(lo, bs, h.brk, i, m - j + k);
      }
    }
  }

  /** free never disturbs an allocated block other than p's. */
  lemma FreeKeepsAllocated(lo: int, hi: int, h: Heap, p: int)
    requires AbsOk(lo, hi, h) && (p == NULL || IsBlockAddr(h.blocks, p))
    ensures forall m :: 0 <= m < |h.blocks| && h.blocks[m].alloc && h.blocks[m].bp != p ==>
              h.blocks[m] in FreeStep(h, p).blocks
  {
    var bs := h.blocks;
    if p != NULL && bs[IndexOf(bs, p)].alloc {
      var i := IndexOf(bs, p);
      CoalescedIsMerge(lo, bs, h.brk, i);
      var j, k := MergeFirst(bs, i), MergeLast(bs, i);
      forall m | 0 <= m < |bs| && bs[m].alloc && bs[m].bp != p ensures bs[m] in FreeStep(h, p).blocks {
        if m < j {
          assert bs[m] == bs[..j][m];
        } else {
          assert m > k;
          assert bs[m] == bs[k + 1..][m - k - 1];
        }
      }
    }
  }

  /** malloc never hands out a payload that is already in use. */
  lemma MallocFresh(lo: int, hi: int, h: Heap, n: SizeT)
    requires AbsOk(lo, hi, h)
    ensures MallocStep(hi, h, n).1 != NULL ==> !Live(h, MallocStep(hi, h, n).1)
  {
    if n != 0 {
      var asize := AdjustedSize(n);
      var k := FirstFit(ListSizes(h.blocks, h.free), asize);
      var r := MallocStep(hi, h, n).1;
      if k < |h.free| {
        ListedBlock(lo, hi, h, k);
        var i := IndexOf(h.blocks, h.free[k]);
        if j :| 0 <= j < |h.blocks| && h.blocks[j].bp == r && h.blocks[j].alloc {
          ChainUnique(lo, h.blocks, h.brk, i, j);
        }
      } else {
        ChainFirst(lo, h.blocks, h.brk);
      }
    }
  }

  /** realloc(p, 0) frees p and returns NULL; realloc(NULL, n) is
      malloc(n); when malloc fails the heap, and with it p's block, is left
      as it was, and so is it by realloc(p, 0) when p is NULL or already
      free.  Otherwise the result satisfies MallocResult for n and p is no
      longer the payload of an allocated block.  The heap invariant holds
      throughout. */
  lemma ReallocStepOk(lo: int, hi: int, h: Heap, p: int, n: SizeT)
    requires AbsOk(lo, hi, h) && ReallocArg(h, p, n)
    ensures AbsOk(lo, hi, ReallocStep(lo, hi, h, p, n).0)
    ensures n == 0 ==> ReallocStep(lo, hi, h, p, n).1 == NULL
    ensures n == 0 && !Live(h, p) ==> ReallocStep(lo, hi, h, p, n).0 == h
    ensures n == 0 && p == NULL ==> ReallocStep(lo, hi, h, p, n).0 == h
    ensures n == 0 && p != NULL ==> !Live(ReallocStep(lo, hi, h, p, n).0, p)
    ensures n != 0 && p == NULL ==> ReallocStep(lo, hi, h, p, n) == MallocStep(hi, h, n)
    ensures n != 0 && p != NULL && MallocStep(hi, h, n).1 == NULL ==> ReallocStep(lo, hi, h, p, n) == (h, NULL)
    ensures n != 0 && p != NULL && MallocStep(hi, h, n).1 != NULL ==>
              ReallocStep(lo, hi, h, p, n).1 == MallocStep(hi, h, n).1 &&
              MallocResult(ReallocStep(lo, hi, h, p, n).0, MallocStep(hi, h, n).1, n) &&
              !Live(ReallocStep(lo, hi, h, p, n).0, p)
  {
    if n == 0 {
      FreeStepOk(lo, hi, h, p);
    } else if p == NULL {
      MallocStepOk(lo, hi, h, n);
    } else {
      LiveIsBlock(h, p);
      MallocStepOk(lo, hi, h, n);
      var (h1, q) := MallocStep(hi, h, n);
      if q != NULL {
        LiveAfterMalloc(lo, hi, h, n, p);
        LiveIsBlock(h1, p);
        FreeStepOk(lo, hi, h1, p);
        MallocFresh(lo, hi, h, n);
        FreeKeepsAllocated(lo, hi, h1, p);
        var h2 := FreeStep(h1, p);
        var j :| 0 <= j < |h1.blocks| && h1.blocks[j].bp == q && h1.blocks[j].alloc &&
                 n <= h1.blocks[j].size && h1.blocks[j].size % 8 == 0 &&
                 MinBlock <= h1.blocks[j].size <= AdjustedSize(n) + 32;
        assert h1.blocks[j] in h2.blocks;
        var m :| 0 <= m < |h2.blocks| && h2.blocks[m] == h1.blocks[j];
        FreeAddrIff(lo, h2.blocks, h2.brk, m);
        assert q !in Elems(h2.free);
      }
    }
  }

  // ---------------------------------------------------------------------
  // calloc (mm.c:355-364)

  /** calloc(nmemb, size) with the product checked: NULL, with nothing
      changed, when nmemb * size does not fit in `size_t`; otherwise malloc
      of the product. */
  function CallocStep(hi: int, h: Heap, nmemb: SizeT, size: SizeT): (step: (Heap, int))
  {
    var bytes := nmemb * size;
    if 0 <= bytes < SizeLimit then MallocStep(hi, h, bytes) else (h, NULL)
  }

  /** calloc(nmemb, size) as the source computes it: the product is taken
      on `size_t` and wraps. */
  function CallocStepAsWritten(hi: int, h: Heap, nmemb: SizeT, size: SizeT): (step: (Heap, int))
  {
    MallocStep(hi, h, (nmemb * size) % SizeLimit)
  }

  /** calloc keeps the heap invariant; a non-NULL result is the payload of
      an allocated, unlisted block that holds all nmemb * size bytes; an
      overflowing product and a failed malloc change nothing. */
  lemma CallocStepOk(lo: int, hi: int, h: Heap, nmemb: SizeT, size: SizeT)
    requires AbsOk(lo, hi, h)
    ensures AbsOk(lo, hi, CallocStep(hi, h, nmemb, size).0)
    ensures CallocStep(hi, h, nmemb, size).1 != NULL ==>
              MallocResult(CallocStep(hi, h, nmemb, size).0, CallocStep(hi, h, nmemb, size).1, nmemb * size)
    ensures CallocStep(hi, h, nmemb, size).1 == NULL ==> CallocStep(hi, h, nmemb, size).0 == h
  {
    if 0 <= nmemb * size < SizeLimit {
      MallocStepOk(lo, hi, h, nmemb * size);
    }
  }

  /** With the wrapping product, calloc(2^63 + 1, 2) asks malloc for 2
      bytes: a non-NULL result is a block of at most 48 bytes where
      2^64 + 2 were requested.  The checked product refuses the request. */
  lemma CallocProductWraps(lo: int, hi: int, h: Heap)
    requires AbsOk(lo, hi, h)
    ensures var (h', r) := CallocStepAsWritten(hi, h, 0x8000_0000_0000_0001, 2);
            r != NULL ==> AllocatedAt(h'.blocks, r, MinBlock, 48) && 48 < 0x8000_0000_0000_0001 * 2
    ensures CallocStep(hi, h, 0x8000_0000_0000_0001, 2) == (h, NULL)
  {
    assert (0x8000_0000_0000_0001 * 2) % SizeLimit == 2;
    MallocStepOk(lo, hi, h, 2);
  }

  // ---------------------------------------------------------------------
  // ALIGN near the top of size_t (mm.c:45, mm.c:275-277)

  /** Below the wrap point of ALIGN, malloc with the wrapping ALIGN and
      malloc with the corrected rounding are the same step. */
  lemma MallocAsWrittenAgrees(hi: int, h: Heap, n: SizeT)
    requires n <= SizeLimit - ALIGNMENT
    ensures MallocStepAsWritten(hi, h, n) == MallocStep(hi, h, n)
  {
    AlignAsWrittenAgrees(n);
  }

  /** On a fresh heap with room for one 16-byte block, malloc(2^64 - 1) as
      written succeeds with a 16-byte block at the first payload; with the
      corrected rounding the request cannot fit the arena and malloc
      returns NULL, changing nothing. */
  lemma MallocWrapsNearLimit(lo: int, hi: int)
    requires ArenaOk(lo, hi) && FirstBp(lo) + MinBlock + ALIGNMENT <= hi
    ensures MallocStepAsWritten(hi, InitHeap(lo), SizeLimit - 1) ==
              (Heap([Block(FirstBp(lo), MinBlock, true)], [], FirstBp(lo) + MinBlock + ALIGNMENT), FirstBp(lo))
    ensures MallocStep(hi, InitHeap(lo), SizeLimit - 1) == (InitHeap(lo), NULL)
  {
    MaxRequestGetsMinBlock();
    assert ListSizes([], []) == [];
    assert AdjustedSize(MinBlock) == MinBlock;
    assert [] + [Block(FirstBp(lo), MinBlock, true)] == [Block(FirstBp(lo), MinBlock, true)];
  }

  // ---------------------------------------------------------------------
  // The sbrk increment near the top of size_t (mm.c:166-178)

  /** What extend_heap does to the arena: the new break, the returned
      payload, the size its header and footer hold, and where the footer is
      written. */
  datatype Extension = Extension(brk: int, bp: int, tagSize: int, footer: int)

  /** extend_heap(bytes) as the source computes it: `size + 8` is handed to
      mem_sbrk as a `size_t`, so it wraps, and updateHF takes the size as an
      `unsigned int`, so the tags hold it modulo 2^32 and the footer goes
      that far past the payload.  NULL when mem_sbrk fails. */
  function ExtendAsWritten(hi: int, brk: int, bytes: SizeT): (e: Extension)
  {
    var size := AdjustedSizeAsWritten(bytes);
    var incr := (size + ALIGNMENT) % SizeLimit;
    if brk + incr > hi then Extension(brk, NULL, 0, NULL)
    else Extension(brk + incr, brk, size % WordLimit, brk + size % WordLimit)
  }

  /** A request of 2^64 - 15 to 2^64 - 8 bytes is rounded to 2^64 - 8, which
      no listed block holds, so find_fit calls extend_heap.  As written,
      mem_sbrk is asked for 0 bytes and succeeds: extend_heap returns the old
      break, unmoved, as a block whose tags say 2^32 - 8 bytes and whose
      footer lies past the arena.  With the corrected step malloc returns
      NULL and changes nothing. */
  lemma ExtendWrapsNearLimit(lo: int, hi: int, h: Heap, n: SizeT)
    requires AbsOk(lo, hi, h) && SizeLimit - 15 <= n <= SizeLimit - ALIGNMENT
    ensures AdjustedSizeAsWritten(n) == AdjustedSize(n) == SizeLimit - ALIGNMENT
    ensures FirstFit(ListSizes(h.blocks, h.free), SizeLimit - ALIGNMENT) == |h.free|
    ensures ExtendAsWritten(hi, h.brk, SizeLimit - ALIGNMENT) ==
              Extension(h.brk, h.brk, WordLimit - ALIGNMENT, h.brk + WordLimit - ALIGNMENT)
    ensures h.brk != NULL && h.brk + WordLimit - ALIGNMENT > hi
    ensures MallocStep(hi, h, n) == (h, NULL)
  {
    AlignAsWrittenAgrees(n);
    AlignAsWrittenAgrees(SizeLimit - ALIGNMENT);
    var sizes := ListSizes(h.blocks, h.free);
    forall k | 0 <= k < |h.free| ensures sizes[k] < WordLimit {
      ListedBlock(lo, hi, h, k);
      assert WellSized(h.blocks[IndexOf(h.blocks, h.free[k])].size);
    }
    ChainFirst(lo, h.blocks, h.brk);
  }
}
