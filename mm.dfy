/**
 * The allocator of mm.c as a class over the arena's words.
 *
 * The arena [lo, brk) holds two kinds of words: 4-byte tags written with
 * PUT (padding, prologue and epilogue tags, block headers and footers) and
 * 8-byte link words written with PUTPTR (the `prev` and `next` fields of
 * the sentinel and of listed blocks).  They live in two maps, `tags` and
 * `links`.  LiveWordsApart proves that in a well-formed heap the bytes of
 * every tag word the heap keeps and of every link word it keeps are
 * disjoint, which is what makes two maps a faithful picture of one arena
 * between calls.
 *
 * The ghost fields `blocks` and `freeList` name the abstract heap the words
 * encode; every public operation is proved to move the abstract heap as the
 * corresponding function of AbstractHeap does.
 */
module Mm {
  import opened Codec
  import opened FreeList
  import opened Layout
  import opened AbstractHeap

  /** Block b's header and footer hold PACK(size, alloc). */
  ghost predicate TagOk(tags: map<int, int>, b: Block)
  {
    b.size % 8 == 0 &&
    Hdbp(b.bp) in tags && tags[Hdbp(b.bp)] == Pack(b.size, Bit(b.alloc)) &&
    Ftbp(b.bp, b.size) in tags && tags[Ftbp(b.bp, b.size)] == Pack(b.size, Bit(b.alloc))
  }

  /** The tag words of a heap whose blocks are bs and whose top is brk: the
      padding word, the prologue header and footer, every block's header and
      footer, and the epilogue header just below brk (mm.c:249-254). */
  ghost predicate TagsOk(lo: int, tags: map<int, int>, brk: int, bs: seq<Block>)
  {
    lo in tags && tags[lo] == 0 &&
    lo + WSIZE in tags && tags[lo + WSIZE] == Pack(2 * ALIGNMENT, 1) &&
    lo + 3 * ALIGNMENT in tags && tags[lo + 3 * ALIGNMENT] == Pack(2 * ALIGNMENT, 1) &&
    brk - WSIZE in tags && tags[brk - WSIZE] == Pack(0, 1) &&
    forall i :: 0 <= i < |bs| ==> TagOk(tags, bs[i])
  }

  /** tags' agrees with tags on every word outside [from, to]. */
  ghost predicate SameOutside(tags: map<int, int>, tags': map<int, int>, from: int, to: int)
  {
    forall x :: x in tags && (x < from || to < x) ==> x in tags' && tags'[x] == tags[x]
  }

  /** Rewriting the tags of a run of blocks, and nothing outside its bytes,
      keeps the tags of the whole heap right. */
  lemma TagsSplice(lo: int, tags: map<int, int>, tags': map<int, int>, brk: int,
                   bs: seq<Block>, a: int, b: int, mid: seq<Block>)
    requires Chain(lo, bs, brk) && TagsOk(lo, tags, brk, bs) && 0 <= a < b <= |bs|
    requires Tiles(mid, bs[a].bp, End(bs[b - 1]))
    requires SameOutside(tags, tags', Hdbp(bs[a].bp), End(bs[b - 1]) - ALIGNMENT)
    requires forall j :: 0 <= j < |mid| ==> TagOk(tags', mid[j])
    ensures TagsOk(lo, tags', brk, Splice(bs, a, b, mid))
  {
    var r := Splice(bs, a, b, mid);
    var m := a + |mid|;
    ChainBounds(lo, bs, brk, a);
    ChainBounds(lo, bs, brk, b - 1);
    forall k | 0 <= k < |r| ensures TagOk(tags', r[k]) {
      if k < a {
        assert r[k] == bs[k] && TagOk(tags, bs[k]) && WellSized(bs[k].size);
        ChainOrdered(lo, bs, brk, k, a);
      } else if k < m {
        assert r[k] == mid[k - a];
      } else {
        var k0 := k - m + b;
        assert r[k] == bs[k0] && TagOk(tags, bs[k0]) && WellSized(bs[k0].size);
        ChainOrdered(lo, bs, brk, b - 1, k0);
      }
    }
  }

  /** Block i's header holds its size and allocated bit. */
  lemma HeaderTag(lo: int, tags: map<int, int>, brk: int, bs: seq<Block>, i: int)
    requires TagsOk(lo, tags, brk, bs) && 0 <= i < |bs|
    ensures Hdbp(bs[i].bp) in tags
    ensures GetSize(tags[Hdbp(bs[i].bp)]) == bs[i].size
    ensures GetAlloc(tags[Hdbp(bs[i].bp)]) == Bit(bs[i].alloc)
  {
    assert TagOk(tags, bs[i]);
    PackRoundTrip(bs[i].size, Bit(bs[i].alloc));
  }

  /** The word right before block i's header is the footer of block i - 1,
      or the prologue footer for the first block (PREV_ALLOC, PREV_SIZE). */
  lemma PrevTag(lo: int, tags: map<int, int>, brk: int, bs: seq<Block>, i: int)
    requires Chain(lo, bs, brk) && TagsOk(lo, tags, brk, bs) && 0 <= i < |bs|
    ensures bs[i].bp - ALIGNMENT in tags
    ensures GetAlloc(tags[bs[i].bp - ALIGNMENT]) == if i == 0 then 1 else Bit(bs[i - 1].alloc)
    ensures 0 < i ==> GetSize(tags[bs[i].bp - ALIGNMENT]) == bs[i - 1].size
  {
    if i == 0 {
      PackRoundTrip(2 * ALIGNMENT, 1);
    } else {
      assert Follows(bs, i) && TagOk(tags, bs[i - 1]);
      PackRoundTrip(bs[i - 1].size, Bit(bs[i - 1].alloc));
    }
  }

  lemma EpilogueTag(tags: map<int, int>, brk: int)
    requires brk - WSIZE in tags && tags[brk - WSIZE] == Pack(0, 1)
    ensures GetAlloc(tags[brk - WSIZE]) == 1
  {
    PackRoundTrip(0, 1);
  }

  /** The word right after block i's footer is the header of block i + 1,
      or the epilogue for the last block (NEXT_ALLOC, NEXT_SIZE). */
  lemma NextTag(lo: int, tags: map<int, int>, brk: int, bs: seq<Block>, i: int)
    requires Chain(lo, bs, brk) && TagsOk(lo, tags, brk, bs) && 0 <= i < |bs|
    ensures End(bs[i]) - WSIZE in tags
    ensures GetAlloc(tags[End(bs[i]) - WSIZE]) == if i == |bs| - 1 then 1 else Bit(bs[i + 1].alloc)
    ensures i + 1 < |bs| ==> GetSize(tags[End(bs[i]) - WSIZE]) == bs[i + 1].size
  {
    if i == |bs| - 1 {
      assert End(bs[i]) == brk;
      EpilogueTag(tags, brk);
    } else {
      assert Follows(bs, i + 1);
      assert End(bs[i]) - WSIZE == Hdbp(bs[i + 1].bp);
      HeaderTag(lo, tags, brk, bs, i + 1);
    }
  }

  /** The listed blocks of a heap satisfying the invariant are spaced as
      the link words need. */
  lemma ListSpaced(lo: int, hi: int, h: Heap)
    requires AbsOk(lo, hi, h)
    ensures Spaced(Sentinel(lo), h.free)
  {
    forall k | 0 <= k < |h.free| ensures Sentinel(lo) + MinBlock <= h.free[k] {
      ListedBlock(lo, hi, h, k);
      ChainBounds(lo, h.blocks, h.brk, IndexOf(h.blocks, h.free[k]));
    }
    forall j, k | 0 <= j < k < |h.free| ensures Apart(h.free[j], h.free[k]) {
      ListedBlock(lo, hi, h, j);
      ListedBlock(lo, hi, h, k);
      var a, b := IndexOf(h.blocks, h.free[j]), IndexOf(h.blocks, h.free[k]);
      assert h.free[j] != h.free[k];
      assert WellSized(h.blocks[a].size) && WellSized(h.blocks[b].size);
      if a < b {
        ChainOrdered(lo, h.blocks, h.brk, a, b);
      } else if b < a {
        ChainOrdered(lo, h.blocks, h.brk, b, a);
      }
    }
  }

  /** The header of every listed block holds its size. */
  lemma ListedTags(lo: int, hi: int, h: Heap, tags: map<int, int>)
    requires AbsOk(lo, hi, h) && TagsOk(lo, tags, h.brk, h.blocks)
    ensures forall k :: 0 <= k < |h.free| ==>
              Hdbp(h.free[k]) in tags && GetSize(tags[Hdbp(h.free[k])]) == ListSizes(h.blocks, h.free)[k]
  {
    forall k | 0 <= k < |h.free|
      ensures Hdbp(h.free[k]) in tags && GetSize(tags[Hdbp(h.free[k])]) == ListSizes(h.blocks, h.free)[k]
    {
      ListedBlock(lo, hi, h, k);
      var i := IndexOf(h.blocks, h.free[k]);
      assert TagOk(tags, h.blocks[i]);
      PackRoundTrip(h.blocks[i].size, Bit(h.blocks[i].alloc));
    }
  }

  /** extend_heap's three writes over the old epilogue: the new block's
      header and footer, and a new epilogue after it (mm.c:176-178). */
  function AppendTags(tags: map<int, int>, brk: int, size: int): (tags': map<int, int>)
    requires size % 8 == 0 && 0 <= size
  {
    tags[Hdbp(brk) := Pack(size, 1)][Ftbp(brk, size) := Pack(size, 1)][Ftbp(brk, size) + WSIZE := Pack(0, 1)]
  }

  lemma TagsAppend(lo: int, tags: map<int, int>, brk: int, bs: seq<Block>, size: int)
    requires Chain(lo, bs, brk) && TagsOk(lo, tags, brk, bs) && size % 8 == 0 && 0 <= size
    ensures TagsOk(lo, AppendTags(tags, brk, size), NextBp(brk, size), bs + [Block(brk, size, true)])
  {
    var tags' := AppendTags(tags, brk, size);
    var bs' := bs + [Block(brk, size, true)];
    ChainFirst(lo, bs, brk);
    forall k | 0 <= k < |bs'| ensures TagOk(tags', bs'[k]) {
      if k < |bs| {
        assert bs'[k] == bs[k] && TagOk(tags, bs[k]);
        ChainBounds(lo, bs, brk, k);
      }
    }
  }

  /** The break of a valid heap is past the prologue, so never -1 or NULL. */
  lemma BrkPastPrologue(lo: int, hi: int, h: Heap)
    requires AbsOk(lo, hi, h)
    ensures 0 < lo < FirstBp(lo) <= h.brk <= hi
  {
    ChainFirst(lo, h.blocks, h.brk);
  }

  /** When mem_sbrk cannot grow the arena, extend_heap changes nothing. */
  lemma ExtendFails(hi: int, h: Heap, bytes: nat)
    requires hi < h.brk + AdjustedSize(bytes) + ALIGNMENT
    ensures ExtendStep(hi, h, bytes) == (h, NULL)
  {
  }

  /** extend_heap's writes after a successful mem_sbrk keep the invariant:
      the state they leave is that of ExtendStep. */
  lemma ExtendInv(lo: int, hi: int, h: Heap, tags: map<int, int>, links: map<int, int>, s: int, bytes: nat,
                  h': Heap, tags': map<int, int>)
    requires Inv(lo, hi, h, tags, links, s)
    requires h.brk + AdjustedSize(bytes) + ALIGNMENT <= hi
    requires h' == Heap(h.blocks + [Block(h.brk, AdjustedSize(bytes), true)], h.free, h.brk + AdjustedSize(bytes) + ALIGNMENT)
    requires tags' == AppendTags(tags, h.brk, AdjustedSize(bytes))
    ensures ExtendStep(hi, h, bytes) == (h', h.brk)
    ensures Inv(lo, hi, h', tags', links, s)
  {
    ChainFirst(lo, h.blocks, h.brk);
    ExtendedOk(lo, hi, h, bytes);
    TagsAppend(lo, tags, h.brk, h.blocks, AdjustedSize(bytes));
  }

  /** place's four writes when it splits a free block of bsize bytes at bp
      for a request of asize bytes (mm.c:195-199): the remainder's footer,
      the front part's header and footer, the remainder's header. */
  function SplitTags(tags: map<int, int>, bp: int, bsize: int, asize: int): (tags': map<int, int>)
    requires asize % 8 == 0 && bsize % 8 == 0 && asize + ALIGNMENT <= bsize
  {
    var rest := bsize - asize - ALIGNMENT;
    tags[Ftbp(bp, bsize) := Pack(rest, 0)][Hdbp(bp) := Pack(asize, 1)]
        [bp + asize := Pack(asize, 1)][Hdbp(NextBp(bp, asize)) := Pack(rest, 0)]
  }

  /** updateHF's two writes. */
  function HFTags(tags: map<int, int>, bp: int, size: int, alloc: int): (tags': map<int, int>)
    requires size % 8 == 0 && 0 <= alloc <= 1
  {
    tags[Hdbp(bp) := Pack(size, alloc)][Ftbp(bp, size) := Pack(size, alloc)]
  }

  /** extend_heap's writes: updateHF, then the epilogue right after the
      footer that the new header names. */
  lemma ExtendTags(tags: map<int, int>, bp: int, size: int)
    requires size % 8 == 0 && 0 <= size
    ensures var t := HFTags(tags, bp, size, 1);
            Hdbp(bp) in t && GetSize(t[Hdbp(bp)]) == size &&
            t[Ftbp(bp, GetSize(t[Hdbp(bp)])) + WSIZE := Pack(0, 1)] == AppendTags(tags, bp, size)
  {
    PackRoundTrip(size, 1);
  }

  /** place's writes when it splits block i leave the tags of the placed
      heap right. */
  lemma PlaceSplitTags(lo: int, tags: map<int, int>, brk: int, bs: seq<Block>, i: int, asize: int)
    requires Chain(lo, bs, brk) && TagsOk(lo, tags, brk, bs) && 0 <= i < |bs|
    requires asize % 8 == 0 && MinBlock <= asize && Splits(bs[i].size, asize)
    ensures bs[i].size % 8 == 0
    ensures TagsOk(lo, SplitTags(tags, bs[i].bp, bs[i].size, asize), brk, Placed(bs, i, asize))
  {
    var b := bs[i];
    assert TagOk(tags, b) && WellSized(b.size);
    var mid := SplitParts(b, asize);
    var tags' := SplitTags(tags, b.bp, b.size, asize);
    SplitPartsTile(b, asize);
    assert TagOk(tags', mid[0]) && TagOk(tags', mid[1]);
    TagsSplice(lo, tags, tags', brk, bs, i, i + 1, mid);
  }

  /** place's writes when it allocates block i whole leave the tags of the
      placed heap right. */
  lemma PlaceWholeTags(lo: int, tags: map<int, int>, brk: int, bs: seq<Block>, i: int, asize: int)
    requires Chain(lo, bs, brk) && TagsOk(lo, tags, brk, bs) && 0 <= i < |bs|
    requires !Splits(bs[i].size, asize)
    ensures bs[i].size % 8 == 0
    ensures TagsOk(lo, HFTags(tags, bs[i].bp, bs[i].size, 1), brk, Placed(bs, i, asize))
  {
    var b := bs[i];
    assert TagOk(tags, b);
    var mid := [Block(b.bp, b.size, true)];
    assert Tiles(mid, b.bp, End(b));
    TagsSplice(lo, tags, HFTags(tags, b.bp, b.size, 1), brk, bs, i, i + 1, mid);
  }

  /** mm_init's writes leave a valid heap without blocks: the padding
      word, the prologue tags, the sentinel pointing at itself and the
      epilogue at lo + 28. */
  lemma InitInv(lo: int, hi: int, h: Heap, tags: map<int, int>, links: map<int, int>, s: int)
    requires ArenaOk(lo, hi) && FirstBp(lo) <= hi && h == InitHeap(lo) && s == Sentinel(lo)
    requires lo in tags && tags[lo] == 0
    requires lo + WSIZE in tags && tags[lo + WSIZE] == Pack(2 * ALIGNMENT, 1)
    requires lo + 3 * ALIGNMENT in tags && tags[lo + 3 * ALIGNMENT] == Pack(2 * ALIGNMENT, 1)
    requires FirstBp(lo) - WSIZE in tags && tags[FirstBp(lo) - WSIZE] == Pack(0, 1)
    requires s + ALIGNMENT in links && links[s + ALIGNMENT] == s
    ensures Inv(lo, hi, h, tags, links, s)
  {
    assert FreeAddrs([]) == {};
  }

  /** What find_fit reads before it searches: the sentinel's `next` is the
      sentinel itself exactly when the list is empty, the headers of the
      listed blocks hold their sizes, and the outcome of FitStep is either
      place on the first fit or extend_heap. */
  lemma FitPrep(lo: int, hi: int, h: Heap, tags: map<int, int>, links: map<int, int>, asize: int)
    requires Inv(lo, hi, h, tags, links, Sentinel(lo)) && asize % 8 == 0 && MinBlock <= asize
    ensures Sentinel(lo) + ALIGNMENT in links && Hdbp(Sentinel(lo)) in tags
    ensures links[Sentinel(lo) + ALIGNMENT] == Sentinel(lo) <==> h.free == []
    ensures Sentinel(lo) !in h.free
    ensures forall k :: 0 <= k < |h.free| ==>
              Hdbp(h.free[k]) in tags && GetSize(tags[Hdbp(h.free[k])]) == ListSizes(h.blocks, h.free)[k]
    ensures var k := FirstFit(ListSizes(h.blocks, h.free), asize);
            k < |h.free| ==>
              var i := IndexOf(h.blocks, h.free[k]);
              i < |h.blocks| && h.blocks[i].bp == h.free[k] && !h.blocks[i].alloc && asize <= h.blocks[i].size &&
              FitStep(hi, h, asize) == (PlacedHeap(h, i, asize), h.free[k])
    ensures FirstFit(ListSizes(h.blocks, h.free), asize) == |h.free| ==> FitStep(hi, h, asize) == ExtendStep(hi, h, asize)
  {
    var s, sizes := Sentinel(lo), ListSizes(h.blocks, h.free);
    ListedTags(lo, hi, h, tags);
    if h.free != [] {
      assert s + MinBlock <= h.free[0];
    }
    var k := FirstFit(sizes, asize);
    if k < |h.free| {
      ListedBlock(lo, hi, h, k);
    }
  }

  /** Tags that agree outside the bytes of the run a free merges, and give
      the merged block its header and footer, are the tags of the coalesced
      heap. */
  lemma CoalescedTags(lo: int, hi: int, h: Heap, tags: map<int, int>, tags': map<int, int>, i: int)
    requires ArenaOk(lo, hi) && Chain(lo, h.blocks, h.brk) && h.brk <= hi &&
             TagsOk(lo, tags, h.brk, h.blocks) && 0 <= i < |h.blocks|
    requires var j, k := MergeFirst(h.blocks, i), MergeLast(h.blocks, i);
             SameOutside(tags, tags', Hdbp(h.blocks[j].bp), End(h.blocks[k]) - ALIGNMENT) &&
             TagOk(tags', Merged(h.blocks, j, k))
    ensures TagsOk(lo, tags', h.brk, Coalesced(h.blocks, i))
  {
    var j, k := MergeFirst(h.blocks, i), MergeLast(h.blocks, i);
    CoalescedIsMerge(lo, h.blocks, h.brk, i);
    MergedTiles(lo, hi, h.blocks, h.brk, j, k);
    TagsSplice(lo, tags, tags', h.brk, h.blocks, j, k + 1, [Merged(h.blocks, j, k)]);
  }

  /** What free reads of block i before it writes: its header. */
  lemma FreePrep(lo: int, hi: int, h: Heap, tags: map<int, int>, i: int)
    requires AbsOk(lo, hi, h) && TagsOk(lo, tags, h.brk, h.blocks) && 0 <= i < |h.blocks|
    ensures var b := h.blocks[i];
            Hdbp(b.bp) in tags && GetSize(tags[Hdbp(b.bp)]) == b.size &&
            (GetAlloc(tags[Hdbp(b.bp)]) == 0 <==> !b.alloc) &&
            b.size % 8 == 0 && 0 <= b.size < WordLimit
  {
    HeaderTag(lo, tags, h.brk, h.blocks, i);
    assert WellSized(h.blocks[i].size);
  }

  /** What coalesce reads after free has cleared block i's allocated bit:
      the words on either side of the block tell whether its neighbours are
      free and how large they are. */
  lemma CoalescePrep(lo: int, hi: int, h: Heap, tags: map<int, int>, i: int)
    requires Chain(lo, h.blocks, h.brk) && TagsOk(lo, tags, h.brk, h.blocks) && 0 <= i < |h.blocks|
    ensures h.blocks[i].size % 8 == 0 && 0 <= h.blocks[i].size
    ensures var b, t := h.blocks[i], HFTags(tags, h.blocks[i].bp, h.blocks[i].size, 0);
            Hdbp(b.bp) in t && GetSize(t[Hdbp(b.bp)]) == b.size &&
            Hdbp(b.bp) - WSIZE in t && (GetAlloc(t[Hdbp(b.bp) - WSIZE]) != 0 <==> !PrevFree(h.blocks, i)) &&
            Ftbp(b.bp, b.size) + WSIZE in t && (GetAlloc(t[Ftbp(b.bp, b.size) + WSIZE]) != 0 <==> !NextFree(h.blocks, i)) &&
            Hdbp(NextBp(b.bp, b.size)) == Ftbp(b.bp, b.size) + WSIZE
    ensures var b, t := h.blocks[i], HFTags(tags, h.blocks[i].bp, h.blocks[i].size, 0);
            PrevFree(h.blocks, i) ==>
              var p := h.blocks[i - 1];
              GetSize(t[Hdbp(b.bp) - WSIZE]) == p.size && p.size % 8 == 0 && PrevBp(b.bp, p.size) == p.bp &&
              (b.size + p.size + ALIGNMENT) % 8 == 0
    ensures var b, t := h.blocks[i], HFTags(tags, h.blocks[i].bp, h.blocks[i].size, 0);
            NextFree(h.blocks, i) ==>
              var n := h.blocks[i + 1];
              GetSize(t[Ftbp(b.bp, b.size) + WSIZE]) == n.size && n.size % 8 == 0 && NextBp(b.bp, b.size) == n.bp &&
              (b.size + n.size + ALIGNMENT) % 8 == 0
    ensures PrevFree(h.blocks, i) && NextFree(h.blocks, i) ==>
              (h.blocks[i].size + h.blocks[i - 1].size + h.blocks[i + 1].size + 2 * ALIGNMENT) % 8 == 0
  {
    var bs := h.blocks;
    var b := bs[i];
    assert WellSized(b.size);
    PrevTag(lo, tags, h.brk, bs, i);
    NextTag(lo, tags, h.brk, bs, i);
    NeighbourWords(tags, b.bp, b.size, tags[b.bp - ALIGNMENT], tags[End(b) - WSIZE]);
    if PrevFree(bs, i) {
      assert Follows(bs, i) && WellSized(bs[i - 1].size);
      SumAligned(b.size, bs[i - 1].size, 0);
    }
    if NextFree(bs, i) {
      assert Follows(bs, i + 1) && WellSized(bs[i + 1].size);
      SumAligned(b.size, bs[i + 1].size, 0);
      if PrevFree(bs, i) {
        SumAligned(b.size, bs[i - 1].size, bs[i + 1].size);
      }
    }
  }

  /** updateHF(bp, size, 0) leaves the words on either side of the block
      as they were, and the header holds the size. */
  lemma NeighbourWords(tags: map<int, int>, bp: int, size: int, pw: int, nw: int)
    requires size % 8 == 0 && 0 <= size
    requires bp - ALIGNMENT in tags && tags[bp - ALIGNMENT] == pw
    requires bp + size + WSIZE in tags && tags[bp + size + WSIZE] == nw
    ensures var t := HFTags(tags, bp, size, 0);
            Hdbp(bp) in t && GetSize(t[Hdbp(bp)]) == size &&
            Hdbp(bp) - WSIZE in t && t[Hdbp(bp) - WSIZE] == pw &&
            Ftbp(bp, size) + WSIZE in t && t[Ftbp(bp, size) + WSIZE] == nw &&
            Hdbp(NextBp(bp, size)) == Ftbp(bp, size) + WSIZE
  {
    PackRoundTrip(size, 0);
  }

  /** Sums of multiples of 8, plus the 8 bytes of each absorbed header and
      footer pair, are multiples of 8. */
  lemma SumAligned(a: int, b: int, c: int)
    requires a % 8 == 0 && b % 8 == 0 && c % 8 == 0
    ensures (a + b + ALIGNMENT) % 8 == 0 && (a + b + c + 2 * ALIGNMENT) % 8 == 0
  {
    assert a + b + ALIGNMENT == 8 * (a / 8 + b / 8 + 1);
    assert a + b + c + 2 * ALIGNMENT == 8 * (a / 8 + b / 8 + c / 8 + 2);
  }

  /** The writes of each merging case of coalesce touch only the bytes of
      the merged block, from its header to its footer, and leave PACK(m, 0)
      in both (mm.c:136-137, mm.c:148-149, mm.c:155-156). */
  lemma AloneWrites(tags: map<int, int>, bp: int, bsize: int)
    requires bsize % 8 == 0 && 0 <= bsize
    ensures var t := HFTags(tags, bp, bsize, 0);
            SameOutside(tags, t, Hdbp(bp), bp + bsize) && TagOk(t, Block(bp, bsize, false))
  {
  }

  lemma NextWrites(tags: map<int, int>, bp: int, bsize: int, nsize: int,
                   t: map<int, int>, hd: int, ft: int, m: int, tags': map<int, int>)
    requires bsize % 8 == 0 && nsize % 8 == 0 && 0 <= bsize && 0 <= nsize
    requires t == HFTags(tags, bp, bsize, 0) && hd == Hdbp(bp) && ft == Ftbp(NextBp(bp, bsize), nsize)
    requires m == bsize + nsize + ALIGNMENT && m % 8 == 0
    requires tags' == t[hd := Pack(m, 0)][ft := Pack(m, 0)]
    ensures SameOutside(tags, tags', Hdbp(bp), bp + m) && TagOk(tags', Block(bp, m, false))
  {
  }

  lemma PrevWrites(tags: map<int, int>, pbp: int, psize: int, bp: int, bsize: int,
                   t: map<int, int>, ft: int, hd: int, m: int, tags': map<int, int>)
    requires bsize % 8 == 0 && psize % 8 == 0 && 0 <= bsize && 0 <= psize && bp == NextBp(pbp, psize)
    requires t == HFTags(tags, bp, bsize, 0) && ft == Ftbp(bp, bsize) && hd == Hdbp(pbp)
    requires m == psize + bsize + ALIGNMENT && m % 8 == 0
    requires tags' == t[ft := Pack(m, 0)][hd := Pack(m, 0)]
    ensures SameOutside(tags, tags', Hdbp(pbp), pbp + m) && TagOk(tags', Block(pbp, m, false))
  {
  }

  lemma BothWrites(tags: map<int, int>, pbp: int, psize: int, bp: int, bsize: int, nsize: int,
                   t: map<int, int>, ft: int, hd: int, m: int, tags': map<int, int>)
    requires bsize % 8 == 0 && psize % 8 == 0 && nsize % 8 == 0 && 0 <= bsize && 0 <= psize && 0 <= nsize
    requires bp == NextBp(pbp, psize)
    requires t == HFTags(tags, bp, bsize, 0) && ft == Ftbp(NextBp(bp, bsize), nsize) && hd == Hdbp(pbp)
    requires m == psize + bsize + nsize + 2 * ALIGNMENT && m % 8 == 0
    requires tags' == t[ft := Pack(m, 0)][hd := Pack(m, 0)]
    ensures SameOutside(tags, tags', Hdbp(pbp), pbp + m) && TagOk(tags', Block(pbp, m, false))
  {
  }

  /** The heap free leaves behind block i. */
  function CoalescedHeap(h: Heap, i: int): (h': Heap)
    requires 0 <= i < |h.blocks|
  {
    Heap(Coalesced(h.blocks, i), CoalescedFree(h.blocks, h.free, i), h.brk)
  }

  /** free's writes when neither neighbour is free: the block's tags say
      free and it goes to the head of the list (mm.c:295-304). */
  lemma FreeAloneInv(lo: int, hi: int, h: Heap, tags: map<int, int>, links: map<int, int>, s: int, i: int,
                     h': Heap, tags': map<int, int>, links': map<int, int>)
    requires Inv(lo, hi, h, tags, links, s) && 0 <= i < |h.blocks| && h.blocks[i].alloc
    requires !PrevFree(h.blocks, i) && !NextFree(h.blocks, i) && h.blocks[i].size % 8 == 0
    requires tags' == HFTags(tags, h.blocks[i].bp, h.blocks[i].size, 0)
    requires links' == AddLinks(links, s, h.blocks[i].bp)
    requires h' == CoalescedHeap(h, i)
    ensures Inv(lo, hi, h', tags', links', s)
  {
    CoalescedOk(lo, hi, h, i);
    FreeAloneTags(lo, hi, h, tags, i, tags');
    FreeAloneLinks(lo, hi, h, links, i);
  }

  /** free's tag writes when neither neighbour is free (mm.c:296). */
  lemma FreeAloneTags(lo: int, hi: int, h: Heap, tags: map<int, int>, i: int, tags': map<int, int>)
    requires ArenaOk(lo, hi) && Chain(lo, h.blocks, h.brk) && h.brk <= hi &&
             TagsOk(lo, tags, h.brk, h.blocks) && 0 <= i < |h.blocks| && h.blocks[i].size % 8 == 0
    requires !PrevFree(h.blocks, i) && !NextFree(h.blocks, i)
    requires tags' == HFTags(tags, h.blocks[i].bp, h.blocks[i].size, 0)
    ensures TagsOk(lo, tags', h.brk, Coalesced(h.blocks, i))
  {
    var b := h.blocks[i];
    assert WellSized(b.size);
    AloneWrites(tags, b.bp, b.size);
    assert Merged(h.blocks, i, i) == Block(b.bp, b.size, false);
    CoalescedTags(lo, hi, h, tags, tags', i);
  }

  /** free's link writes when neither neighbour is free: the block goes to
      the head of the list (mm.c:304). */
  lemma FreeAloneLinks(lo: int, hi: int, h: Heap, links: map<int, int>, i: int)
    requires AbsOk(lo, hi, h) && ListLinked(links, Sentinel(lo), h.free) && 0 <= i < |h.blocks| && h.blocks[i].alloc
    requires !PrevFree(h.blocks, i) && !NextFree(h.blocks, i)
    ensures ListLinked(AddLinks(links, Sentinel(lo), h.blocks[i].bp), Sentinel(lo), CoalescedHeap(h, i).free)
  {
    CoalescedOk(lo, hi, h, i);
    ListSpaced(lo, hi, CoalescedHeap(h, i));
    AddLinked(links, Sentinel(lo), h.free, h.blocks[i].bp);
  }

  /** coalesce's tag writes when only the next neighbour is free
      (mm.c:135-137). */
  lemma CoalesceNextTags(lo: int, hi: int, h: Heap, tags: map<int, int>, i: int,
                         t: map<int, int>, hd: int, ft: int, m: int, tags': map<int, int>)
    requires ArenaOk(lo, hi) && Chain(lo, h.blocks, h.brk) && h.brk <= hi &&
             TagsOk(lo, tags, h.brk, h.blocks) && 0 <= i < |h.blocks| && h.blocks[i].size % 8 == 0
    requires !PrevFree(h.blocks, i) && NextFree(h.blocks, i)
    requires t == HFTags(tags, h.blocks[i].bp, h.blocks[i].size, 0)
    requires hd == Hdbp(h.blocks[i].bp) && ft == Ftbp(NextBp(h.blocks[i].bp, h.blocks[i].size), h.blocks[i + 1].size)
    requires m == h.blocks[i].size + h.blocks[i + 1].size + ALIGNMENT && m % 8 == 0
    requires tags' == t[hd := Pack(m, 0)][ft := Pack(m, 0)]
    ensures TagsOk(lo, tags', h.brk, Coalesced(h.blocks, i))
  {
    var b, n := h.blocks[i], h.blocks[i + 1];
    assert Follows(h.blocks, i + 1) && WellSized(b.size) && WellSized(n.size);
    NextWrites(tags, b.bp, b.size, n.size, t, hd, ft, m, tags');
    assert Merged(h.blocks, i, i + 1) == Block(b.bp, m, false);
    CoalescedTags(lo, hi, h, tags, tags', i);
  }

  /** coalesce's link writes when only the next neighbour is free: the
      neighbour is unlinked and the block goes to the head (mm.c:139-140). */
  lemma CoalesceNextLinks(lo: int, hi: int, h: Heap, links: map<int, int>, i: int)
    requires AbsOk(lo, hi, h) && ListLinked(links, Sentinel(lo), h.free) && 0 <= i < |h.blocks| && h.blocks[i].alloc
    requires !PrevFree(h.blocks, i) && NextFree(h.blocks, i)
    ensures var n := h.blocks[i + 1].bp;
            n in links && n + ALIGNMENT in links && Sentinel(lo) + ALIGNMENT in RemoveLinks(links, n) &&
            ListLinked(AddLinks(RemoveLinks(links, n), Sentinel(lo), h.blocks[i].bp), Sentinel(lo), CoalescedHeap(h, i).free)
  {
    var s, b, n := Sentinel(lo), h.blocks[i], h.blocks[i + 1];
    CoalescedOk(lo, hi, h, i);
    FreeAddrIff(lo, h.blocks, h.brk, i + 1);
    assert n.bp in Elems(h.free);
    RemoveErased(links, s, h.free, n.bp);
    ListSpaced(lo, hi, CoalescedHeap(h, i));
    AddLinked(RemoveLinks(links, n.bp), s, Erase(h.free, n.bp), b.bp);
  }

  /** coalesce's writes when only the next neighbour is free (mm.c:134-141). */
  lemma CoalesceNextInv(lo: int, hi: int, h: Heap, tags: map<int, int>, links: map<int, int>, s: int, i: int,
                        t: map<int, int>, hd: int, ft: int, m: int, h': Heap, tags': map<int, int>, links': map<int, int>)
    requires Inv(lo, hi, h, tags, links, s) && 0 <= i < |h.blocks| && h.blocks[i].alloc && h.blocks[i].size % 8 == 0
    requires !PrevFree(h.blocks, i) && NextFree(h.blocks, i)
    requires t == HFTags(tags, h.blocks[i].bp, h.blocks[i].size, 0)
    requires hd == Hdbp(h.blocks[i].bp) && ft == Ftbp(NextBp(h.blocks[i].bp, h.blocks[i].size), h.blocks[i + 1].size)
    requires m == h.blocks[i].size + h.blocks[i + 1].size + ALIGNMENT && m % 8 == 0
    requires var n := h.blocks[i + 1].bp;
             n in links && n + ALIGNMENT in links && s + ALIGNMENT in RemoveLinks(links, n) &&
             links' == AddLinks(RemoveLinks(links, n), s, h.blocks[i].bp)
    requires tags' == t[hd := Pack(m, 0)][ft := Pack(m, 0)]
    requires h' == CoalescedHeap(h, i)
    ensures Inv(lo, hi, h', tags', links', s)
  {
    CoalescedOk(lo, hi, h, i);
    CoalesceNextTags(lo, hi, h, tags, i, t, hd, ft, m, tags');
    CoalesceNextLinks(lo, hi, h, links, i);
  }


  /** coalesce's writes when only the previous neighbour is free: it grows
      over block i and keeps its place in the list (mm.c:142-152). */
  lemma CoalescePrevInv(lo: int, hi: int, h: Heap, tags: map<int, int>, links: map<int, int>, s: int, i: int,
                        t: map<int, int>, ft: int, hd: int, m: int, h': Heap, tags': map<int, int>)
    requires Inv(lo, hi, h, tags, links, s) && 0 <= i < |h.blocks| && h.blocks[i].alloc && h.blocks[i].size % 8 == 0
    requires PrevFree(h.blocks, i) && !NextFree(h.blocks, i)
    requires t == HFTags(tags, h.blocks[i].bp, h.blocks[i].size, 0)
    requires ft == Ftbp(h.blocks[i].bp, h.blocks[i].size) && hd == Hdbp(h.blocks[i - 1].bp)
    requires m == h.blocks[i - 1].size + h.blocks[i].size + ALIGNMENT && m % 8 == 0
    requires tags' == t[ft := Pack(m, 0)][hd := Pack(m, 0)]
    requires h' == CoalescedHeap(h, i)
    ensures Inv(lo, hi, h', tags', links, s)
  {
    CoalescedOk(lo, hi, h, i);
    CoalescePrevTags(lo, hi, h, tags, i, t, ft, hd, m, tags');
  }


  lemma CoalescePrevTags(lo: int, hi: int, h: Heap, tags: map<int, int>, i: int,
                         t: map<int, int>, ft: int, hd: int, m: int, tags': map<int, int>)
    requires ArenaOk(lo, hi) && Chain(lo, h.blocks, h.brk) && h.brk <= hi &&
             TagsOk(lo, tags, h.brk, h.blocks) && 0 <= i < |h.blocks| && h.blocks[i].size % 8 == 0
    requires PrevFree(h.blocks, i) && !NextFree(h.blocks, i)
    requires t == HFTags(tags, h.blocks[i].bp, h.blocks[i].size, 0)
    requires ft == Ftbp(h.blocks[i].bp, h.blocks[i].size) && hd == Hdbp(h.blocks[i - 1].bp)
    requires m == h.blocks[i - 1].size + h.blocks[i].size + ALIGNMENT && m % 8 == 0
    requires tags' == t[ft := Pack(m, 0)][hd := Pack(m, 0)]
    ensures TagsOk(lo, tags', h.brk, Coalesced(h.blocks, i))
  {
    var p, b := h.blocks[i - 1], h.blocks[i];
    assert Follows(h.blocks, i) && WellSized(p.size) && WellSized(b.size);
    PrevWrites(tags, p.bp, p.size, b.bp, b.size, t, ft, hd, m, tags');
    assert Merged(h.blocks, i - 1, i) == Block(p.bp, m, false);
    CoalescedTags(lo, hi, h, tags, tags', i);
  }

  /** coalesce's tag writes when both neighbours are free (mm.c:155-156). */
  lemma CoalesceBothTags(lo: int, hi: int, h: Heap, tags: map<int, int>, i: int,
                         t: map<int, int>, ft: int, hd: int, m: int, tags': map<int, int>)
    requires ArenaOk(lo, hi) && Chain(lo, h.blocks, h.brk) && h.brk <= hi &&
             TagsOk(lo, tags, h.brk, h.blocks) && 0 <= i < |h.blocks| && h.blocks[i].size % 8 == 0
    requires PrevFree(h.blocks, i) && NextFree(h.blocks, i)
    requires t == HFTags(tags, h.blocks[i].bp, h.blocks[i].size, 0)
    requires ft == Ftbp(NextBp(h.blocks[i].bp, h.blocks[i].size), h.blocks[i + 1].size) && hd == Hdbp(h.blocks[i - 1].bp)
    requires m == h.blocks[i - 1].size + h.blocks[i].size + h.blocks[i + 1].size + 2 * ALIGNMENT && m % 8 == 0
    requires tags' == t[ft := Pack(m, 0)][hd := Pack(m, 0)]
    ensures TagsOk(lo, tags', h.brk, Coalesced(h.blocks, i))
  {
    var p, b, n := h.blocks[i - 1], h.blocks[i], h.blocks[i + 1];
    assert Follows(h.blocks, i) && Follows(h.blocks, i + 1);
    assert WellSized(p.size) && WellSized(b.size) && WellSized(n.size);
    BothWrites(tags, p.bp, p.size, b.bp, b.size, n.size, t, ft, hd, m, tags');
    assert Merged(h.blocks, i - 1, i + 1) == Block(p.bp, m, false);
    CoalescedTags(lo, hi, h, tags, tags', i);
  }

  /** coalesce's link writes when both neighbours are free: both are
      unlinked and the previous one goes back at the head (mm.c:158-160). */
  lemma CoalesceBothLinks(lo: int, hi: int, h: Heap, links: map<int, int>, i: int)
    requires AbsOk(lo, hi, h) && ListLinked(links, Sentinel(lo), h.free) && 0 <= i < |h.blocks| && h.blocks[i].alloc
    requires PrevFree(h.blocks, i) && NextFree(h.blocks, i)
    ensures var p, n := h.blocks[i - 1].bp, h.blocks[i + 1].bp;
            n in links && n + ALIGNMENT in links &&
            p in RemoveLinks(links, n) && p + ALIGNMENT in RemoveLinks(links, n) &&
            Sentinel(lo) + ALIGNMENT in RemoveLinks(RemoveLinks(links, n), p) &&
            ListLinked(AddLinks(RemoveLinks(RemoveLinks(links, n), p), Sentinel(lo), p), Sentinel(lo), CoalescedHeap(h, i).free)
  {
    BothListed(lo, hi, h, i);
    RelinkBoth(links, Sentinel(lo), h.free, h.blocks[i - 1].bp, h.blocks[i + 1].bp);
  }

  /** Both free neighbours of block i are listed, and the list coalesce
      leaves is spaced as the link words need. */
  lemma BothListed(lo: int, hi: int, h: Heap, i: int)
    requires AbsOk(lo, hi, h) && 0 <= i < |h.blocks| && h.blocks[i].alloc
    requires PrevFree(h.blocks, i) && NextFree(h.blocks, i)
    ensures var p, n := h.blocks[i - 1].bp, h.blocks[i + 1].bp;
            p in Elems(h.free) && n in Elems(h.free) && p != n &&
            CoalescedHeap(h, i).free == [p] + Erase(Erase(h.free, n), p) &&
            Spaced(Sentinel(lo), [p] + Erase(Erase(h.free, n), p))
  {
    CoalescedOk(lo, hi, h, i);
    FreeAddrIff(lo, h.blocks, h.brk, i + 1);
    FreeAddrIff(lo, h.blocks, h.brk, i - 1);
    ChainOrdered(lo, h.blocks, h.brk, i - 1, i + 1);
    ListSpaced(lo, hi, CoalescedHeap(h, i));
  }

  /** Unlinking n, then p, and pushing p back at the head keeps the list
      linked, as coalesce does when it absorbs both neighbours. */
  lemma RelinkBoth(links: map<int, int>, s: int, fl: seq<int>, p: int, n: int)
    requires ListLinked(links, s, fl) && Distinct(fl) && p in Elems(fl) && n in Elems(fl) && p != n
    requires Spaced(s, [p] + Erase(Erase(fl, n), p))
    ensures n in links && n + ALIGNMENT in links
    ensures p in RemoveLinks(links, n) && p + ALIGNMENT in RemoveLinks(links, n)
    ensures s + ALIGNMENT in RemoveLinks(RemoveLinks(links, n), p)
    ensures ListLinked(AddLinks(RemoveLinks(RemoveLinks(links, n), p), s, p), s, [p] + Erase(Erase(fl, n), p))
  {
    RemoveErased(links, s, fl, n);
    EraseProps(fl, n);
    assert p in Elems(Erase(fl, n));
    RemoveErased(RemoveLinks(links, n), s, Erase(fl, n), p);
    AddLinked(RemoveLinks(RemoveLinks(links, n), p), s, Erase(Erase(fl, n), p), p);
  }

  /** coalesce's writes when both neighbours are free: the previous one
      grows over block i and the next one, and moves to the head of the list
      (mm.c:153-160). */
  lemma CoalesceBothInv(lo: int, hi: int, h: Heap, tags: map<int, int>, links: map<int, int>, s: int, i: int,
                        t: map<int, int>, ft: int, hd: int, m: int, h': Heap, tags': map<int, int>, links': map<int, int>)
    requires Inv(lo, hi, h, tags, links, s) && 0 <= i < |h.blocks| && h.blocks[i].alloc && h.blocks[i].size % 8 == 0
    requires PrevFree(h.blocks, i) && NextFree(h.blocks, i)
    requires t == HFTags(tags, h.blocks[i].bp, h.blocks[i].size, 0)
    requires ft == Ftbp(NextBp(h.blocks[i].bp, h.blocks[i].size), h.blocks[i + 1].size) && hd == Hdbp(h.blocks[i - 1].bp)
    requires m == h.blocks[i - 1].size + h.blocks[i].size + h.blocks[i + 1].size + 2 * ALIGNMENT && m % 8 == 0
    requires var p, n := h.blocks[i - 1].bp, h.blocks[i + 1].bp;
             n in links && n + ALIGNMENT in links &&
             p in RemoveLinks(links, n) && p + ALIGNMENT in RemoveLinks(links, n) &&
             s + ALIGNMENT in RemoveLinks(RemoveLinks(links, n), p) &&
             links' == AddLinks(RemoveLinks(RemoveLinks(links, n), p), s, p)
    requires tags' == t[ft := Pack(m, 0)][hd := Pack(m, 0)]
    requires h' == CoalescedHeap(h, i)
    ensures Inv(lo, hi, h', tags', links', s)
  {
    CoalescedOk(lo, hi, h, i);
    CoalesceBothTags(lo, hi, h, tags, i, t, ft, hd, m, tags');
    CoalesceBothLinks(lo, hi, h, links, i);
  }


  /** The allocator's invariant over an abstract heap h, the tag words,
      the link words and the sentinel s. */
  ghost predicate Inv(lo: int, hi: int, h: Heap, tags: map<int, int>, links: map<int, int>, s: int)
  {
    AbsOk(lo, hi, h) && s == Sentinel(lo) &&
    TagsOk(lo, tags, h.brk, h.blocks) && ListLinked(links, s, h.free)
  }

  /** t is the address of a tag word the heap keeps: the padding word, the
      prologue header and footer, the epilogue, or a block's header or
      footer (the words TagsOk constrains). */
  ghost predicate TagWord(lo: int, h: Heap, t: int)
  {
    t == lo || t == lo + WSIZE || t == lo + 3 * ALIGNMENT || t == h.brk - WSIZE ||
    exists k :: 0 <= k < |h.blocks| && (t == Hdbp(h.blocks[k].bp) || t == Ftbp(h.blocks[k].bp, h.blocks[k].size))
  }

  /** y is the address of a link word the heap keeps: the `prev` or `next`
      word of the sentinel or of a listed block (the words ListLinked
      constrains). */
  ghost predicate LinkWord(lo: int, h: Heap, y: int)
  {
    y == Sentinel(lo) || y == Sentinel(lo) + ALIGNMENT ||
    exists x :: x in h.free && (y == x || y == x + ALIGNMENT)
  }

  /** In a well-formed heap the 4 bytes of every tag word and the 8 bytes
      of every link word are disjoint parts of the arena: links lie in the
      sentinel's payload or in the first 16 bytes of a free payload, and
      every payload is at least 16 bytes.  This is what lets the arena be
      described by two separate maps. */
  lemma LiveWordsApart(lo: int, hi: int, h: Heap, t: int, y: int)
    requires AbsOk(lo, hi, h) && TagWord(lo, h, t) && LinkWord(lo, h, y)
    ensures t + WSIZE <= y || y + ALIGNMENT <= t
  {
    var bs := h.blocks;
    ChainFirst(lo, bs, h.brk);
    if y == Sentinel(lo) || y == Sentinel(lo) + ALIGNMENT {
      if k :| 0 <= k < |bs| && (t == Hdbp(bs[k].bp) || t == Ftbp(bs[k].bp, bs[k].size)) {
        assert WellSized(bs[k].size);
      }
    } else {
      var x :| x in h.free && (y == x || y == x + ALIGNMENT);
      assert x in Elems(h.free);
      FreeAddrsMember(bs, x);
      var j :| 0 <= j < |bs| && bs[j].bp == x && !bs[j].alloc;
      assert WellSized(bs[j].size);
      if k :| 0 <= k < |bs| && (t == Hdbp(bs[k].bp) || t == Ftbp(bs[k].bp, bs[k].size)) {
        assert WellSized(bs[k].size);
        if k < j {
          ChainOrdered(lo, bs, h.brk, k, j);
        } else if j < k {
          ChainOrdered(lo, bs, h.brk, j, k);
        }
      }
    }
  }

  /** The heap place leaves behind in free block i. */
  function PlacedHeap(h: Heap, i: int, asize: int): (h': Heap)
    requires 0 <= i < |h.blocks|
  {
    Heap(Placed(h.blocks, i, asize), PlacedFree(h.blocks, h.free, i, asize), h.brk)
  }

  /** place's link writes: block i is unlinked and a split-off remainder is
      linked at the head. */
  lemma PlaceLinks(lo: int, hi: int, h: Heap, links: map<int, int>, i: int, asize: int)
    requires AbsOk(lo, hi, h) && ListLinked(links, Sentinel(lo), h.free)
    requires 0 <= i < |h.blocks| && !h.blocks[i].alloc
    requires AbsOk(lo, hi, PlacedHeap(h, i, asize))
    ensures var b, s := h.blocks[i], Sentinel(lo);
            b.bp in h.free && b.bp in links && b.bp + ALIGNMENT in links &&
            s + ALIGNMENT in RemoveLinks(links, b.bp)
    ensures var b, s := h.blocks[i], Sentinel(lo);
            Splits(b.size, asize) ==>
              Spaced(s, PlacedHeap(h, i, asize).free) &&
              ListLinked(AddLinks(RemoveLinks(links, b.bp), s, NextBp(b.bp, asize)), s, PlacedHeap(h, i, asize).free)
    ensures var b, s := h.blocks[i], Sentinel(lo);
            !Splits(b.size, asize) ==> ListLinked(RemoveLinks(links, b.bp), s, PlacedHeap(h, i, asize).free)
  {
    var b, s := h.blocks[i], Sentinel(lo);
    FreeAddrIff(lo, h.blocks, h.brk, i);
    assert b.bp in Elems(h.free);
    RemoveErased(links, s, h.free, b.bp);
    if Splits(b.size, asize) {
      ListSpaced(lo, hi, PlacedHeap(h, i, asize));
      AddLinked(RemoveLinks(links, b.bp), s, Erase(h.free, b.bp), NextBp(b.bp, asize));
    }
  }

  /** What place reads before its writes: block i's size in its header,
      and room for a header and footer pair in what a split leaves over. */
  lemma PlaceReadTags(lo: int, tags: map<int, int>, brk: int, bs: seq<Block>, i: int, asize: int)
    requires Chain(lo, bs, brk) && TagsOk(lo, tags, brk, bs) && 0 <= i < |bs| && asize % 8 == 0
    ensures Hdbp(bs[i].bp) in tags && GetSize(tags[Hdbp(bs[i].bp)]) == bs[i].size
    ensures bs[i].size % 8 == 0 && bs[i].size < WordLimit && (bs[i].size - asize - ALIGNMENT) % 8 == 0
  {
    HeaderTag(lo, tags, brk, bs, i);
    assert WellSized(bs[i].size);
    DiffAligned(bs[i].size, asize);
  }

  /** A free block is on the list, so remove_free_block finds its links. */
  lemma PlaceReadLinks(lo: int, hi: int, h: Heap, links: map<int, int>, i: int)
    requires AbsOk(lo, hi, h) && ListLinked(links, Sentinel(lo), h.free)
    requires 0 <= i < |h.blocks| && !h.blocks[i].alloc
    ensures var b := h.blocks[i];
            b.bp in h.free && b.bp in links && b.bp + ALIGNMENT in links &&
            Sentinel(lo) + ALIGNMENT in RemoveLinks(links, b.bp)
  {
    var b := h.blocks[i];
    FreeAddrIff(lo, h.blocks, h.brk, i);
    assert b.bp in Elems(h.free);
    RemoveErased(links, Sentinel(lo), h.free, b.bp);
  }

  /** What remains of a multiple of 8 after a smaller one and a header and
      footer pair are carved off is a multiple of 8. */
  lemma DiffAligned(a: int, b: int)
    requires a % 8 == 0 && b % 8 == 0
    ensures (a - b - ALIGNMENT) % 8 == 0
  {
    assert a - b - ALIGNMENT == 8 * (a / 8 - b / 8 - 1);
  }

  /** place's writes when it splits block i keep the invariant: the state
      they leave is that of PlacedHeap. */
  lemma PlaceSplitInv(lo: int, hi: int, h: Heap, tags: map<int, int>, links: map<int, int>, s: int, i: int, asize: int,
                      h': Heap, tags': map<int, int>, links': map<int, int>)
    requires Inv(lo, hi, h, tags, links, s) && 0 <= i < |h.blocks| && !h.blocks[i].alloc
    requires asize % 8 == 0 && MinBlock <= asize <= h.blocks[i].size && Splits(h.blocks[i].size, asize)
    requires var b := h.blocks[i];
             b.size % 8 == 0 && b.bp in links && b.bp + ALIGNMENT in links &&
             Sentinel(lo) + ALIGNMENT in RemoveLinks(links, b.bp)
    requires h' == PlacedHeap(h, i, asize)
    requires tags' == SplitTags(tags, h.blocks[i].bp, h.blocks[i].size, asize)
    requires links' == AddLinks(RemoveLinks(links, h.blocks[i].bp), s, NextBp(h.blocks[i].bp, asize))
    ensures Inv(lo, hi, h', tags', links', s)
  {
    PlaceSplitTags(lo, tags, h.brk, h.blocks, i, asize);
    PlacedOk(lo, hi, h, i, asize);
    PlaceLinks(lo, hi, h, links, i, asize);
  }

  /** place's writes when it allocates block i whole keep the invariant. */
  lemma PlaceWholeInv(lo: int, hi: int, h: Heap, tags: map<int, int>, links: map<int, int>, s: int, i: int, asize: int,
                      h': Heap, tags': map<int, int>, links': map<int, int>)
    requires Inv(lo, hi, h, tags, links, s) && 0 <= i < |h.blocks| && !h.blocks[i].alloc
    requires asize % 8 == 0 && MinBlock <= asize <= h.blocks[i].size && !Splits(h.blocks[i].size, asize)
    requires var b := h.blocks[i]; b.size % 8 == 0 && b.bp in links && b.bp + ALIGNMENT in links
    requires h' == PlacedHeap(h, i, asize)
    requires tags' == HFTags(tags, h.blocks[i].bp, h.blocks[i].size, 1)
    requires links' == RemoveLinks(links, h.blocks[i].bp)
    ensures Inv(lo, hi, h', tags', links', s)
  {
    PlaceWholeTags(lo, tags, h.brk, h.blocks, i, asize);
    PlacedOk(lo, hi, h, i, asize);
    PlaceLinks(lo, hi, h, links, i, asize);
  }

  class Allocator {
    const lo: int                 // first byte of the arena
    const hi: int                 // the arena may not grow past hi
    var brk: int                  // the memory system's break: the arena is [lo, brk)
    var tags: map<int, int>       // 4-byte words written with PUT
    var links: map<int, int>      // 8-byte words written with PUTPTR
    var heapListp: int            // heap_listp: the sentinel's payload
    ghost var blocks: seq<Block>
    ghost var freeList: seq<int>

    /** The abstract heap the arena encodes. */
    ghost function Abs(): (h: Heap)
      reads this
    {
      Heap(blocks, freeList, brk)
    }

    ghost predicate Valid()
      reads this
    {
      Inv(lo, hi, Abs(), tags, links, heapListp)
    }

    /** A fresh, empty arena [lo, lo) that may grow up to hi (mem_init). */
    constructor (lo: int, hi: int)
      requires ArenaOk(lo, hi)
      ensures this.lo == lo && this.hi == hi && brk == lo
      ensures tags == map[] && links == map[] && blocks == [] && freeList == []
    {
      this.lo, this.hi := lo, hi;
      brk := lo;
      tags, links := map[], map[];
      heapListp := 0;
      blocks, freeList := [], [];
    }

    /** mem_sbrk(incr): the old break, or -1 when the arena cannot grow by
        incr bytes. */
    method Sbrk(incr: int) returns (old_brk: int)
      modifies this`brk
      ensures incr < 0 || old(brk) + incr > hi ==> old_brk == -1 && brk == old(brk)
      ensures 0 <= incr && old(brk) + incr <= hi ==> old_brk == old(brk) && brk == old(brk) + incr
    {
      if incr < 0 || brk + incr > hi {
        return -1;
      }
      old_brk := brk;
      brk := brk + incr;
    }

    /** add_free_block(bp) (mm.c:87-100). */
    method AddFreeBlock(bp: int)
      requires heapListp + ALIGNMENT in links
      modifies this`links, this`freeList
      ensures links == AddLinks(old(links), heapListp, bp)
      ensures freeList == [bp] + old(freeList)
    {
      var next := links[heapListp + ALIGNMENT];
      links := links[bp := heapListp];
      links := links[bp + ALIGNMENT := next];
      links := links[next := bp];
      links := links[heapListp + ALIGNMENT := bp];
      freeList := [bp] + freeList;
    }

    /** remove_free_block(bp) (mm.c:104-109). */
    method RemoveFreeBlock(bp: int)
      requires bp in links && bp + ALIGNMENT in links
      modifies this`links, this`freeList
      ensures links == RemoveLinks(old(links), bp)
      ensures freeList == Erase(old(freeList), bp)
    {
      var prev := links[bp];
      var next := links[bp + ALIGNMENT];
      links := links[prev + ALIGNMENT := next];
      links := links[next := prev];
      freeList := Erase(freeList, bp);
    }

    /** updateHF(bp, size, alloc) (mm.c:113-117): the header first, then the
        footer at the place the new header names. */
    method UpdateHF(bp: int, size: int, alloc: int)
      requires size % 8 == 0 && 0 <= size < WordLimit && 0 <= alloc <= 1
      modifies this`tags
      ensures tags == HFTags(old(tags), bp, size, alloc)
    {
      tags := tags[Hdbp(bp) := Pack(size, alloc)];
      PackRoundTrip(size, alloc);
      tags := tags[Ftbp(bp, GetSize(tags[Hdbp(bp)])) := Pack(size, alloc)];
    }

    /** place(bp, asize) (mm.c:189-208) on free block i: with more than 32
        bytes of slack the block is split, the front part allocated and the
        remainder put at the head of the list; otherwise the whole block is
        unlisted and allocated. */
    method Place(bp: int, asize: int, ghost i: int)
      requires Valid() && 0 <= i < |blocks| && blocks[i].bp == bp && !blocks[i].alloc
      requires asize % 8 == 0 && MinBlock <= asize <= blocks[i].size
      modifies this`tags, this`links, this`blocks, this`freeList
      ensures Valid()
      ensures Abs() == PlacedHeap(old(Abs()), i, asize)
    {
      PlaceReadTags(lo, tags, brk, blocks, i, asize);
      PlaceReadLinks(lo, hi, Abs(), links, i);
      var bsize := GetSize(tags[Hdbp(bp)]);
      if bsize - asize > 32 {
        PlaceSplit(bp, asize, bsize, i);
      } else {
        PlaceWhole(bp, asize, bsize, i);
      }
    }

    /** place's writes when it splits block i (mm.c:194-200): the front
        asize bytes are tagged allocated, the remainder gets free tags, the
        block leaves the list and the remainder joins it at the head. */
    method PlaceSplit(bp: int, asize: int, bsize: int, ghost i: int)
      requires Valid() && 0 <= i < |blocks| && blocks[i].bp == bp && !blocks[i].alloc
      requires asize % 8 == 0 && MinBlock <= asize && bsize == blocks[i].size && Splits(bsize, asize)
      requires bsize % 8 == 0 && bp in links && bp + ALIGNMENT in links
      requires heapListp + ALIGNMENT in RemoveLinks(links, bp)
      modifies this`tags, this`links, this`blocks, this`freeList
      ensures Valid()
      ensures Abs() == PlacedHeap(old(Abs()), i, asize)
    {
      ghost var h0, tags0, links0 := Abs(), tags, links;
      assert Inv(lo, hi, h0, tags0, links0, heapListp);
      var newBlock := bp + asize + ALIGNMENT;
      tags := SplitTags(tags, bp, bsize, asize);
      RemoveFreeBlock(bp);
      AddFreeBlock(newBlock);
      blocks := Placed(blocks, i, asize);
      assert freeList == PlacedFree(h0.blocks, h0.free, i, asize);
      PlaceSplitInv(lo, hi, h0, tags0, links0, heapListp, i, asize, Abs(), tags, links);
    }

    /** place's writes when block i is allocated whole (mm.c:202-206). */
    method PlaceWhole(bp: int, asize: int, bsize: int, ghost i: int)
      requires Valid() && 0 <= i < |blocks| && blocks[i].bp == bp && !blocks[i].alloc
      requires asize % 8 == 0 && MinBlock <= asize <= bsize && bsize == blocks[i].size && !Splits(bsize, asize)
      requires bsize % 8 == 0 && bsize < WordLimit && bp in links && bp + ALIGNMENT in links
      modifies this`tags, this`links, this`blocks, this`freeList
      ensures Valid()
      ensures Abs() == PlacedHeap(old(Abs()), i, asize)
    {
      ghost var h0, tags0, links0 := Abs(), tags, links;
      RemoveFreeBlock(bp);
      UpdateHF(bp, bsize, 1);
      blocks := Placed(blocks, i, asize);
      PlaceWholeInv(lo, hi, h0, tags0, links0, heapListp, i, asize, Abs(), tags, links);
    }

    /** extend_heap(bytes) (mm.c:166-185): a new allocated block of
        ALIGN(bytes), at least 16, bytes at the old break, not listed and
        not coalesced; NULL when mem_sbrk fails. */
    method ExtendHeap(bytes: nat) returns (bp: int)
      requires Valid()
      modifies this`brk, this`tags, this`blocks
      ensures Valid()
      ensures (Abs(), bp) == ExtendStep(hi, old(Abs()), bytes)
    {
      ghost var h0 := Abs();
      var size := Align(bytes);
      if size < MinBlock {
        size := MinBlock;
      }
      assert size == AdjustedSize(bytes);
      BrkPastPrologue(lo, hi, h0);
      bp := Sbrk(size + ALIGNMENT);
      if bp == -1 {
        ExtendFails(hi, h0, bytes);
        return NULL;
      }
      NewBlock(bp, size, bytes, h0);
    }

    /** extend_heap's writes once mem_sbrk has moved the break past the new
        block (mm.c:178-184): its header and footer, and the epilogue. */
    method NewBlock(bp: int, size: int, ghost bytes: nat, ghost h0: Heap)
      requires Inv(lo, hi, h0, tags, links, heapListp)
      requires h0 == Heap(blocks, freeList, bp) && size == AdjustedSize(bytes) && brk == bp + size + ALIGNMENT <= hi
      modifies this`tags, this`blocks
      ensures Valid()
      ensures (Abs(), bp) == ExtendStep(hi, h0, bytes)
    {
      ghost var tags0 := tags;
      BrkPastPrologue(lo, hi, h0);
      ExtendTags(tags0, bp, size);
      UpdateHF(bp, size, 1);
      tags := tags[Ftbp(bp, GetSize(tags[Hdbp(bp)])) + WSIZE := Pack(0, 1)];
      blocks := blocks + [Block(bp, size, true)];
      ExtendInv(lo, hi, h0, tags0, links, heapListp, bytes, Abs(), tags);
    }

    /** find_fit(asize) (mm.c:212-238): with an empty list, or when the
        walk comes back to the sentinel, extend the heap; otherwise place
        the request in the first listed block that is large enough. */
    method FindFit(asize: int) returns (bp: int)
      requires Valid() && asize % 8 == 0 && MinBlock <= asize
      modifies this`brk, this`tags, this`links, this`blocks, this`freeList
      ensures Valid()
      ensures (Abs(), bp) == FitStep(hi, old(Abs()), asize)
    {
      FitPrep(lo, hi, Abs(), tags, links, asize);
      if links[heapListp + ALIGNMENT] == heapListp {
        bp := ExtendHeap(asize);
        return;
      }
      bp := Walk(links, tags, heapListp, asize, freeList, ListSizes(blocks, freeList));
      if bp != heapListp {
        Place(bp, asize, IndexOf(blocks, bp));
        return;
      }
      bp := ExtendHeap(asize);
    }

    /** coalesce's writes when only the next neighbour, of payload size
        nsize, is free (mm.c:134-141): block bp's header and the next
        block's footer get the merged size, and the next block's list entry
        is replaced by one for bp at the head of the list. */
    method MergeNext(bp: int, nextBlock: int, size: int, ghost nsize: int)
      requires size % 8 == 0
      requires Hdbp(nextBlock) in tags && Hdbp(nextBlock) != Hdbp(bp) && GetSize(tags[Hdbp(nextBlock)]) == nsize
      requires nextBlock in links && nextBlock + ALIGNMENT in links
      requires heapListp + ALIGNMENT in RemoveLinks(links, nextBlock)
      modifies this`tags, this`links, this`freeList
      ensures tags == old(tags)[Hdbp(bp) := Pack(size, 0)][Ftbp(nextBlock, nsize) := Pack(size, 0)]
      ensures links == AddLinks(RemoveLinks(old(links), nextBlock), heapListp, bp)
      ensures freeList == [bp] + Erase(old(freeList), nextBlock)
    {
      var t := tags[Hdbp(bp) := Pack(size, 0)];
      tags := t[Ftbp(nextBlock, GetSize(t[Hdbp(nextBlock)])) := Pack(size, 0)];
      RemoveFreeBlock(nextBlock);
      AddFreeBlock(bp);
    }

    /** coalesce's writes when only the previous neighbour is free
        (mm.c:142-152): block bp's footer and the previous block's header
        get the merged size; the list is untouched. */
    method MergePrev(bp: int, prevBlock: int, size: int)
      requires size % 8 == 0
      requires Hdbp(bp) in tags
      modifies this`tags
      ensures tags == old(tags)[Ftbp(bp, GetSize(old(tags)[Hdbp(bp)])) := Pack(size, 0)][Hdbp(prevBlock) := Pack(size, 0)]
    {
      var t := tags[Ftbp(bp, GetSize(tags[Hdbp(bp)])) := Pack(size, 0)];
      tags := t[Hdbp(prevBlock) := Pack(size, 0)];
    }

    /** coalesce's writes when both neighbours are free (mm.c:153-160): the
        next block's footer, of payload size nsize, and the previous block's
        header get the merged size, and both list entries are replaced by
        one for the previous block at the head of the list. */
    method MergeBoth(prevBlock: int, nextBlock: int, size: int, ghost nsize: int)
      requires size % 8 == 0
      requires Hdbp(nextBlock) in tags && GetSize(tags[Hdbp(nextBlock)]) == nsize
      requires nextBlock in links && nextBlock + ALIGNMENT in links
      requires prevBlock in RemoveLinks(links, nextBlock) && prevBlock + ALIGNMENT in RemoveLinks(links, nextBlock)
      requires heapListp + ALIGNMENT in RemoveLinks(RemoveLinks(links, nextBlock), prevBlock)
      modifies this`tags, this`links, this`freeList
      ensures tags == old(tags)[Ftbp(nextBlock, nsize) := Pack(size, 0)][Hdbp(prevBlock) := Pack(size, 0)]
      ensures links == AddLinks(RemoveLinks(RemoveLinks(old(links), nextBlock), prevBlock), heapListp, prevBlock)
      ensures freeList == [prevBlock] + Erase(Erase(old(freeList), nextBlock), prevBlock)
    {
      var t := tags[Ftbp(nextBlock, GetSize(tags[Hdbp(nextBlock)])) := Pack(size, 0)];
      tags := t[Hdbp(prevBlock) := Pack(size, 0)];
      RemoveFreeBlock(nextBlock);
      RemoveFreeBlock(prevBlock);
      AddFreeBlock(prevBlock);
    }

    /** coalesce's merge of block i with its free next neighbour into a
        block of the given size (mm.c:134-141): the heap becomes the
        coalesced heap and the invariant holds again. */
    method AbsorbNext(bp: int, nextBlock: int, size: int, ghost i: int, ghost tags0: map<int, int>)
      requires Inv(lo, hi, Abs(), tags0, links, heapListp)
      requires 0 <= i < |blocks| && blocks[i].bp == bp && blocks[i].alloc && blocks[i].size % 8 == 0 && 0 <= blocks[i].size
      requires !PrevFree(blocks, i) && NextFree(blocks, i)
      requires nextBlock == blocks[i + 1].bp == NextBp(bp, blocks[i].size)
      requires Hdbp(nextBlock) in tags && GetSize(tags[Hdbp(nextBlock)]) == blocks[i + 1].size
      requires size == blocks[i].size + blocks[i + 1].size + ALIGNMENT && size % 8 == 0
      requires tags == HFTags(tags0, bp, blocks[i].size, 0)
      modifies this`tags, this`links, this`blocks, this`freeList
      ensures Valid() && Abs() == CoalescedHeap(old(Abs()), i)
    {
      ghost var h0, t0, l0 := Abs(), tags, links;
      ghost var n := blocks[i + 1];
      CoalesceNextLinks(lo, hi, h0, links, i);
      MergeNext(bp, nextBlock, size, n.size);
      blocks := Coalesced(blocks, i);
      CoalesceNextInv(lo, hi, h0, tags0, l0, heapListp, i, t0, Hdbp(bp), Ftbp(nextBlock, n.size), size, Abs(), tags, links);
    }

    /** coalesce's merge of block i into its free previous neighbour, giving
        a block of the given size (mm.c:142-152). */
    method AbsorbPrev(bp: int, prevBlock: int, size: int, ghost i: int, ghost tags0: map<int, int>)
      requires Inv(lo, hi, Abs(), tags0, links, heapListp)
      requires 0 <= i < |blocks| && blocks[i].bp == bp && blocks[i].alloc && blocks[i].size % 8 == 0
      requires PrevFree(blocks, i) && !NextFree(blocks, i)
      requires prevBlock == blocks[i - 1].bp
      requires Hdbp(bp) in tags && GetSize(tags[Hdbp(bp)]) == blocks[i].size
      requires size == blocks[i].size + blocks[i - 1].size + ALIGNMENT && size % 8 == 0
      requires tags == HFTags(tags0, bp, blocks[i].size, 0)
      modifies this`tags, this`blocks
      ensures Valid() && Abs() == CoalescedHeap(old(Abs()), i)
    {
      ghost var h0, t0 := Abs(), tags;
      MergePrev(bp, prevBlock, size);
      blocks := Coalesced(blocks, i);
      CoalescePrevInv(lo, hi, h0, tags0, links, heapListp, i, t0, Ftbp(bp, GetSize(t0[Hdbp(bp)])), Hdbp(prevBlock), size, Abs(), tags);
    }

    /** coalesce's merge of block i and its next neighbour into its previous
        neighbour, both free, giving a block of the given size
        (mm.c:153-160). */
    method AbsorbBoth(prevBlock: int, nextBlock: int, size: int, ghost i: int, ghost tags0: map<int, int>)
      requires Inv(lo, hi, Abs(), tags0, links, heapListp)
      requires 0 <= i < |blocks| && blocks[i].alloc && blocks[i].size % 8 == 0
      requires PrevFree(blocks, i) && NextFree(blocks, i)
      requires prevBlock == blocks[i - 1].bp
      requires nextBlock == blocks[i + 1].bp == NextBp(blocks[i].bp, blocks[i].size)
      requires Hdbp(nextBlock) in tags && GetSize(tags[Hdbp(nextBlock)]) == blocks[i + 1].size
      requires size == blocks[i].size + blocks[i - 1].size + blocks[i + 1].size + 2 * ALIGNMENT && size % 8 == 0
      requires tags == HFTags(tags0, blocks[i].bp, blocks[i].size, 0)
      modifies this`tags, this`links, this`blocks, this`freeList
      ensures Valid() && Abs() == CoalescedHeap(old(Abs()), i)
    {
      ghost var h0, t0, l0 := Abs(), tags, links;
      ghost var n := blocks[i + 1];
      CoalesceBothLinks(lo, hi, h0, links, i);
      MergeBoth(prevBlock, nextBlock, size, n.size);
      blocks := Coalesced(blocks, i);
      CoalesceBothInv(lo, hi, h0, tags0, l0, heapListp, i, t0, Ftbp(nextBlock, n.size), Hdbp(prevBlock), size, Abs(), tags, links);
    }

    /** coalesce(bp) (mm.c:121-162), called by free after it has cleared
        the allocated bit of block i, whose tags were tags0 before: 1 when
        neither neighbour is free, and nothing changes; otherwise 0, and the
        block is merged with its free neighbours, which leaves the heap
        that free promises. */
    method Coalesce(bp: int, ghost i: int, ghost tags0: map<int, int>) returns (flag: int)
      requires Inv(lo, hi, Abs(), tags0, links, heapListp)
      requires 0 <= i < |blocks| && blocks[i].bp == bp && blocks[i].alloc && blocks[i].size % 8 == 0
      requires tags == HFTags(tags0, bp, blocks[i].size, 0)
      modifies this`tags, this`links, this`blocks, this`freeList
      ensures flag == if Merges(old(blocks), i) == 0 then 1 else 0
      ensures flag == 1 ==> tags == old(tags) && links == old(links) && blocks == old(blocks) && freeList == old(freeList)
      ensures flag == 0 ==> Valid() && Abs() == CoalescedHeap(old(Abs()), i)
    {
      CoalescePrep(lo, hi, Abs(), tags0, i);
      var preAlloc := GetAlloc(tags[Hdbp(bp) - WSIZE]);
      var nextAlloc := GetAlloc(tags[Ftbp(bp, GetSize(tags[Hdbp(bp)])) + WSIZE]);
      var size := GetSize(tags[Hdbp(bp)]);
      var nextBlock := NextBp(bp, size);
      var prevBlock := PrevBp(bp, GetSize(tags[Hdbp(bp) - WSIZE]));
      assert size == blocks[i].size && (preAlloc != 0 <==> !PrevFree(blocks, i)) && (nextAlloc != 0 <==> !NextFree(blocks, i));
      if preAlloc != 0 && nextAlloc != 0 {
        return 1;
      } else if preAlloc != 0 && nextAlloc == 0 {
        size := size + GetSize(tags[Ftbp(bp, GetSize(tags[Hdbp(bp)])) + WSIZE]) + ALIGNMENT;
        AbsorbNext(bp, nextBlock, size, i, tags0);
      } else if preAlloc == 0 && nextAlloc != 0 {
        size := size + GetSize(tags[Hdbp(bp) - WSIZE]) + ALIGNMENT;
        AbsorbPrev(bp, prevBlock, size, i, tags0);
      } else {
        size := size + GetSize(tags[Hdbp(bp) - WSIZE]) + GetSize(tags[Ftbp(bp, GetSize(tags[Hdbp(bp)])) + WSIZE]) + 2 * ALIGNMENT;
        AbsorbBoth(prevBlock, nextBlock, size, i, tags0);
      }
      return 0;
    }

    /** free(ptr) (mm.c:285-305): nothing for NULL or a block whose
        header says free; otherwise the block's tags are marked free, it is
        coalesced with its free neighbours, and when none was free it goes
        to the head of the list. */
    method Free(ptr: int)
      requires Valid() && (ptr == NULL || IsBlockAddr(blocks, ptr))
      modifies this`tags, this`links, this`blocks, this`freeList
      ensures Valid()
      ensures Abs() == FreeStep(old(Abs()), ptr)
    {
      if ptr == NULL {
        return;
      }
      ghost var h0, tags0, links0 := Abs(), tags, links;
      ghost var i := IndexOf(blocks, ptr);
      FreePrep(lo, hi, h0, tags, i);
      if GetAlloc(tags[Hdbp(ptr)]) == 0 {
        return;
      }
      UpdateHF(ptr, GetSize(tags[Hdbp(ptr)]), 0);
      var flag := Coalesce(ptr, i, tags0);
      if flag != 0 {
        AddFreeBlock(ptr);
        blocks := Coalesced(blocks, i);
        FreeAloneInv(lo, hi, h0, tags0, links0, heapListp, i, Abs(), tags, links);
      }
    }

    /** malloc(size) (mm.c:269-278): NULL for 0; otherwise the request is
        rounded up to a multiple of 8, at least 16, and find_fit serves it. */
    method Malloc(size: SizeT) returns (r: int)
      requires Valid()
      modifies this`brk, this`tags, this`links, this`blocks, this`freeList
      ensures Valid()
      ensures (Abs(), r) == MallocStep(hi, old(Abs()), size)
    {
      if size == 0 {
        return NULL;
      }
      var asize := Align(size);
      if asize < MinBlock {
        asize := MinBlock;
      }
      assert asize == AdjustedSize(size);
      r := FindFit(asize);
    }

    /** realloc(oldptr, size) (mm.c:313-350): free for size 0, malloc for a
        NULL oldptr; otherwise a new block is taken with malloc and, when
        that succeeds, the old block is freed.  The copy of the payload is
        not modelled. */
    method Realloc(oldptr: int, size: SizeT) returns (r: int)
      requires Valid() && ReallocArg(Abs(), oldptr, size)
      modifies this`brk, this`tags, this`links, this`blocks, this`freeList
      ensures Valid()
      ensures (Abs(), r) == ReallocStep(lo, hi, old(Abs()), oldptr, size)
    {
      if size == 0 {
        Free(oldptr);
        return NULL;
      }
      if oldptr == NULL {
        r := Malloc(size);
        return;
      }
      LiveIsBlock(Abs(), oldptr);
      ghost var h0 := Abs();
      MallocStepOk(lo, hi, h0, size);
      LiveAfterMalloc(lo, hi, h0, size, oldptr);
      var newptr := Malloc(size);
      if newptr == NULL {
        return NULL;
      }
      LiveIsBlock(Abs(), oldptr);
      Free(oldptr);
      r := newptr;
    }

    /** calloc(nmemb, size) (mm.c:355-364), with the product checked for
        overflow: NULL when nmemb * size does not fit in `size_t`, otherwise
        malloc of the product.  The zeroing of the payload is not modelled. */
    method Calloc(nmemb: SizeT, size: SizeT) returns (r: int)
      requires Valid()
      modifies this`brk, this`tags, this`links, this`blocks, this`freeList
      ensures Valid()
      ensures (Abs(), r) == CallocStep(hi, old(Abs()), nmemb, size)
    {
      var bytes := nmemb * size;
      if !(0 <= bytes < SizeLimit) {
        return NULL;
      }
      r := Malloc(bytes);
    }

    /** mm_init (mm.c:243-263): take 32 bytes for the padding word, the
        prologue block whose payload is the list sentinel, and the epilogue;
        -1 when the arena cannot hold them. */
    method Init() returns (r: int)
      requires ArenaOk(lo, hi) && brk == lo
      modifies this
      ensures r == 0 || r == -1
      ensures r == 0 ==> Valid() && Abs() == InitHeap(lo)
      ensures r == -1 ==> hi < FirstBp(lo) && brk == lo && heapListp == -1
    {
      heapListp := Sbrk(4 * WSIZE + 2 * ALIGNMENT);
      if heapListp == -1 {
        return -1;
      }
      tags := tags[heapListp := 0];
      tags := tags[heapListp + WSIZE := Pack(2 * ALIGNMENT, 1)];
      links := links[heapListp + 2 * WSIZE := 0];
      links := links[heapListp + 2 * WSIZE + ALIGNMENT := heapListp + 2 * WSIZE];
      tags := tags[heapListp + 2 * WSIZE + 2 * ALIGNMENT := Pack(2 * ALIGNMENT, 1)];
      tags := tags[heapListp + 3 * ALIGNMENT + WSIZE := Pack(0, 1)];
      heapListp := heapListp + 2 * WSIZE;
      blocks, freeList := [], [];
      InitInv(lo, hi, Abs(), tags, links, heapListp);
      r := 0;
    }
  }
}
