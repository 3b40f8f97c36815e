/**
 * The block chain of the heap, seen abstractly.
 *
 * The arena starts at `lo`.  Its first 32 bytes hold a padding word, the
 * prologue block (payload at lo + 8, size 16, always allocated; it is the
 * free list's sentinel) and, at the current top `brk`, the four-byte
 * epilogue tag PACK(0, 1).  The ordinary blocks lie between them: the first
 * payload is at lo + 32 and each block's successor starts `size + 8` bytes
 * after it (mm.c:130, mm.c:243-255).
 */
module Layout {
  import opened Codec
  import opened FreeList

  /** One ordinary block: payload address, payload size, allocated flag. */
  datatype Block = Block(bp: int, size: int, alloc: bool)

  /** The payload address one past this block, i.e. its successor's. */
  function End(b: Block): (e: int) { NextBp(b.bp, b.size) }

  function Bit(alloc: bool): (bit: int) { if alloc then 1 else 0 }

  /** The sentinel (prologue payload) and the first ordinary payload. */
  function Sentinel(lo: int): (s: int) { lo + 2 * WSIZE }
  function FirstBp(lo: int): (bp: int) { lo + 4 * WSIZE + 2 * ALIGNMENT }

  ghost predicate WellSized(size: int)
  {
    MinBlock <= size < WordLimit && size % 8 == 0
  }

  /** The blocks tile the arena from the first payload up to brk. */
  ghost predicate Chain(lo: int, bs: seq<Block>, brk: int)
  {
    (forall i :: 0 <= i < |bs| ==> WellSized(bs[i].size)) &&
    (forall i {:trigger Follows(bs, i)} :: 0 < i < |bs| ==> Follows(bs, i)) &&
    (if bs == [] then brk == FirstBp(lo) else bs[0].bp == FirstBp(lo) && End(bs[|bs| - 1]) == brk)
  }

  /** Block i starts where block i - 1 ends. */
  ghost predicate Follows(bs: seq<Block>, i: int)
    requires 0 < i < |bs|
  {
    bs[i].bp == End(bs[i - 1])
  }

  /** Bytes taken by the blocks, header and footer included. */
  function Total(bs: seq<Block>): (t: int)
  {
    if bs == [] then 0 else Total(bs[..|bs| - 1]) + bs[|bs| - 1].size + ALIGNMENT
  }

  ghost predicate NoAdjacentFree(bs: seq<Block>)
  {
    forall i :: 0 < i < |bs| ==> NotBothFree(bs, i)
  }

  ghost predicate NotBothFree(bs: seq<Block>, i: int)
    requires 0 < i < |bs|
  {
    bs[i - 1].alloc || bs[i].alloc
  }

  /** Payload addresses of the free blocks. */
  function FreeAddrs(bs: seq<Block>): (addrs: set<int>)
  {
    if bs == [] then {} else (if bs[0].alloc then {} else {bs[0].bp}) + FreeAddrs(bs[1..])
  }

  ghost predicate IsBlockAddr(bs: seq<Block>, a: int)
  {
    exists i :: 0 <= i < |bs| && bs[i].bp == a
  }

  // ---------------------------------------------------------------------
  // Facts about a chain

  /** Blocks are laid out in increasing address order, without overlap. */
  lemma {:induction false} ChainOrdered(lo: int, bs: seq<Block>, brk: int, i: int, j: int)
    requires Chain(lo, bs, brk)
    requires 0 <= i < j < |bs|
    ensures End(bs[i]) <= bs[j].bp
    decreases j - i
  {
    assert Follows(bs, j);
    if i + 1 < j {
      ChainOrdered(lo, bs, brk, i, j - 1);
    }
  }

  /** Every block lies between the first payload and brk. */
  lemma ChainBounds(lo: int, bs: seq<Block>, brk: int, i: int)
    requires Chain(lo, bs, brk)
    requires 0 <= i < |bs|
    ensures FirstBp(lo) <= bs[i].bp && End(bs[i]) <= brk
  {
    if 0 < i {
      ChainOrdered(lo, bs, brk, 0, i);
    }
    if i < |bs| - 1 {
      ChainOrdered(lo, bs, brk, i, |bs| - 1);
    }
  }

  /** Every payload lies a multiple of 8 bytes past the arena start. */
  lemma {:induction false} ChainAligned(lo: int, bs: seq<Block>, brk: int, i: int)
    requires Chain(lo, bs, brk) && 0 <= i < |bs|
    ensures (bs[i].bp - lo) % 8 == 0
  {
    if 0 < i {
      ChainAligned(lo, bs, brk, i - 1);
      assert Follows(bs, i) && WellSized(bs[i - 1].size);
    }
  }

  /** Arena accounting: the arena holds the 8-byte padding-and-epilogue
      overhead, the 24 bytes of the prologue, and size + 8 bytes per block. */
  lemma {:induction false} ArenaAccounting(lo: int, bs: seq<Block>, brk: int)
    requires Chain(lo, bs, brk)
    ensures brk - lo == ALIGNMENT + (MinBlock + ALIGNMENT) + Total(bs)
  {
    if bs != [] {
      var init := bs[..|bs| - 1];
      var top := if init == [] then FirstBp(lo) else End(init[|init| - 1]);
      forall i | 0 < i < |init| ensures Follows(init, i) {
        assert Follows(bs, i);
      }
      assert Chain(lo, init, top);
      assert |bs| > 1 ==> Follows(bs, |bs| - 1);
      ArenaAccounting(lo, init, top);
    }
  }

  lemma {:induction false} FreeAddrsConcat(a: seq<Block>, b: seq<Block>)
    ensures FreeAddrs(a + b) == FreeAddrs(a) + FreeAddrs(b)
  {
    if a == [] {
      assert a + b == b;
    } else {
      assert (a + b)[0] == a[0] && (a + b)[1..] == a[1..] + b;
      FreeAddrsConcat(a[1..], b);
    }
  }

  /** A free address is the payload of a free block. */
  lemma {:induction false} FreeAddrsMember(bs: seq<Block>, x: int)
    ensures x in FreeAddrs(bs) <==> exists i :: 0 <= i < |bs| && bs[i].bp == x && !bs[i].alloc
  {
    if bs != [] {
      FreeAddrsMember(bs[1..], x);
      if x in FreeAddrs(bs[1..]) {
        var i :| 0 <= i < |bs| - 1 && bs[1..][i].bp == x && !bs[1..][i].alloc;
        assert bs[i + 1].bp == x;
      }
      if exists i :: 0 <= i < |bs| && bs[i].bp == x && !bs[i].alloc {
        var i :| 0 <= i < |bs| && bs[i].bp == x && !bs[i].alloc;
        if 0 < i {
          assert bs[1..][i - 1] == bs[i];
        }
      }
    }
  }

  lemma ChainFirst(lo: int, bs: seq<Block>, brk: int)
    requires Chain(lo, bs, brk)
    ensures brk >= FirstBp(lo)
    ensures forall i :: 0 <= i < |bs| ==> FirstBp(lo) <= bs[i].bp && End(bs[i]) <= brk
  {
    forall i | 0 <= i < |bs| ensures FirstBp(lo) <= bs[i].bp && End(bs[i]) <= brk {
      ChainBounds(lo, bs, brk, i);
    }
  }

  /** Two blocks of a chain with the same payload address are the same block. */
  lemma ChainUnique(lo: int, bs: seq<Block>, brk: int, i: int, j: int)
    requires Chain(lo, bs, brk)
    requires 0 <= i < |bs| && 0 <= j < |bs| && bs[i].bp == bs[j].bp
    ensures i == j
  {
    if i < j {
      ChainOrdered(lo, bs, brk, i, j);
    } else if j < i {
      ChainOrdered(lo, bs, brk, j, i);
    }
  }

  // ---------------------------------------------------------------------
  // Replacing a run of blocks by blocks that cover the same bytes

  function Splice(bs: seq<Block>, a: int, b: int, mid: seq<Block>): (bs': seq<Block>)
    requires 0 <= a <= b <= |bs|
  {
    bs[..a] + mid + bs[b..]
  }

  /** A run `mid` that starts where bs[a] starts, ends where bs[b - 1] ends
      and is itself contiguous can take the place of bs[a..b]. */
  lemma ChainSplice(lo: int, bs: seq<Block>, brk: int, a: int, b: int, mid: seq<Block>)
    requires Chain(lo, bs, brk) && 0 <= a < b <= |bs| && mid != []
    requires mid[0].bp == bs[a].bp && End(mid[|mid| - 1]) == End(bs[b - 1])
    requires forall j :: 0 <= j < |mid| ==> WellSized(mid[j].size)
    requires forall j :: 0 < j < |mid| ==> Follows(mid, j)
    ensures Chain(lo, Splice(bs, a, b, mid), brk)
  {
    var r := Splice(bs, a, b, mid);
    var m := a + |mid|;
    assert |r| == |bs| - (b - a) + |mid|;
    forall k | 0 <= k < |r| ensures WellSized(r[k].size) {
      if k < a {
        assert r[k] == bs[k];
      } else if k < m {
        assert r[k] == mid[k - a];
      } else {
        assert r[k] == bs[k - m + b];
      }
    }
    forall k | 0 < k < |r| ensures Follows(r, k) {
      if k < a {
        assert r[k] == bs[k] && r[k - 1] == bs[k - 1] && Follows(bs, k);
      } else if k == a {
        assert r[k] == mid[0] && r[k - 1] == bs[a - 1] && Follows(bs, a);
      } else if k < m {
        assert r[k] == mid[k - a] && r[k - 1] == mid[k - a - 1] && Follows(mid, k - a);
      } else if k == m {
        assert r[k] == bs[b] && r[k - 1] == mid[|mid| - 1] && Follows(bs, b);
      } else {
        assert r[k] == bs[k - m + b] && r[k - 1] == bs[k - m + b - 1] && Follows(bs, k - m + b);
      }
    }
    if a == 0 {
      assert r[0] == mid[0];
    } else {
      assert r[0] == bs[0];
    }
    if b == |bs| {
      assert r[|r| - 1] == mid[|mid| - 1];
    } else {
      assert r[|r| - 1] == bs[|bs| - 1];
    }
  }

  /** A splice drops the free addresses of the replaced run and adds those
      of the new one. */
  lemma FreeAddrsSplice(lo: int, bs: seq<Block>, brk: int, a: int, b: int, mid: seq<Block>)
    requires Chain(lo, bs, brk) && 0 <= a < b <= |bs|
    ensures FreeAddrs(Splice(bs, a, b, mid)) == (FreeAddrs(bs) - FreeAddrs(bs[a..b])) + FreeAddrs(mid)
  {
    FreeAddrsConcat(bs[..a] + mid, bs[b..]);
    FreeAddrsConcat(bs[..a], mid);
    assert bs == bs[..a] + bs[a..b] + bs[b..];
    FreeAddrsConcat(bs[..a] + bs[a..b], bs[b..]);
    FreeAddrsConcat(bs[..a], bs[a..b]);
    forall x | x in FreeAddrs(bs[a..b]) ensures x !in FreeAddrs(bs[..a]) && x !in FreeAddrs(bs[b..]) {
      FreeAddrsMember(bs[a..b], x);
      var j :| 0 <= j < b - a && bs[a..b][j].bp == x && !bs[a..b][j].alloc;
      assert bs[a + j].bp == x;
      FreeAddrsMember(bs[..a], x);
      if x in FreeAddrs(bs[..a]) {
        var i :| 0 <= i < a && bs[..a][i].bp == x && !bs[..a][i].alloc;
        assert bs[i].bp == x;
        ChainUnique(lo, bs, brk, i, a + j);
      }
      FreeAddrsMember(bs[b..], x);
      if x in FreeAddrs(bs[b..]) {
        var i :| 0 <= i < |bs| - b && bs[b..][i].bp == x && !bs[b..][i].alloc;
        assert bs[b + i].bp == x;
        ChainUnique(lo, bs, brk, b + i, a + j);
      }
    }
  }

  /** A splice creates no adjacent free pair when the new run has none and
      a free block at either of its ends meets an allocated neighbour. */
  lemma NoAdjacentFreeSplice(bs: seq<Block>, a: int, b: int, mid: seq<Block>)
    requires NoAdjacentFree(bs) && NoAdjacentFree(mid) && 0 <= a < b <= |bs| && mid != []
    requires 0 < a && !mid[0].alloc ==> bs[a - 1].alloc
    requires b < |bs| && !mid[|mid| - 1].alloc ==> bs[b].alloc
    ensures NoAdjacentFree(Splice(bs, a, b, mid))
  {
    var r := Splice(bs, a, b, mid);
    var m := a + |mid|;
    forall k | 0 < k < |r| ensures NotBothFree(r, k) {
      if k < a {
        assert r[k] == bs[k] && r[k - 1] == bs[k - 1] && NotBothFree(bs, k);
      } else if k == a {
        assert r[k] == mid[0] && r[k - 1] == bs[a - 1];
      } else if k < m {
        assert r[k] == mid[k - a] && r[k - 1] == mid[k - a - 1] && NotBothFree(mid, k - a);
      } else if k == m {
        assert r[k] == bs[b] && r[k - 1] == mid[|mid| - 1];
      } else {
        assert r[k] == bs[k - m + b] && r[k - 1] == bs[k - m + b - 1] && NotBothFree(bs, k - m + b);
      }
    }
  }
}
