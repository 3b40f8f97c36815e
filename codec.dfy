/**
 * Boundary-tag codec of the explicit free-list allocator (mm.c:40-81).
 *
 * A tag is one 32-bit word holding a block's size (a multiple of 8) in its
 * upper bits and the allocated flag in bit 0.  The header tag sits one word
 * before the payload pointer `bp`, the footer tag right after the payload,
 * at `bp + size`; a block therefore occupies `size + 8` bytes.
 *
 * Words are modelled as integers.  The C macros use bitwise operators on
 * `unsigned int` and `size_t`; the lemmas at the end of this module show,
 * on 32- and 64-bit bit-vectors, that each mask or `|` equals the
 * remainder arithmetic the integer functions below are written with.
 */
module Codec {
  const WSIZE := 4                                   // one tag word
  const ALIGNMENT := 8                               // payload alignment, one link word
  const MinBlock := 16                               // room for the prev and next links
  const WordLimit := 0x1_0000_0000                   // values of `unsigned int`
  const SizeLimit := 0x1_0000_0000_0000_0000         // values of `size_t`

  /** A byte count a caller may pass: a value of `size_t`. */
  type SizeT = n: int | 0 <= n < SizeLimit

  /** ALIGN(size) exactly as the macro computes it on `size_t`: the sum wraps. */
  function AlignAsWritten(n: SizeT): (a: int)
  {
    var t := (n + (ALIGNMENT - 1)) % SizeLimit;
    t - t % 8
  }

  /** ALIGN(size) without wrap-around: the least multiple of 8 not below n. */
  function Align(n: nat): (r: nat)
    ensures r % 8 == 0
    ensures n <= r < n + ALIGNMENT
  {
    (n + (ALIGNMENT - 1)) - (n + (ALIGNMENT - 1)) % 8
  }

  /** The block size malloc asks for (mm.c:275-276) and extend_heap
      re-derives (mm.c:170-172): ALIGN(n), raised to 16. */
  function AdjustedSize(n: nat): (asize: nat)
    ensures asize % 8 == 0 && MinBlock <= asize
    ensures n <= asize
    ensures asize < n + ALIGNMENT || asize == MinBlock
  {
    var a := Align(n);
    if a < MinBlock then MinBlock else a
  }

  /** The same computation with the wrapping ALIGN of the source. */
  function AdjustedSizeAsWritten(n: SizeT): (asize: int)
  {
    var a := AlignAsWritten(n);
    if a < MinBlock then MinBlock else a
  }

  /** PACK(size, alloc) (mm.c:69); the callers always pass a size that is a
      multiple of 8 and an allocated flag of 0 or 1, so `|` is `+`. */
  function Pack(size: int, alloc: int): (w: int)
    requires size % 8 == 0 && 0 <= alloc <= 1
  {
    size + alloc
  }

  /** GET_SIZE: the word with its low three bits cleared (mm.c:61). */
  function GetSize(w: int): (size: int)
  {
    w - w % 8
  }

  /** GET_ALLOC: bit 0 of the word (mm.c:63). */
  function GetAlloc(w: int): (alloc: int)
  {
    w % 2
  }

  /** HDBP: the header sits one word before the payload (mm.c:71). */
  function Hdbp(bp: int): (hd: int) { bp - WSIZE }

  /** FTBP for a block whose header holds `size` (mm.c:73). */
  function Ftbp(bp: int, size: int): (ft: int) { bp + size }

  /** The payload of the following block (mm.c:130). */
  function NextBp(bp: int, size: int): (next: int) { bp + size + ALIGNMENT }

  /** The payload of the preceding block, found from its footer (mm.c:131). */
  function PrevBp(bp: int, prevSize: int): (prev: int) { bp - ALIGNMENT - prevSize }

  /** Tag round trip: decoding a packed tag gives back its size and flag. */
  lemma PackRoundTrip(size: int, alloc: int)
    requires size % 8 == 0 && 0 <= alloc <= 1
    ensures GetSize(Pack(size, alloc)) == size
    ensures GetAlloc(Pack(size, alloc)) == alloc
  {
    var q := size / 8;
    assert size == 8 * q;
    RemainderOf(size + alloc, 8, q, alloc);
    RemainderOf(size + alloc, 2, 4 * q, alloc);
  }

  /** w == d * q + r with 0 <= r < d makes r the remainder of w modulo d. */
  lemma RemainderOf(w: int, d: int, q: int, r: int)
    requires d == 8 || d == 2
    requires w == d * q + r && 0 <= r < d
    ensures w % d == r
  {
    if d == 8 {
      assert w == 8 * q + r;
    } else {
      assert w == 2 * q + r;
    }
  }

  /** Below the wrap point the macro and the integer form agree. */
  lemma AlignAsWrittenAgrees(n: SizeT)
    requires n <= SizeLimit - ALIGNMENT
    ensures AlignAsWritten(n) == Align(n)
  {
  }

  /** Near the top of `size_t` the macro wraps to 0, so malloc asks for a
      16-byte block for a request of almost 2^64 bytes. */
  lemma AlignWrapsNearLimit(n: SizeT)
    requires n > SizeLimit - ALIGNMENT
    ensures AlignAsWritten(n) == 0
    ensures AdjustedSizeAsWritten(n) == MinBlock < n
  {
  }

  /** The largest request, 2^64 - 1 bytes, is served by a 16-byte block. */
  lemma MaxRequestGetsMinBlock()
    ensures AdjustedSizeAsWritten(SizeLimit - 1) == MinBlock
    ensures AdjustedSize(SizeLimit - 1) == SizeLimit
  {
    AlignWrapsNearLimit(SizeLimit - 1);
  }

  /** On a 32-bit word, `size | alloc` is `size + alloc` when the low three
      bits of size are clear and alloc is 0 or 1. */
  lemma PackIsBitwiseOr(size: bv32, alloc: bv32)
    requires size & 7 == 0 && alloc <= 1
    ensures size | alloc == size + alloc
  {
  }

  /** On a 32-bit word, `w & ~0x7` (GET_SIZE) subtracts the remainder
      modulo 8 and `w & 0x1` (GET_ALLOC) is the remainder modulo 2, as
      GetSize and GetAlloc compute them. */
  lemma MasksAreRemainders(w: bv32)
    ensures w & !7 == w - w % 8
    ensures w & 1 == w % 2
  {
  }

  /** ALIGN on `size_t`: `(n + 7) & ~0x7` is the wrapped sum minus its
      remainder modulo 8, which is how AlignAsWritten computes it. */
  lemma AlignMaskIsRemainder(n: bv64)
    ensures (n + 7) & !7 == (n + 7) - (n + 7) % 8
  {
  }
}
