/// Boundary-tag codec of the explicit-free-list allocator (Allocator/mm.c).
///
/// Memory words are `size_t` values; they are modelled as non-negative
/// integers.  The source's masks keep or clear low bits:
///   x & ~0xF  ==  x rounded down to a multiple of 16      x & 0x1  ==  x % 2
/// GetSize and GetAlloc compute these by repeated subtraction, which the
/// solver unfolds one step at a time; SizeMask and AllocMask give the closed
/// forms, and MaskModel checks the identities on 64-bit words.  PACK's
/// `size | alloc` is `size + alloc` because every call site passes a size whose
/// low four bits are clear and an alloc bit of 0 or 1.
module AllocatorCodec {

  /** ALIGNMENT: every block size is a multiple of this. */
  const ALIGNMENT: int := 16
  /** PAGE_OVERHEAD: padding word + prolog header + prolog footer + terminator. */
  const PAGE_OVERHEAD: int := 32
  /** ALLOC_GRANULARITY: the page-growth threshold is 100 times this. */
  const ALLOC_GRANULARITY: int := 4096
  /** sizeof(block_header) == sizeof(block_footer) == sizeof(size_t). */
  const WORD: int := 8
  /** OVERHEAD: header + footer. */
  const OVERHEAD: int := 16

  /** GET_SIZE of a word (`w & ~0xF`): the word with its low four bits cleared. */
  function GetSize(w: int): nat
    decreases w
  {
    if w < 16 then 0 else 16 + GetSize(w - 16)
  }

  /** GET_ALLOC of a word (`w & 0x1`): its lowest bit. */
  function GetAlloc(w: int): int
    decreases w
  {
    if w < 2 then (if w < 0 then 0 else w) else GetAlloc(w - 2)
  }

  /** Clearing the low four bits rounds down to a multiple of 16. */
  lemma {:induction false} SizeMask(w: int)
    requires w >= 0
    ensures GetSize(w) == w - w % 16
    ensures GetSize(w) % 16 == 0 && w - 16 < GetSize(w) <= w
    decreases w
  {
    if w >= 16 {
      SizeMask(w - 16);
    }
  }

  /** The lowest bit is the remainder modulo 2. */
  lemma {:induction false} AllocMask(w: int)
    requires w >= 0
    ensures GetAlloc(w) == w % 2
    decreases w
  {
    if w >= 2 {
      AllocMask(w - 2);
    }
  }

  /** ALIGN(size) = (size + 15) & ~15: the least multiple of 16 that is at least `size`. */
  function Align(size: nat): (r: nat)
    ensures r % ALIGNMENT == 0 && size <= r < size + ALIGNMENT
  {
    SizeMask(size + (ALIGNMENT - 1));
    GetSize(size + (ALIGNMENT - 1))
  }

  /** PAGE_ALIGN(size) for a page size `ps` (a power of two, so the mask form is a round-down). */
  function PageAlign(size: nat, ps: nat): (r: nat)
    requires ps > 0
    ensures r % ps == 0 && size <= r < size + ps
  {
    var x := size + (ps - 1);
    MultipleMod(x / ps, ps);
    assert x - x % ps == (x / ps) * ps;
    x - x % ps
  }

  /** A multiple of `d` leaves no remainder. */
  lemma MultipleMod(q: nat, d: nat)
    requires d > 0
    ensures (q * d) % d == 0
  {
    DivMod(q * d, d, q, 0);
  }

  /** Multiplying by a positive number keeps the sign and at least the magnitude. */
  lemma {:induction false} MulSign(d: int, a: int)
    requires d > 0
    ensures a >= 1 ==> d * a >= d
    ensures a <= -1 ==> d * a <= -d
    decreases if a < 0 then -a else a
  {
    if a > 1 {
      MulSign(d, a - 1);
    } else if a < -1 {
      MulSign(d, a + 1);
    }
  }

  /** PACK(size, alloc) = size | alloc. */
  function Pack(size: nat, alloc: nat): nat
  {
    size + alloc
  }

  /** GET(p): the word at address `p`; words never written read as 0. */
  function Get(mem: map<int, int>, p: int): int
  {
    if p in mem then mem[p] else 0
  }

  // The navigation macros below write WORD (8) and OVERHEAD (16) as literals,
  // so that the solver sees the same address terms as in the invariants.

  /** HDRP(bp): the header of the block whose payload starts at `bp`. */
  function Hdrp(bp: int): int
  {
    bp - 8
  }

  /** FTRP(bp): the footer, found from the size in the header. */
  function Ftrp(mem: map<int, int>, bp: int): int
  {
    bp + GetSize(Get(mem, bp - 8)) - 16
  }

  /** NEXT_BLKP(bp): the payload of the block that follows in memory. */
  function NextBlkp(mem: map<int, int>, bp: int): int
  {
    bp + GetSize(Get(mem, bp - 8))
  }

  /** PREV_BLKP(bp): the payload of the block before, found from its footer. */
  function PrevBlkp(mem: map<int, int>, bp: int): int
  {
    bp - GetSize(Get(mem, bp - 16))
  }

  /** Decoding a packed tag gives back the size and the allocated bit. */
  lemma PackUnpack(size: nat, alloc: nat)
    requires size % ALIGNMENT == 0 && alloc <= 1
    ensures GetSize(Pack(size, alloc)) == size
    ensures GetAlloc(Pack(size, alloc)) == alloc
  {
    var k := size / 16;
    DivMod(size + alloc, 16, k, alloc);
    DivMod(size + alloc, 2, 8 * k, alloc);
    SizeMask(size + alloc);
    AllocMask(size + alloc);
  }

  /** The block size mm_malloc asks for: at least the smallest block, and aligned. */
  lemma RequestShape(size: nat)
    requires size >= 1
    ensures Align(size + OVERHEAD) >= 32 && Align(size + OVERHEAD) % ALIGNMENT == 0
  {
    var r := Align(size + OVERHEAD);
    DivMod(r, 16, r / 16, 0);
  }

  /** Sums of multiples of 16 are multiples of 16. */
  lemma AlignedSum(a: int, b: int)
    requires a % ALIGNMENT == 0 && b % ALIGNMENT == 0
    ensures (a + b) % ALIGNMENT == 0
  {
    DivMod(a + b, 16, a / 16 + b / 16, 0);
  }

  /** Differences of multiples of 16 are multiples of 16. */
  lemma AlignedDiff(a: int, b: int)
    requires a % ALIGNMENT == 0 && b % ALIGNMENT == 0
    ensures (a - b) % ALIGNMENT == 0
  {
    DivMod(a - b, 16, a / 16 - b / 16, 0);
  }

  /** Euclidean division is determined by quotient and remainder. */
  lemma DivMod(x: int, d: int, q: int, r: int)
    requires d > 0 && 0 <= r < d && x == d * q + r
    ensures x / d == q && x % d == r
  {
    var q', r' := x / d, x % d;
    assert d * (q - q') == r' - r;
    MulSign(d, q - q');
  }

  /** The arithmetic forms above agree with the source's bit operations on 64-bit words. */
  lemma MaskModel(w: bv64, size: bv64, alloc: bv64)
    requires size & 15 == 0 && alloc <= 1
    ensures w & !15 == w - w % 16
    ensures w & 1 == w % 2
    ensures size | alloc == size + alloc
  {
  }

  /** PAGE_ALIGN's mask `& ~(ps - 1)` is PageAlign's round-down `x - x % ps` on 64-bit words, for the smallest page
    * size the page provider reports, ALLOC_GRANULARITY. */
  lemma PageMaskModel(x: bv64)
    ensures x & !4095 == x - x % 4096
  {
  }

  /** Powers of two, for the page size reported by the page provider. */
  ghost predicate PowerOfTwo(n: nat)
    decreases n
  {
    n == 1 || (n > 1 && n % 2 == 0 && PowerOfTwo(n / 2))
  }

  /** A power of two of at least 16 is a multiple of the alignment. */
  lemma {:induction false} PowerOfTwoAligned(n: nat)
    requires PowerOfTwo(n) && n >= 16
    ensures n % ALIGNMENT == 0
    decreases n
  {
    if n > 16 {
      if n / 2 >= 16 {
        PowerOfTwoAligned(n / 2);
      } else {
        SmallPowersOfTwo(n / 2);
      }
    }
  }

  /** The powers of two below 16. */
  lemma {:induction false} SmallPowersOfTwo(m: nat)
    requires PowerOfTwo(m) && m < 16
    ensures m == 1 || m == 2 || m == 4 || m == 8
    decreases m
  {
    if m != 1 {
      SmallPowersOfTwo(m / 2);
    }
  }
}
