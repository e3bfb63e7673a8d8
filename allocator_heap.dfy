/// The shape of the allocator's heap (Allocator/mm.c), as ghost values, and
/// the invariants that tie it to the words in memory.
///
/// A heap is a set of pages obtained from the page provider.  Each page is laid
/// out as
///     base + 0        padding word (0)
///     base + 8        prolog header   PACK(16, 1)
///     base + 16       prolog footer   PACK(16, 1)
///     base + 24 ...   blocks, each a header, a payload and a footer
///     base + S - 8    terminator      PACK(0, 1)
/// Blocks are named by their payload address `bp`, as in the source: the header
/// is at bp - 8 and the footer at bp + size - 16.  A free block's payload holds
/// the free-list links: `pre` at bp and `next` at bp + 8.
module AllocatorHeap {
  import opened AllocatorCodec

  /** A block: its size (header and footer included), its allocated bit and the base of its page. */
  datatype Block = Block(size: nat, isAllocated: bool, page: int)

  /** The word a block's header and footer both carry. */
  function Tag(b: Block): nat
  {
    Pack(b.size, if b.isAllocated then 1 else 0)
  }

  // ---------------------------------------------------------------------------
  // Invariants
  // ---------------------------------------------------------------------------

  /** Pages are 16-aligned, non-null, large enough for a prolog, a block and a terminator, and disjoint. */
  ghost predicate PagesOk(pages: map<int, int>)
  {
    PagesShaped(pages) && PagesDisjoint(pages)
  }

  /** Each page is non-null, 16-aligned, a multiple of 16 long and at least 64 bytes long. */
  ghost predicate PagesShaped(pages: map<int, int>)
  {
    forall b :: b in pages ==> b > 0 && b % 16 == 0 && pages[b] % 16 == 0 && pages[b] >= 64
  }

  /** Pages do not overlap. */
  ghost predicate PagesDisjoint(pages: map<int, int>)
  {
    forall b1, b2 :: b1 in pages && b2 in pages && b1 < b2 ==> b1 + pages[b1] <= b2
  }

  /** Block `bp` lies between its page's prolog and terminator. */
  ghost predicate InPage(pages: map<int, int>, bp: int, blk: Block)
  {
    && blk.page in pages
    && blk.page + 32 <= bp
    && bp + blk.size <= blk.page + pages[blk.page]
  }

  /** A block has an aligned payload and a size that is a multiple of 16 and holds a header, two links and a footer. */
  ghost predicate Shaped(bp: int, blk: Block)
  {
    bp % 16 == 0 && blk.size % 16 == 0 && blk.size >= 32
  }

  /** Blocks lie in pages, are well shaped, do not overlap, and every page starts with a block right after its prolog. */
  ghost predicate BlocksOk(pages: map<int, int>, blocks: map<int, Block>)
  {
    && Placed(pages, blocks)
    && (forall bp :: bp in blocks ==> Shaped(bp, blocks[bp]))
    && Disjoint(blocks)
    && FirstBlocks(pages, blocks)
  }

  /** Every block lies in its page. */
  ghost predicate Placed(pages: map<int, int>, blocks: map<int, Block>)
  {
    forall bp :: bp in blocks ==> InPage(pages, bp, blocks[bp])
  }

  /** Block `p` ends before block `q` starts when it starts first. */
  ghost predicate Apart(blocks: map<int, Block>, p: int, q: int)
  {
    p in blocks && q in blocks && p < q ==> p + blocks[p].size <= q
  }

  /** Blocks do not overlap.
    * (Instantiated only where Apart is mentioned: a trigger on every pair of blocks makes the solver split on their order.) */
  ghost predicate Disjoint(blocks: map<int, Block>)
  {
    forall p, q {:trigger Apart(blocks, p, q)} :: Apart(blocks, p, q)
  }

  /** Every page's first block starts right after its prolog. */
  ghost predicate FirstBlocks(pages: map<int, int>, blocks: map<int, Block>)
  {
    forall b :: b in pages ==> b + 32 in blocks && blocks[b + 32].page == b
  }

  /** Every block is at least 32 bytes long. */
  ghost predicate Big(blocks: map<int, Block>)
  {
    forall bp :: bp in blocks ==> blocks[bp].size >= 32
  }

  /** Where pages and blocks lie: all that the frame lemmas below need. */
  ghost predicate Layout(pages: map<int, int>, blocks: map<int, Block>)
  {
    && PagesDisjoint(pages)
    && (forall b :: b in pages ==> pages[b] >= 64)
    && Placed(pages, blocks)
    && Disjoint(blocks)
    && Big(blocks)
  }

  /** The layout facts follow from the invariants. */
  lemma LayoutOf(pages: map<int, int>, blocks: map<int, Block>)
    requires PagesOk(pages) && BlocksOk(pages, blocks)
    ensures Layout(pages, blocks)
  {
    forall bp | bp in blocks
      ensures blocks[bp].size >= 32
    {
      assert Shaped(bp, blocks[bp]);
    }
  }

  /** Header and footer of every block carry its size and allocated bit. */
  ghost predicate TagsOk(mem: map<int, int>, blocks: map<int, Block>)
  {
    forall bp :: bp in blocks ==>
      Get(mem, bp - 8) == Tag(blocks[bp]) && Get(mem, bp + blocks[bp].size - 16) == Tag(blocks[bp])
  }

  /** Every page has its prolog header and footer PACK(16,1) and its terminator PACK(0,1). */
  ghost predicate FramesOk(mem: map<int, int>, pages: map<int, int>)
  {
    forall b :: b in pages ==>
      && Get(mem, b + 8) == Pack(16, 1)
      && Get(mem, b + 16) == Pack(16, 1)
      && Get(mem, b + pages[b] - 8) == Pack(0, 1)
  }

  /** The end of a block's page: where its terminator's payload would be. */
  function PageEnd(pages: map<int, int>, blk: Block): int
  {
    if blk.page in pages then blk.page + pages[blk.page] else 0
  }

  /** What follows a block is another block or its page's terminator. */
  ghost predicate NextOk(pages: map<int, int>, blocks: map<int, Block>)
  {
    forall bp :: bp in blocks ==>
      bp + blocks[bp].size in blocks || bp + blocks[bp].size == PageEnd(pages, blocks[bp])
  }

  /** What precedes a block is its page's prolog, or the block PREV_BLKP finds from the footer before it.
    * (Instantiated only where PREV_BLKP(bp) is mentioned: any wider trigger walks backwards through the heap.) */
  ghost predicate PrevOk(mem: map<int, int>, blocks: map<int, Block>)
  {
    forall bp {:trigger PrevBlkp(mem, bp)} :: bp in blocks ==>
      || bp == blocks[bp].page + 32
      || (PrevBlkp(mem, bp) in blocks && PrevBlkp(mem, bp) + blocks[PrevBlkp(mem, bp)].size == bp)
  }

  /** The boundary-tag structure of all pages. */
  ghost predicate Core(mem: map<int, int>, pages: map<int, int>, blocks: map<int, Block>)
  {
    && PagesOk(pages)
    && BlocksOk(pages, blocks)
    && TagsOk(mem, blocks)
    && FramesOk(mem, pages)
    && NextOk(pages, blocks)
    && PrevOk(mem, blocks)
  }

  /** The free list: `head` is its first node, nodes are distinct, aligned, and linked both ways through `pre` and `next`. */
  ghost predicate ListOk(mem: map<int, int>, head: int, fl: seq<int>)
  {
    && head == (if fl == [] then 0 else fl[0])
    && (forall i, j :: 0 <= i < j < |fl| ==> fl[i] != fl[j])
    && (forall i :: 0 <= i < |fl| ==> fl[i] > 0 && fl[i] % 16 == 0)
    && (forall i :: 0 <= i < |fl| ==> Get(mem, fl[i]) == (if i == 0 then 0 else fl[i - 1]))
    && (forall i :: 0 <= i < |fl| ==> Get(mem, fl[i] + 8) == (if i == |fl| - 1 then 0 else fl[i + 1]))
  }

  /** Every list node is a block. */
  ghost predicate NodesAreBlocks(blocks: map<int, Block>, fl: seq<int>)
  {
    forall i :: 0 <= i < |fl| ==> fl[i] in blocks
  }

  /** A block is in the list iff it is free, except the blocks in `skip` (free, and not yet listed). */
  ghost predicate Listed(blocks: map<int, Block>, fl: seq<int>, skip: set<int>)
  {
    && (forall i :: 0 <= i < |fl| ==> fl[i] in blocks && !blocks[fl[i]].isAllocated && fl[i] !in skip)
    && (forall bp :: bp in blocks && !blocks[bp].isAllocated && bp !in skip ==> bp in fl)
  }

  /** Block `bp` and the block right after it are both free, and neither is in `skip`. */
  ghost predicate FreePair(blocks: map<int, Block>, skip: set<int>, bp: int)
  {
    && bp in blocks && bp !in skip && !blocks[bp].isAllocated
    && bp + blocks[bp].size in blocks && bp + blocks[bp].size !in skip
    && !blocks[bp + blocks[bp].size].isAllocated
  }

  /** No two neighbouring blocks are both free, leaving out the blocks in `skip`.
    * (Instantiated only where FreePair is mentioned: a wider trigger pairs every block with every other.) */
  ghost predicate NoAdjacentFree(blocks: map<int, Block>, skip: set<int>)
  {
    forall bp {:trigger FreePair(blocks, skip, bp)} :: !FreePair(blocks, skip, bp)
  }

  /** The whole heap invariant. */
  ghost predicate HeapOk(mem: map<int, int>, head: int, pages: map<int, int>, blocks: map<int, Block>, fl: seq<int>)
  {
    && Core(mem, pages, blocks)
    && ListOk(mem, head, fl)
    && Listed(blocks, fl, {})
    && NoAdjacentFree(blocks, {})
  }

  // ---------------------------------------------------------------------------
  // Frames: which words the invariants read
  // ---------------------------------------------------------------------------

  /** `m2` agrees with `m1` on every header, footer, prolog and terminator word. */
  ghost predicate SameControl(m1: map<int, int>, m2: map<int, int>, pages: map<int, int>, blocks: map<int, Block>)
  {
    SameTags(m1, m2, blocks) && SameFrames(m1, m2, pages)
  }

  /** `m2` agrees with `m1` on the link words of every list node. */
  ghost predicate SameLinks(m1: map<int, int>, m2: map<int, int>, fl: seq<int>)
  {
    forall i :: 0 <= i < |fl| ==> Get(m2, fl[i]) == Get(m1, fl[i]) && Get(m2, fl[i] + 8) == Get(m1, fl[i] + 8)
  }

  /** `m2` agrees with `m1` on every header and footer word. */
  ghost predicate SameTags(m1: map<int, int>, m2: map<int, int>, blocks: map<int, Block>)
  {
    forall bp :: bp in blocks ==>
      Get(m2, bp - 8) == Get(m1, bp - 8) && Get(m2, bp + blocks[bp].size - 16) == Get(m1, bp + blocks[bp].size - 16)
  }

  /** `m2` agrees with `m1` on every prolog and terminator word. */
  ghost predicate SameFrames(m1: map<int, int>, m2: map<int, int>, pages: map<int, int>)
  {
    forall b :: b in pages ==>
      Get(m2, b + 8) == Get(m1, b + 8) && Get(m2, b + 16) == Get(m1, b + 16)
      && Get(m2, b + pages[b] - 8) == Get(m1, b + pages[b] - 8)
  }

  /** The boundary-tag structure depends only on the control words. */
  lemma ControlFrame(m1: map<int, int>, m2: map<int, int>, pages: map<int, int>, blocks: map<int, Block>)
    requires Core(m1, pages, blocks) && SameControl(m1, m2, pages, blocks)
    ensures Core(m2, pages, blocks)
  {
    PrevFrame(m1, m2, blocks);
  }

  /** PREV_BLKP reads only footers. */
  lemma PrevFrame(m1: map<int, int>, m2: map<int, int>, blocks: map<int, Block>)
    requires PrevOk(m1, blocks) && SameTags(m1, m2, blocks)
    ensures PrevOk(m2, blocks)
  {
    forall bp | bp in blocks
      ensures || bp == blocks[bp].page + 32
              || (PrevBlkp(m2, bp) in blocks && PrevBlkp(m2, bp) + blocks[PrevBlkp(m2, bp)].size == bp)
    {
      if bp != blocks[bp].page + 32 {
        var p := PrevBlkp(m1, bp);
        assert p in blocks && p + blocks[p].size == bp;
        assert Get(m2, p + blocks[p].size - 16) == Get(m1, p + blocks[p].size - 16);
        assert PrevBlkp(m2, bp) == p;
      }
    }
  }

  /** The free list depends only on its nodes' link words. */
  lemma LinksFrame(m1: map<int, int>, m2: map<int, int>, head: int, fl: seq<int>)
    requires ListOk(m1, head, fl) && SameLinks(m1, m2, fl)
    ensures ListOk(m2, head, fl)
  {
  }

  /** Reading a word other than the one written. */
  lemma GetOther(m: map<int, int>, a: int, v: int, p: int)
    requires p != a
    ensures Get(m[a := v], p) == Get(m, p)
  {
  }

  /** A write strictly inside a block's payload leaves every control word alone. */
  lemma PayloadWrite(m: map<int, int>, pages: map<int, int>, blocks: map<int, Block>, x: int, a: int, v: int)
    requires Layout(pages, blocks)
    requires x in blocks && x <= a < x + blocks[x].size - 16
    ensures SameControl(m, m[a := v], pages, blocks)
  {
    assert InPage(pages, x, blocks[x]);
    PayloadWriteTags(m, blocks, x, a, v);
    PayloadWriteFrames(m, pages, blocks[x].page, a, v);
  }

  /** A write anywhere in block x's span, header to footer, leaves the control words of every other block and of every page alone. */
  lemma RegionWrite(m: map<int, int>, pages: map<int, int>, blocks: map<int, Block>, x: int, a: int, v: int)
    requires Layout(pages, blocks)
    requires x in blocks && x - 8 <= a < x + blocks[x].size - 8
    ensures SameControl(m, m[a := v], pages, blocks - {x})
  {
    assert InPage(pages, x, blocks[x]);
    RegionWriteTags(m, blocks, x, a, v);
    PayloadWriteFrames(m, pages, blocks[x].page, a, v);
  }

  /** No header or footer of a block other than `x` lies in the span of `x`. */
  lemma RegionWriteTags(m: map<int, int>, blocks: map<int, Block>, x: int, a: int, v: int)
    requires Disjoint(blocks) && Big(blocks)
    requires x in blocks && x - 8 <= a < x + blocks[x].size - 8
    ensures SameTags(m, m[a := v], blocks - {x})
  {
    forall bp | bp in blocks - {x}
      ensures Get(m[a := v], bp - 8) == Get(m, bp - 8)
      ensures Get(m[a := v], bp + blocks[bp].size - 16) == Get(m, bp + blocks[bp].size - 16)
    {
      if bp < x {
        assert Apart(blocks, bp, x);
      } else {
        assert Apart(blocks, x, bp);
      }
      GetOther(m, a, v, bp - 8);
      GetOther(m, a, v, bp + blocks[bp].size - 16);
    }
  }

  /** SameControl composes. */
  lemma ControlTrans(m1: map<int, int>, m2: map<int, int>, m3: map<int, int>, pages: map<int, int>, blocks: map<int, Block>)
    requires SameControl(m1, m2, pages, blocks) && SameControl(m2, m3, pages, blocks)
    ensures SameControl(m1, m3, pages, blocks)
  {
  }

  /** No header or footer lies inside the payload of block `x`. */
  lemma PayloadWriteTags(m: map<int, int>, blocks: map<int, Block>, x: int, a: int, v: int)
    requires Disjoint(blocks) && Big(blocks)
    requires x in blocks && x <= a < x + blocks[x].size - 16
    ensures SameTags(m, m[a := v], blocks)
  {
    forall bp | bp in blocks
      ensures Get(m[a := v], bp - 8) == Get(m, bp - 8)
      ensures Get(m[a := v], bp + blocks[bp].size - 16) == Get(m, bp + blocks[bp].size - 16)
    {
      PayloadWriteBlock(m, blocks, x, a, v, bp);
    }
  }

  /** No prolog or terminator lies inside the interior of page `c`. */
  lemma PayloadWriteFrames(m: map<int, int>, pages: map<int, int>, c: int, a: int, v: int)
    requires PagesDisjoint(pages) && (forall b :: b in pages ==> pages[b] >= 64)
    requires c in pages && c + 24 <= a < c + pages[c] - 8
    ensures SameFrames(m, m[a := v], pages)
  {
    forall b | b in pages
      ensures Get(m[a := v], b + 8) == Get(m, b + 8) && Get(m[a := v], b + 16) == Get(m, b + 16)
      ensures Get(m[a := v], b + pages[b] - 8) == Get(m, b + pages[b] - 8)
    {
      PayloadWritePage(m, pages, c, a, v, b);
    }
  }

  /** The header and footer of block `bp` are outside the payload of block `x`. */
  lemma PayloadWriteBlock(m: map<int, int>, blocks: map<int, Block>, x: int, a: int, v: int, bp: int)
    requires Disjoint(blocks)
    requires x in blocks && x <= a < x + blocks[x].size - 16
    requires bp in blocks && blocks[bp].size >= 32
    ensures Get(m[a := v], bp - 8) == Get(m, bp - 8)
    ensures Get(m[a := v], bp + blocks[bp].size - 16) == Get(m, bp + blocks[bp].size - 16)
  {
    if bp < x {
      assert Apart(blocks, bp, x);
    } else if bp > x {
      assert Apart(blocks, x, bp);
    }
    GetOther(m, a, v, bp - 8);
    GetOther(m, a, v, bp + blocks[bp].size - 16);
  }

  /** The prolog and terminator of page `b` are outside the interior of page `c`. */
  lemma PayloadWritePage(m: map<int, int>, pages: map<int, int>, c: int, a: int, v: int, b: int)
    requires PagesDisjoint(pages)
    requires c in pages && c + 24 <= a < c + pages[c] - 8
    requires b in pages && pages[b] >= 64
    ensures Get(m[a := v], b + 8) == Get(m, b + 8) && Get(m[a := v], b + 16) == Get(m, b + 16)
    ensures Get(m[a := v], b + pages[b] - 8) == Get(m, b + pages[b] - 8)
  {
    if b < c {
      assert b + pages[b] <= c;
    } else if b > c {
      assert c + pages[c] <= b;
    }
    GetOther(m, a, v, b + 8);
    GetOther(m, a, v, b + 16);
    GetOther(m, a, v, b + pages[b] - 8);
  }
}
