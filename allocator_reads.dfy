/// What the allocator of Allocator/mm.c learns from the words it reads: a
/// block's header gives its size and allocated bit, NEXT_BLKP and PREV_BLKP
/// reach the neighbours (the prolog and terminator read as allocated), and
/// mm_free's whole-page test looks at the words around a block.
module AllocatorReads {
  import opened AllocatorCodec
  import opened AllocatorHeap
  import opened AllocatorBlocks
  import opened AllocatorPages
  import opened AllocatorListed

  /** The allocated bit as a word bit. */
  function Bit(b: bool): int
  {
    if b then 1 else 0
  }

  /** A block's header gives its size and allocated bit; FTRP and NEXT_BLKP find its footer and its successor. */
  lemma HeaderRead(m: map<int, int>, blocks: map<int, Block>, x: int)
    requires TagsOk(m, blocks) && x in blocks && blocks[x].size % 16 == 0
    ensures GetSize(Get(m, x - 8)) == blocks[x].size
    ensures GetAlloc(Get(m, x - 8)) == Bit(blocks[x].isAllocated)
    ensures Ftrp(m, x) == x + blocks[x].size - 16
    ensures NextBlkp(m, x) == x + blocks[x].size
  {
    TagSize(Get(m, x - 8), blocks[x]);
    TagAlloc(Get(m, x - 8), blocks[x]);
  }

  /** Block `p` is free and ends where `x` starts. */
  ghost predicate FreeBefore(blocks: map<int, Block>, x: int, p: int)
  {
    p in blocks && p + blocks[p].size == x && !blocks[p].isAllocated
  }

  /** Nothing ends where a page's first block starts. */
  lemma FirstHasNoPred(pages: map<int, int>, blocks: map<int, Block>, x: int)
    requires PagesDisjoint(pages) && Placed(pages, blocks) && Big(blocks)
    requires x in blocks && x == blocks[x].page + 32
    ensures forall y :: y in blocks ==> y + blocks[y].size != x
  {
    assert InPage(pages, x, blocks[x]);
    forall y | y in blocks
      ensures y + blocks[y].size != x
    {
      assert InPage(pages, y, blocks[y]);
      PageOrder(pages, blocks[x].page, blocks[y].page);
      PageOrder(pages, blocks[y].page, blocks[x].page);
    }
  }

  /** Only one block ends where `x` starts. */
  lemma OnePred(blocks: map<int, Block>, x: int, p: int)
    requires Disjoint(blocks) && Big(blocks) && p in blocks && p + blocks[p].size == x
    ensures forall y :: y in blocks && y + blocks[y].size == x ==> y == p
  {
    forall y | y in blocks && y + blocks[y].size == x
      ensures y == p
    {
      BlockOrder(blocks, y, p);
      BlockOrder(blocks, p, y);
    }
  }

  /** coalesce's `pre_alloc`: the header before PREV_BLKP(x) reads free iff a free block ends at x, and then PREV_BLKP(x) is that block. */
  lemma PrevRead(m: map<int, int>, pages: map<int, int>, blocks: map<int, Block>, x: int)
    requires Core(m, pages, blocks) && x in blocks
    ensures GetAlloc(Get(m, PrevBlkp(m, x) - 8)) == 0 <==> FreeBefore(blocks, x, PrevBlkp(m, x))
    ensures GetAlloc(Get(m, PrevBlkp(m, x) - 8)) != 0 ==> NoFreeBefore(blocks, x)
    ensures FreeBefore(blocks, x, PrevBlkp(m, x)) ==> GetSize(Get(m, PrevBlkp(m, x) - 8)) == blocks[PrevBlkp(m, x)].size
  {
    LayoutOf(pages, blocks);
    SizedOf(pages, blocks);
    var p := PrevBlkp(m, x);
    if x == blocks[x].page + 32 {
      var pg := blocks[x].page;
      assert InPage(pages, x, blocks[x]);
      assert Get(m, pg + 16) == Pack(16, 1) && Get(m, pg + 8) == Pack(16, 1);
      PackUnpack(16, 1);
      assert p == pg + 16;
      FirstHasNoPred(pages, blocks, x);
    } else {
      assert p in blocks && p + blocks[p].size == x;
      HeaderRead(m, blocks, p);
      OnePred(blocks, x, p);
    }
  }

  /** coalesce's `next_alloc`: the header at NEXT_BLKP(x) reads free iff the block after x is free. */
  lemma NextRead(m: map<int, int>, pages: map<int, int>, blocks: map<int, Block>, x: int)
    requires Core(m, pages, blocks) && x in blocks
    ensures NextBlkp(m, x) == x + blocks[x].size
    ensures GetAlloc(Get(m, NextBlkp(m, x) - 8)) == 0 <==> (x + blocks[x].size in blocks && !blocks[x + blocks[x].size].isAllocated)
    ensures GetAlloc(Get(m, NextBlkp(m, x) - 8)) != 0 ==> AllocatedAfter(blocks, x)
    ensures GetAlloc(Get(m, NextBlkp(m, x) - 8)) == 0 ==> HasNext(blocks, x)
    ensures x + blocks[x].size in blocks ==> GetSize(Get(m, NextBlkp(m, x) - 8)) == blocks[x + blocks[x].size].size
  {
    LayoutOf(pages, blocks);
    SizedOf(pages, blocks);
    HeaderRead(m, blocks, x);
    var n := x + blocks[x].size;
    if n in blocks {
      HeaderRead(m, blocks, n);
      NextSamePage(pages, blocks, x);
    } else {
      assert n == PageEnd(pages, blocks[x]);
      assert InPage(pages, x, blocks[x]);
      PackUnpack(0, 1);
    }
  }

  // ---------------------------------------------------------------------------
  // mm_free's whole-page test
  // ---------------------------------------------------------------------------

  /** The whole-page test with the prolog read from the footer word just before x's header. */
  function WholePage(m: map<int, int>, x: int): bool
  {
    GetSize(Get(m, x - 16)) == 16 && GetSize(Get(m, Ftrp(m, x) + 8)) == 0
  }

  /** The whole-page test as Allocator/mm.c writes it: the prolog is looked for three words before the payload,
    * which is the prolog header when x is its page's first block, and otherwise the last payload word of the
    * block before x (see AllocatorFindings.WholePageMisfire). */
  function WholePageAsWritten(m: map<int, int>, x: int): bool
  {
    GetSize(Get(m, x - 24)) == 16 && GetSize(Get(m, Ftrp(m, x) + 8)) == 0
  }

  /** The word before x's header has size 16 iff x is its page's first block. */
  lemma PrologTest(m: map<int, int>, pages: map<int, int>, blocks: map<int, Block>, x: int)
    requires Core(m, pages, blocks) && x in blocks
    ensures GetSize(Get(m, x - 16)) == 16 <==> x == blocks[x].page + 32
  {
    SizedOf(pages, blocks);
    if x == blocks[x].page + 32 {
      assert InPage(pages, x, blocks[x]);
      PackUnpack(16, 1);
    } else {
      var p := PrevBlkp(m, x);
      assert p in blocks && p + blocks[p].size == x;
      assert Shaped(p, blocks[p]);
      TagSize(Get(m, x - 16), blocks[p]);
    }
  }

  /** The word after x's footer has size 0 iff x is its page's last block. */
  lemma TerminatorTest(m: map<int, int>, pages: map<int, int>, blocks: map<int, Block>, x: int)
    requires Core(m, pages, blocks) && x in blocks
    ensures GetSize(Get(m, Ftrp(m, x) + 8)) == 0 <==> x + blocks[x].size == PageEnd(pages, blocks[x])
  {
    LayoutOf(pages, blocks);
    SizedOf(pages, blocks);
    HeaderRead(m, blocks, x);
    var n := x + blocks[x].size;
    assert InPage(pages, x, blocks[x]);
    if n == PageEnd(pages, blocks[x]) {
      PackUnpack(0, 1);
    } else {
      assert n in blocks && Shaped(n, blocks[n]);
      TagSize(Get(m, n - 8), blocks[n]);
    }
  }

  /** The blocks on which the test as written misfires: the last block of its page but not the first, with size 16 in
    * the word three words before its payload, which is then the last payload word of the block before. */
  ghost predicate Misfires(m: map<int, int>, pages: map<int, int>, blocks: map<int, Block>, x: int)
    requires x in blocks
  {
    x != blocks[x].page + 32 && GetSize(Get(m, x - 24)) == 16 && x + blocks[x].size == PageEnd(pages, blocks[x])
  }

  /** The test as written holds iff x fills its page or it misfires on x; so it never misses a wholly free page, and
    * it is exact when x is its page's first block or the word it reads does not have size 16. */
  lemma WholePageAsWrittenExact(m: map<int, int>, pages: map<int, int>, blocks: map<int, Block>, x: int)
    requires Core(m, pages, blocks) && x in blocks
    ensures WholePageAsWritten(m, x) <==> FillsPage(pages, blocks, x) || Misfires(m, pages, blocks, x)
    ensures WholePage(m, x) ==> WholePageAsWritten(m, x)
    ensures x == blocks[x].page + 32 || GetSize(Get(m, x - 24)) != 16 ==> (WholePageAsWritten(m, x) <==> WholePage(m, x))
  {
    TerminatorTest(m, pages, blocks, x);
    WholePageExact(m, pages, blocks, x);
    if x == blocks[x].page + 32 {
      assert InPage(pages, x, blocks[x]);
      assert Get(m, x - 24) == Pack(16, 1);
      PackUnpack(16, 1);
    }
  }

  /** mm_free's whole-page test, reading the word before x's header, holds iff x fills its page. */
  lemma WholePageExact(m: map<int, int>, pages: map<int, int>, blocks: map<int, Block>, x: int)
    requires Core(m, pages, blocks) && x in blocks
    ensures WholePage(m, x) <==> FillsPage(pages, blocks, x)
  {
    PrologTest(m, pages, blocks, x);
    TerminatorTest(m, pages, blocks, x);
  }
}
