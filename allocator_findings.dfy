/// A heap on which mm_free's whole-page test, as Allocator/mm.c writes it,
/// misfires.  The test looks for the prolog three words before the payload of
/// the block coalesce returns.  That word is the prolog header only when the
/// block is its page's first; otherwise it is the last payload word of the
/// allocated block before it, which holds user data.  The model's mm_free uses
/// AllocatorReads.WholePage, which reads the word just before the header (the
/// prolog footer, or the previous block's footer) and is exact
/// (AllocatorReads.WholePageExact).
module AllocatorFindings {
  import opened AllocatorCodec
  import opened AllocatorHeap
  import opened AllocatorBlocks
  import opened AllocatorPages
  import opened AllocatorReads
  import opened AllocatorEffects

  /** One page of 8192 bytes at 4096: the first page extend maps when the page size is 4096 (`initial_page` 0). */
  const MisfirePages: map<int, int> := map[4096 := 8192]

  /** mm_malloc(16) splits the page's block into an allocated 32-byte block A at 4128 and a free block B of 8128
    * bytes at 4160, reaching the terminator; B is what a later mm_malloc(8112) takes whole and mm_free gives back. */
  const MisfireBlocks: map<int, Block> := map[4128 := Block(32, true, 4096), 4160 := Block(8128, false, 4096)]

  /** The words: prolog, A's tags, the value 16 stored by A's owner in A's last payload word, B's tags, the terminator. */
  const MisfireMem: map<int, int> :=
    map[4104 := 17, 4112 := 17, 4120 := 33, 4136 := 16, 4144 := 33, 4152 := 8128, 12272 := 8128, 12280 := 1]

  /** The boundary tags of the heap above are consistent. */
  lemma MisfireCore()
    ensures Core(MisfireMem, MisfirePages, MisfireBlocks)
  {
    MisfireBlocksOk();
    MisfireTags();
    MisfireNeighbours();
  }

  /** The page and the two blocks are well placed. */
  lemma MisfireBlocksOk()
    ensures PagesOk(MisfirePages) && BlocksOk(MisfirePages, MisfireBlocks)
  {
    var pages, blocks := MisfirePages, MisfireBlocks;
    forall p, q ensures Apart(blocks, p, q)
    {
    }
    forall bp | bp in blocks
      ensures InPage(pages, bp, blocks[bp]) && Shaped(bp, blocks[bp])
    {
    }
  }

  /** Every tag, prolog and terminator word is in place. */
  lemma MisfireTags()
    ensures TagsOk(MisfireMem, MisfireBlocks) && FramesOk(MisfireMem, MisfirePages)
  {
    var m, blocks := MisfireMem, MisfireBlocks;
    assert Get(m, 4120) == 33 && Get(m, 4144) == 33 && Get(m, 4152) == 8128 && Get(m, 12272) == 8128;
    assert Get(m, 4104) == 17 && Get(m, 4112) == 17 && Get(m, 12280) == 1;
  }

  /** Each block is followed by a block or the terminator, and preceded by the prolog or the block PREV_BLKP finds. */
  lemma MisfireNeighbours()
    ensures NextOk(MisfirePages, MisfireBlocks) && PrevOk(MisfireMem, MisfireBlocks)
  {
    var m, blocks := MisfireMem, MisfireBlocks;
    assert Get(m, 4144) == Tag(blocks[4128]);
    PrevVia(m, blocks, 4160, 4128);
    forall bp | bp in blocks
      ensures bp == blocks[bp].page + 32 || (PrevBlkp(m, bp) in blocks && PrevBlkp(m, bp) + blocks[PrevBlkp(m, bp)].size == bp)
    {
    }
  }

  /** B is the free list, and no two neighbours are free. */
  lemma MisfireList()
    ensures ListOk(MisfireMem, 4160, [4160]) && Listed(MisfireBlocks, [4160], {}) && NoAdjacentFree(MisfireBlocks, {})
  {
    var m, blocks := MisfireMem, MisfireBlocks;
    assert 4160 !in m && 4168 !in m;
    assert Get(m, 4160) == 0 && Get(m, 4168) == 0;
    forall bp ensures !FreePair(blocks, {}, bp)
    {
    }
  }

  /** The heap above is well formed with B as the only free-list node; the test as written says B fills its page,
    * yet B does not, so mm_free as written hands mem_unmap the span (4128, 8160), which starts at A's payload while A
    * is still allocated.  The test the model uses gives the right answer and releases nothing. */
  lemma WholePageMisfire()
    ensures HeapOk(MisfireMem, 4160, MisfirePages, MisfireBlocks, [4160])
    ensures WholePageAsWritten(MisfireMem, 4160)
    ensures !FillsPage(MisfirePages, MisfireBlocks, 4160)
    ensures 4160 - PAGE_OVERHEAD in MisfireBlocks && MisfireBlocks[4160 - PAGE_OVERHEAD].isAllocated
    ensures !WholePage(MisfireMem, 4160)
    ensures ReleasePageAsWritten((State(MisfireMem, 4160), 4160)).1 == Some((4128, 8160))
    ensures ReleasePage((State(MisfireMem, 4160), 4160)).1 == None
  {
    MisfireCore();
    MisfireList();
    PackUnpack(8128, 0);
    PackUnpack(16, 0);
    PackUnpack(0, 1);
    WholePageExact(MisfireMem, MisfirePages, MisfireBlocks, 4160);
  }
}
